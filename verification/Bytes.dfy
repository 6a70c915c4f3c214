/** Byte strings as the application sees them, their lexicographic order, and
    the hash functions that every commitment in the model is parameterised by. */
module Bytes {

  type byte = x: int | 0 <= x < 256
  type bytes = seq<byte>

  /** A SHA-256 digest: only its length is known. */
  type Digest = d: bytes | |d| == 32 witness seq(32, _ => 0)

  /** SHA-256 is an arbitrary total function. Nothing below assumes it to be
      injective, which no function into 32 bytes can be. */
  type Hasher = bytes -> Digest

  /** The bytes of a text literal. */
  function Ascii(s: string): (r: bytes)
    ensures |r| == |s|
  {
    seq(|s|, i requires 0 <= i < |s| => s[i] as int % 256)
  }

  datatype Option<+T> = None | Some(value: T)

  datatype Result<+T, +E> = Ok(value: T) | Err(error: E)

  const TWO_63: int := 0x8000_0000_0000_0000
  const TWO_64: int := 0x1_0000_0000_0000_0000

  type uint64 = x: int | 0 <= x < TWO_64
  type int64 = x: int | -TWO_63 <= x < TWO_63

  /** Bytes that fit in a Go slice; longer ones cannot exist. */
  type Slice = b: bytes | |b| < 0x4000_0000_0000_0000 witness []

  /** Two preimages taken from `as` and `bs` that differ and share a digest. */
  ghost predicate Collide(h: Hasher, left: set<bytes>, right: set<bytes>) {
    exists a, b :: a in left && b in right && a != b && h(a) == h(b)
  }

  /** `bytes.Compare(a, b) < 0`. */
  predicate Less(a: bytes, b: bytes) {
    && b != []
    && (a == [] || a[0] < b[0] || (a[0] == b[0] && Less(a[1..], b[1..])))
  }

  lemma {:induction false} LessIrreflexive(a: bytes)
    ensures !Less(a, a)
  {
    if a != [] {
      LessIrreflexive(a[1..]);
    }
  }

  lemma {:induction false} LessTransitive(a: bytes, b: bytes, c: bytes)
    requires Less(a, b) && Less(b, c)
    ensures Less(a, c)
  {
    if a != [] && a[0] == b[0] && b[0] == c[0] {
      LessTransitive(a[1..], b[1..], c[1..]);
    }
  }

  lemma {:induction false} LessTotal(a: bytes, b: bytes)
    ensures Less(a, b) || a == b || Less(b, a)
  {
    if a != [] && b != [] && a[0] == b[0] {
      LessTotal(a[1..], b[1..]);
      assert a == [a[0]] + a[1..] && b == [b[0]] + b[1..];
    }
  }

  /** Strictly increasing in byte order, hence without duplicates. */
  ghost predicate StrictlyIncreasing(keys: seq<bytes>) {
    forall i, j :: 0 <= i < j < |keys| ==> Less(keys[i], keys[j])
  }

  /** Two sorted runs join into one exactly when their ends are in order. */
  lemma {:induction false} IncreasingJoin(left: seq<bytes>, right: seq<bytes>)
    requires left != [] && right != []
    ensures StrictlyIncreasing(left + right) <==>
            && StrictlyIncreasing(left) && StrictlyIncreasing(right)
            && Less(left[|left| - 1], right[0])
  {
    var all := left + right;
    if StrictlyIncreasing(all) {
      assert forall i :: 0 <= i < |left| ==> left[i] == all[i];
      assert forall i :: 0 <= i < |right| ==> right[i] == all[|left| + i];
    }
    if StrictlyIncreasing(left) && StrictlyIncreasing(right) && Less(left[|left| - 1], right[0]) {
      forall i, j | 0 <= i < j < |all|
        ensures Less(all[i], all[j])
      {
        if i < |left| <= j {
          if i < |left| - 1 {
            LessTransitive(left[i], left[|left| - 1], right[0]);
          }
          if |left| < j {
            LessTransitive(left[i], right[0], right[j - |left|]);
          }
        }
      }
    }
  }

  /** Two strictly increasing sequences over the same keys are the same one. */
  lemma {:induction false} IncreasingUnique(a: seq<bytes>, b: seq<bytes>)
    requires StrictlyIncreasing(a) && StrictlyIncreasing(b)
    requires forall k :: k in a <==> k in b
    ensures a == b
  {
    assert a != [] ==> a[0] in b;
    assert b != [] ==> b[0] in a;
    if a != [] && b != [] {
      HeadIsLeast(a);
      HeadIsLeast(b);
      if a[0] != b[0] {
        LessTransitive(a[0], b[0], a[0]);
        LessIrreflexive(a[0]);
        assert false;
      }
      forall k
        ensures k in a[1..] <==> k in b[1..]
      {
        assert k in a <==> k == a[0] || k in a[1..];
        assert k in b <==> k == b[0] || k in b[1..];
      }
      IncreasingUnique(a[1..], b[1..]);
      assert a == [a[0]] + a[1..] && b == [b[0]] + b[1..];
    }
  }

  lemma {:induction false} HeadIsLeast(a: seq<bytes>)
    requires a != [] && StrictlyIncreasing(a)
    ensures forall k :: k in a && k != a[0] ==> Less(a[0], k)
    ensures a[0] !in a[1..]
  {
    forall i | 0 < i < |a|
      ensures a[i] != a[0]
    {
      LessIrreflexive(a[0]);
    }
  }
}
