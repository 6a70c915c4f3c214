/** The byte encodings the hashed manifests are written in, and the facts that
    make them uniquely readable: each writer below is prefix-free, so equal
    concatenations are equal field by field. */
module Encoding {
  import opened Bytes

  /** Base-128 varint, `binary.PutUvarint`. */
  function Uvarint(n: nat): (r: bytes)
    ensures |r| > 0
  {
    if n < 128 then [n] else [n % 128 + 128] + Uvarint(n / 128)
  }

  /** Zigzag varint, `binary.PutVarint`. */
  function Varint(v: int): bytes {
    Uvarint(if v >= 0 then 2 * v else -2 * v - 1)
  }

  /** A number is its quotient and remainder. */
  lemma {:induction false} DivModUnique(m: nat, n: nat, d: nat)
    requires d > 0 && m / d == n / d && m % d == n % d
    ensures m == n
  {
    assert m == m / d * d + m % d;
    assert n == n / d * d + n % d;
  }

  /** The first byte tells whether more follow. */
  lemma {:induction false} UvarintHead(n: nat, x: bytes)
    ensures (Uvarint(n) + x)[0] == if n < 128 then n else n % 128 + 128
  {
    assert (Uvarint(n) + x)[0] == Uvarint(n)[0];
  }

  lemma {:induction false} UvarintPrefixFree(m: nat, n: nat, x: bytes, y: bytes)
    requires Uvarint(m) + x == Uvarint(n) + y
    ensures m == n && x == y
  {
    UvarintHead(m, x);
    UvarintHead(n, y);
    if m < 128 {
      SplitEqual([m], [n], x, y);
    } else {
      Regroup([m % 128 + 128], Uvarint(m / 128), x);
      Regroup([n % 128 + 128], Uvarint(n / 128), y);
      SplitEqual([m % 128 + 128], [n % 128 + 128], Uvarint(m / 128) + x, Uvarint(n / 128) + y);
      UvarintPrefixFree(m / 128, n / 128, x, y);
      DivModUnique(m, n, 128);
    }
  }

  lemma {:induction false} VarintPrefixFree(v: int, w: int, x: bytes, y: bytes)
    requires Varint(v) + x == Varint(w) + y
    ensures v == w && x == y
  {
    UvarintPrefixFree(if v >= 0 then 2 * v else -2 * v - 1,
                      if w >= 0 then 2 * w else -2 * w - 1, x, y);
  }

  /** Length-prefixed bytes as IAVL writes them. */
  function VarFrame(b: bytes): bytes {
    Uvarint(|b|) + b
  }

  lemma {:induction false} VarFramePrefixFree(a: bytes, b: bytes, x: bytes, y: bytes)
    requires VarFrame(a) + x == VarFrame(b) + y
    ensures a == b && x == y
  {
    Regroup(Uvarint(|a|), a, x);
    Regroup(Uvarint(|b|), b, y);
    UvarintPrefixFree(|a|, |b|, a + x, b + y);
    SplitEqual(a, b, x, y);
  }

  lemma {:induction false} SplitEqual<T>(a: seq<T>, b: seq<T>, x: seq<T>, y: seq<T>)
    requires a + x == b + y && |a| == |b|
    ensures a == b && x == y
  {
    assert a == (a + x)[..|a|] && b == (b + y)[..|b|];
    assert x == (a + x)[|a|..] && y == (b + y)[|b|..];
  }

  lemma {:induction false} Regroup<T>(a: seq<T>, b: seq<T>, c: seq<T>)
    ensures a + b + c == a + (b + c)
  {
  }

  lemma {:induction false} ConcatAssociative<T>(a: seq<T>, b: seq<T>, c: seq<T>, d: seq<T>)
    ensures a + (b + c + d) == a + b + c + d
  {
  }

  /** `width` bytes of `n`, most significant first, `binary.BigEndian`. */
  function BigEndian(n: nat, width: nat): (r: bytes)
    ensures |r| == width
  {
    if width == 0 then [] else BigEndian(n / 256, width - 1) + [n % 256]
  }

  function Pow256(width: nat): nat {
    if width == 0 then 1 else 256 * Pow256(width - 1)
  }

  lemma {:induction false} BigEndianInjective(m: nat, n: nat, width: nat)
    requires m < Pow256(width) && n < Pow256(width)
    requires BigEndian(m, width) == BigEndian(n, width)
    ensures m == n
  {
    if width > 0 {
      SplitEqual(BigEndian(m / 256, width - 1), BigEndian(n / 256, width - 1), [m % 256], [n % 256]);
      assert m % 256 == [m % 256][0] == [n % 256][0] == n % 256;
      BigEndianInjective(m / 256, n / 256, width - 1);
      DivModUnique(m, n, 256);
    }
  }

  function U64(n: uint64): (r: bytes)
    ensures |r| == 8
  {
    BigEndian(n, 8)
  }

  lemma {:induction false} U64PrefixFree(m: uint64, n: uint64, x: bytes, y: bytes)
    requires U64(m) + x == U64(n) + y
    ensures m == n && x == y
  {
    SplitEqual(U64(m), U64(n), x, y);
    assert Pow256(8) == TWO_64 by {
      assert Pow256(4) == 0x1_0000_0000;
    }
    BigEndianInjective(m, n, 8);
  }

  /** Every Go slice is shorter than 2^64 bytes, so its length fits the prefix. */
  predicate Framable(b: bytes) {
    |b| < TWO_64
  }

  /** Eight-byte big-endian length, then the bytes. */
  function Frame(b: bytes): bytes
    requires Framable(b)
  {
    U64(|b|) + b
  }

  lemma {:induction false} FramePrefixFree(a: bytes, b: bytes, x: bytes, y: bytes)
    requires Framable(a) && Framable(b)
    requires Frame(a) + x == Frame(b) + y
    ensures a == b && x == y
  {
    Regroup(U64(|a|), a, x);
    Regroup(U64(|b|), b, y);
    U64PrefixFree(|a|, |b|, a + x, b + y);
    SplitEqual(a, b, x, y);
  }

  predicate AllFramable(fields: seq<bytes>) {
    forall f :: f in fields ==> Framable(f)
  }

  function FrameAll(fields: seq<bytes>): (r: bytes)
    requires AllFramable(fields)
    ensures fields != [] ==> r != []
  {
    if fields == [] then [] else Frame(fields[0]) + FrameAll(fields[1..])
  }

  lemma {:induction false} FrameAllSnoc(fields: seq<bytes>, last: bytes)
    requires AllFramable(fields) && Framable(last)
    ensures FrameAll(fields + [last]) == FrameAll(fields) + Frame(last)
  {
    if fields == [] {
      assert fields + [last] == [last];
      assert FrameAll([last][1..]) == [];
    } else {
      assert (fields + [last])[1..] == fields[1..] + [last];
      FrameAllSnoc(fields[1..], last);
    }
  }

  /** A fixed number of frames is uniquely readable, whatever follows. */
  lemma {:induction false} FrameAllPrefixFree(a: seq<bytes>, b: seq<bytes>, x: bytes, y: bytes)
    requires AllFramable(a) && AllFramable(b) && |a| == |b|
    requires FrameAll(a) + x == FrameAll(b) + y
    ensures a == b && x == y
  {
    if a == [] {
      assert FrameAll(a) + x == x && FrameAll(b) + y == y;
    } else {
      Regroup(Frame(a[0]), FrameAll(a[1..]), x);
      Regroup(Frame(b[0]), FrameAll(b[1..]), y);
      FramePrefixFree(a[0], b[0], FrameAll(a[1..]) + x, FrameAll(b[1..]) + y);
      FrameAllPrefixFree(a[1..], b[1..], x, y);
      assert a == [a[0]] + a[1..] && b == [b[0]] + b[1..];
    }
  }

  /** Without trailing data even the number of frames is determined. */
  lemma {:induction false} FrameAllInjective(a: seq<bytes>, b: seq<bytes>)
    requires AllFramable(a) && AllFramable(b)
    requires FrameAll(a) == FrameAll(b)
    ensures a == b
  {
    if a != [] && b != [] {
      FramePrefixFree(a[0], b[0], FrameAll(a[1..]), FrameAll(b[1..]));
      FrameAllInjective(a[1..], b[1..]);
      assert a == [a[0]] + a[1..] && b == [b[0]] + b[1..];
    }
  }
}
