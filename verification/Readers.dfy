/** Readers of the encodings, written on their own: what a text spells when it is
    read from the left. They say what the writers compute. */
module Readers {
  import opened Bytes
  import opened Encoding

  /** Reads a base-128 number from the left, low digits first: its value and
      what follows. */
  function ReadUvarint(b: bytes): Option<(nat, bytes)> {
    if b == [] then None
    else if b[0] < 128 then Some((b[0], b[1..]))
    else
      match ReadUvarint(b[1..])
      case None => None
      case Some((high, rest)) => Some((b[0] - 128 + 128 * high, rest))
  }

  lemma {:induction false} UvarintReadBack(n: nat, x: bytes)
    ensures ReadUvarint(Uvarint(n) + x) == Some((n, x))
  {
    var b := Uvarint(n) + x;
    UvarintHead(n, x);
    if n < 128 {
      assert b[1..] == x;
    } else {
      assert b[1..] == Uvarint(n / 128) + x;
      UvarintReadBack(n / 128, x);
    }
  }

  /** The writer writes the one spelling of a number that has no idle digits. */
  lemma {:induction false} UvarintShortest(b: bytes, n: nat)
    ensures b == Uvarint(n) <==> ReadUvarint(b) == Some((n, [])) && (|b| > 1 ==> b[|b| - 1] != 0)
  {
    if b == Uvarint(n) {
      UvarintReadBack(n, []);
      assert Uvarint(n) + [] == b;
      UvarintLast(n);
    } else if ReadUvarint(b) == Some((n, [])) && (|b| > 1 ==> b[|b| - 1] != 0) {
      OnlySpelling(b, n);
      assert false;
    }
  }

  lemma {:induction false} UvarintLast(n: nat)
    ensures |Uvarint(n)| > 1 ==> Uvarint(n)[|Uvarint(n)| - 1] != 0
  {
    if n >= 128 {
      UvarintLast(n / 128);
      assert n / 128 < 128 ==> Uvarint(n / 128) == [n / 128];
    }
  }

  lemma {:induction false} OnlySpelling(b: bytes, n: nat)
    requires ReadUvarint(b) == Some((n, [])) && (|b| > 1 ==> b[|b| - 1] != 0)
    ensures b == Uvarint(n) && (|b| > 1 || b[0] != 0 ==> n > 0)
  {
    if b[0] < 128 {
      assert b == [b[0]] + b[1..];
    } else {
      var high := ReadUvarint(b[1..]).value.0;
      OnlySpelling(b[1..], high);
      assert n / 128 == high && n % 128 == b[0] - 128;
      assert b == [b[0]] + b[1..];
    }
  }

  /** Zigzag: even numbers stand for the non-negative ones. */
  function ReadVarint(b: bytes): Option<(int, bytes)> {
    match ReadUvarint(b)
    case None => None
    case Some((u, rest)) => Some((if u % 2 == 0 then u / 2 else -(u + 1) / 2, rest))
  }

  lemma {:induction false} VarintReadBack(v: int, x: bytes)
    ensures ReadVarint(Varint(v) + x) == Some((v, x))
  {
    UvarintReadBack(if v >= 0 then 2 * v else -2 * v - 1, x);
  }

  /** Length-prefixed bytes, and what follows them. */
  function ReadVarFrame(b: bytes): Option<(bytes, bytes)> {
    match ReadUvarint(b)
    case None => None
    case Some((n, rest)) => if n > |rest| then None else Some((rest[..n], rest[n..]))
  }

  lemma {:induction false} VarFrameReadBack(a: bytes, x: bytes)
    ensures ReadVarFrame(VarFrame(a) + x) == Some((a, x))
  {
    Regroup(Uvarint(|a|), a, x);
    UvarintReadBack(|a|, a + x);
    assert (a + x)[..|a|] == a && (a + x)[|a|..] == x;
  }

  function BigEndianValue(b: bytes): nat {
    if b == [] then 0 else BigEndianValue(b[..|b| - 1]) * 256 + b[|b| - 1]
  }

  lemma {:induction false} BigEndianRoundTrip(n: nat, width: nat)
    requires n < Pow256(width)
    ensures BigEndianValue(BigEndian(n, width)) == n
  {
    if width > 0 {
      BigEndianRoundTrip(n / 256, width - 1);
      assert BigEndian(n, width)[..width - 1] == BigEndian(n / 256, width - 1);
      assert n == n / 256 * 256 + n % 256;
    }
  }

  lemma {:induction false} BigEndianOfValue(b: bytes)
    ensures BigEndian(BigEndianValue(b), |b|) == b
  {
    if b != [] {
      var n := |b| - 1;
      BigEndianOfValue(b[..n]);
      assert BigEndianValue(b) / 256 == BigEndianValue(b[..n]) && BigEndianValue(b) % 256 == b[n];
      assert b == b[..n] + [b[n]];
    }
  }

  lemma {:induction false} U64Value(n: uint64)
    ensures BigEndianValue(U64(n)) == n
  {
    assert Pow256(8) == TWO_64 by {
      assert Pow256(4) == 0x1_0000_0000;
    }
    BigEndianRoundTrip(n, 8);
  }

  /** Eight bytes, most significant first, and what follows. */
  function ReadU64(b: bytes): Option<(nat, bytes)> {
    if |b| < 8 then None else Some((BigEndianValue(b[..8]), b[8..]))
  }

  lemma {:induction false} U64ReadBack(n: uint64, x: bytes)
    ensures ReadU64(U64(n) + x) == Some((n, x))
  {
    U64Value(n);
    assert (U64(n) + x)[..8] == U64(n) && (U64(n) + x)[8..] == x;
  }

  /** Eight-byte length, that many bytes, and what follows them. */
  function ReadFrame(b: bytes): Option<(bytes, bytes)> {
    match ReadU64(b)
    case None => None
    case Some((n, rest)) => if n > |rest| then None else Some((rest[..n], rest[n..]))
  }

  lemma {:induction false} FrameReadBack(a: bytes, x: bytes)
    requires Framable(a)
    ensures ReadFrame(Frame(a) + x) == Some((a, x))
  {
    Regroup(U64(|a|), a, x);
    U64ReadBack(|a|, a + x);
    assert (a + x)[..|a|] == a && (a + x)[|a|..] == x;
  }

  /** A number of frames, and what follows them. */
  function ReadFrames(b: bytes, count: nat): Option<(seq<bytes>, bytes)> {
    if count == 0 then Some(([], b)) else
    match ReadFrame(b)
    case None => None
    case Some((first, rest)) =>
      match ReadFrames(rest, count - 1)
      case None => None
      case Some((others, end)) => Some(([first] + others, end))
  }

  /** Framed fields are read back one by one: lengths, contents and order. */
  lemma {:induction false} FramesReadBack(fields: seq<bytes>, x: bytes)
    requires AllFramable(fields)
    ensures ReadFrames(FrameAll(fields) + x, |fields|) == Some((fields, x))
  {
    if fields == [] {
      assert FrameAll(fields) + x == x;
    } else {
      Regroup(Frame(fields[0]), FrameAll(fields[1..]), x);
      FrameReadBack(fields[0], FrameAll(fields[1..]) + x);
      FramesReadBack(fields[1..], x);
      assert fields == [fields[0]] + fields[1..];
    }
  }

  lemma {:induction false} BigEndianBound(b: bytes)
    ensures BigEndianValue(b) < Pow256(|b|)
  {
    if b != [] {
      BigEndianBound(b[..|b| - 1]);
    }
  }

  lemma {:induction false} OnlyU64(b: bytes, n: nat, x: bytes)
    requires ReadU64(b) == Some((n, x))
    ensures n < TWO_64 && b == U64(n) + x
  {
    BigEndianBound(b[..8]);
    assert Pow256(8) == TWO_64 by {
      assert Pow256(4) == 0x1_0000_0000;
    }
    BigEndianOfValue(b[..8]);
    assert b == b[..8] + b[8..];
  }

  lemma {:induction false} OnlyFrame(b: bytes, a: bytes, x: bytes)
    requires ReadFrame(b) == Some((a, x))
    ensures Framable(a) && b == Frame(a) + x
  {
    var n, rest := ReadU64(b).value.0, ReadU64(b).value.1;
    OnlyU64(b, n, rest);
    FrameWhole(n, rest, a, x);
    Regroup(U64(n), a, x);
  }

  lemma {:induction false} FrameWhole(n: nat, rest: bytes, a: bytes, x: bytes)
    requires n <= |rest| && a == rest[..n] && x == rest[n..]
    ensures |a| == n && rest == a + x
  {
  }

  /** Nothing else reads as these fields. */
  lemma {:induction false} OnlyFrames(b: bytes, fields: seq<bytes>, x: bytes)
    requires ReadFrames(b, |fields|) == Some((fields, x))
    ensures AllFramable(fields) && b == FrameAll(fields) + x
  {
    if fields == [] {
      assert FrameAll(fields) + x == x;
    } else {
      var first, rest := ReadFrame(b).value.0, ReadFrame(b).value.1;
      var others := ReadFrames(rest, |fields| - 1).value.0;
      assert fields == [first] + others && others == fields[1..];
      OnlyFrame(b, first, rest);
      OnlyFrames(rest, others, x);
      Regroup(Frame(first), FrameAll(others), x);
    }
  }
}
