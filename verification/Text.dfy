/** Hexadecimal and decimal text as the hashed messages spell them, and the
    facts that make each spelling uniquely readable. */
module Text {
  import opened Bytes

  function HexValue(c: char): Option<int> {
    if '0' <= c <= '9' then Some(c as int - '0' as int)
    else if 'a' <= c <= 'f' then Some(c as int - 'a' as int + 10)
    else if 'A' <= c <= 'F' then Some(c as int - 'A' as int + 10)
    else None
  }

  /** A lower-case hexadecimal digit. */
  function HexDigit(n: int): (c: char)
    requires 0 <= n < 16
    ensures HexValue(c) == Some(n) && c != ':' && c != ' '
  {
    if n < 10 then ('0' as int + n) as char else ('a' as int + n - 10) as char
  }

  function ToHex(b: bytes): (s: string)
    ensures |s| == 2 * |b|
    ensures forall c :: c in s ==> HexValue(c).Some?
  {
    if b == [] then "" else [HexDigit(b[0] / 16), HexDigit(b[0] % 16)] + ToHex(b[1..])
  }

  /** Go's `hex.DecodeString`: digit pairs of either case and nothing else. */
  function FromHex(s: string): Option<bytes> {
    if s == "" then Some([])
    else if |s| == 1 || HexValue(s[0]).None? || HexValue(s[1]).None? then None
    else
      var rest := FromHex(s[2..]);
      if rest.None? then None
      else Some([HexValue(s[0]).value * 16 + HexValue(s[1]).value] + rest.value)
  }

  lemma {:induction false} HexRoundTrip(b: bytes)
    ensures FromHex(ToHex(b)) == Some(b)
  {
    if b != [] {
      var s := ToHex(b);
      assert s[0] == HexDigit(b[0] / 16) && s[1] == HexDigit(b[0] % 16);
      assert s[2..] == ToHex(b[1..]);
      HexRoundTrip(b[1..]);
      assert b == [b[0]] + b[1..];
    }
  }

  lemma {:induction false} ToHexInjective(a: bytes, b: bytes)
    requires ToHex(a) == ToHex(b)
    ensures a == b
  {
    HexRoundTrip(a);
    HexRoundTrip(b);
  }

  predicate IsDigit(c: char) {
    '0' <= c <= '9'
  }

  /** Decimal text of a natural number, without leading zeros. */
  function Decimal(n: nat): (s: string)
    ensures s != "" && forall c :: c in s ==> IsDigit(c)
  {
    (if n < 10 then "" else Decimal(n / 10)) + [('0' as int + n % 10) as char]
  }

  lemma {:induction false} DecimalInjective(m: nat, n: nat)
    requires Decimal(m) == Decimal(n)
    ensures m == n
  {
    var s, t := Decimal(m), Decimal(n);
    assert s[|s| - 1] == ('0' as int + m % 10) as char;
    assert t[|t| - 1] == ('0' as int + n % 10) as char;
    assert m % 10 == n % 10;
    assert |s| == 1 <==> m < 10;
    assert |t| == 1 <==> n < 10;
    if m >= 10 {
      assert s[..|s| - 1] == Decimal(m / 10) && t[..|t| - 1] == Decimal(n / 10);
      DecimalInjective(m / 10, n / 10);
    }
  }

  /** The number a decimal text stands for. */
  function DecimalValue(s: string): int {
    if s == "" then 0 else 10 * DecimalValue(s[..|s| - 1]) + (s[|s| - 1] as int - '0' as int)
  }

  /** A decimal text stands for its number, and has no leading zero. */
  lemma {:induction false} DecimalReadBack(n: nat)
    ensures DecimalValue(Decimal(n)) == n && (Decimal(n)[0] == '0' ==> n == 0)
  {
    var s := Decimal(n);
    assert s[|s| - 1] as int - '0' as int == n % 10;
    if n < 10 {
      assert s[..|s| - 1] == "";
    } else {
      assert s[..|s| - 1] == Decimal(n / 10);
      DecimalReadBack(n / 10);
    }
  }

  /** The digits, by their values. */
  lemma {:induction false} HexDigits(n: int)
    requires 0 <= n < 16
    ensures HexDigit(n) == "0123456789abcdef"[n]
  {
  }

  /** The pieces of a text between separators. */
  function Parts(s: string, sep: char): seq<string> {
    if s == "" then [""]
    else
      var rest := Parts(s[1..], sep);
      if s[0] == sep then [""] + rest
      else if rest == [] then [s] else [[s[0]] + rest[0]] + rest[1..]
  }

  lemma {:induction false} PartsJoin(piece: string, sep: char, rest: string)
    requires sep !in piece
    ensures Parts(piece + [sep] + rest, sep) == [piece] + Parts(rest, sep)
  {
    var s := piece + [sep] + rest;
    if piece == "" {
      assert s[1..] == rest;
    } else {
      assert s[1..] == piece[1..] + [sep] + rest;
      PartsJoin(piece[1..], sep, rest);
      assert [piece[0]] + piece[1..] == piece;
    }
  }

  lemma {:induction false} PartsAlone(piece: string, sep: char)
    requires sep !in piece
    ensures Parts(piece, sep) == [piece]
  {
    if piece != "" {
      PartsAlone(piece[1..], sep);
      assert [piece[0]] + piece[1..] == piece;
    }
  }

  lemma {:induction false} FiveParts(a: string, b: string, c: string, d: string, e: string, sep: char)
    requires sep !in a && sep !in b && sep !in c && sep !in d && sep !in e
    ensures Parts(a + [sep] + (b + [sep] + (c + [sep] + (d + [sep] + e))), sep) == [a, b, c, d, e]
  {
    PartsJoin(a, sep, b + [sep] + (c + [sep] + (d + [sep] + e)));
    PartsJoin(b, sep, c + [sep] + (d + [sep] + e));
    PartsJoin(c, sep, d + [sep] + e);
    PartsJoin(d, sep, e);
    PartsAlone(e, sep);
  }

  /** Text is split in one way at its last separator. */
  lemma {:induction false} SplitAtLast(a: string, b: string, sep: char, x: string, y: string)
    requires sep !in x && sep !in y
    requires a + [sep] + x == b + [sep] + y
    ensures a == b && x == y
  {
    var s, t := a + [sep] + x, b + [sep] + y;
    assert s[|a|] == sep && t[|b|] == sep;
    assert t[|a|] == sep && s[|b|] == sep;
    assert a == s[..|a|] && b == t[..|b|];
    assert x == s[|a| + 1..] && y == t[|b| + 1..];
  }
}
