/** JSON text as Python's `json.dumps` writes it with sorted keys and without
    ASCII escaping, for the values a chain entry holds. Each writer is
    prefix-free in the place it is used. */
module Json {
  import opened Bytes
  import opened Encoding
  import opened Text

  /** Escapes a character that cannot stand in a JSON string as itself. */
  function Escaped(c: char): (s: string)
    ensures s != "" && s[0] != '"'
  {
    if c == '"' then ['\\', '"']
    else if c == '\\' then ['\\', '\\']
    else if c == '\n' then ['\\', 'n']
    else if c == '\r' then ['\\', 'r']
    else if c == '\t' then ['\\', 't']
    else if c as int == 12 then ['\\', 'f']
    else if c as int == 8 then ['\\', 'b']
    else if c as int < 32 then ['\\', 'u', '0', '0', HexDigit(c as int / 16), HexDigit(c as int % 16)]
    else [c]
  }

  function Joined(pieces: seq<string>): string {
    if pieces == [] then "" else pieces[0] + Joined(pieces[1..])
  }

  function Inner(s: string): string {
    Joined(seq(|s|, i requires 0 <= i < |s| => Escaped(s[i])))
  }

  lemma {:induction false} InnerStep(s: string)
    ensures Inner(s) == if s == "" then "" else Escaped(s[0]) + Inner(s[1..])
  {
    if s != "" {
      var pieces := seq(|s|, i requires 0 <= i < |s| => Escaped(s[i]));
      var rest := seq(|s[1..]|, i requires 0 <= i < |s[1..]| => Escaped(s[1..][i]));
      assert pieces[1..] == rest;
    }
  }

  function Quoted(s: string): string {
    ['"'] + Inner(s) + ['"']
  }

  lemma {:induction false} EscapedPrefixFree(c: char, d: char, x: string, y: string)
    requires Escaped(c) + x == Escaped(d) + y
    ensures c == d && x == y
  {
    var s, t := Escaped(c) + x, Escaped(d) + y;
    assert s[0] == Escaped(c)[0] && t[0] == Escaped(d)[0];
    assert |Escaped(c)| > 1 ==> s[1] == Escaped(c)[1];
    assert |Escaped(d)| > 1 ==> t[1] == Escaped(d)[1];
    assert |Escaped(c)| > 4 ==> s[4] == Escaped(c)[4] && s[5] == Escaped(c)[5];
    assert |Escaped(d)| > 4 ==> t[4] == Escaped(d)[4] && t[5] == Escaped(d)[5];
    assert |Escaped(c)| == |Escaped(d)|;
    assert c == d;
    assert x == s[|Escaped(c)|..] && y == t[|Escaped(d)|..];
  }

  /** Only the closing quote of a string is a bare quote. */
  lemma {:induction false} InnerHead(s: string, x: string)
    ensures (Inner(s) + (['"'] + x))[0] == '"' <==> s == ""
  {
    InnerStep(s);
    if s != "" {
      assert (Inner(s) + (['"'] + x))[0] == Escaped(s[0])[0];
    }
  }

  lemma {:induction false} InnerPrefixFree(a: string, b: string, x: string, y: string)
    requires Inner(a) + (['"'] + x) == Inner(b) + (['"'] + y)
    ensures a == b && x == y
  {
    InnerHead(a, x);
    InnerHead(b, y);
    InnerStep(a);
    InnerStep(b);
    assert a == "" <==> b == "";
    if a == "" {
      assert Inner(a) + (['"'] + x) == ['"'] + x;
      assert Inner(b) + (['"'] + y) == ['"'] + y;
      SplitEqual(['"'], ['"'], x, y);
    } else {
      Regroup(Escaped(a[0]), Inner(a[1..]), ['"'] + x);
      Regroup(Escaped(b[0]), Inner(b[1..]), ['"'] + y);
      EscapedPrefixFree(a[0], b[0], Inner(a[1..]) + (['"'] + x), Inner(b[1..]) + (['"'] + y));
      InnerPrefixFree(a[1..], b[1..], x, y);
      assert a == [a[0]] + a[1..] && b == [b[0]] + b[1..];
    }
  }

  lemma {:induction false} QuotedPrefixFree(a: string, b: string, x: string, y: string)
    requires Quoted(a) + x == Quoted(b) + y
    ensures a == b && x == y
  {
    Regroup(['"'] + Inner(a), ['"'], x);
    Regroup(['"'], Inner(a), ['"'] + x);
    Regroup(['"'] + Inner(b), ['"'], y);
    Regroup(['"'], Inner(b), ['"'] + y);
    SplitEqual(['"'], ['"'], Inner(a) + (['"'] + x), Inner(b) + (['"'] + y));
    InnerPrefixFree(a, b, x, y);
  }

  function Number(n: int): (s: string)
    ensures s != "" && (IsDigit(s[0]) || s[0] == '-') && forall i :: 0 < i < |s| ==> IsDigit(s[i])
  {
    if n < 0 then ['-'] + Decimal(-n) else Decimal(n)
  }

  lemma {:induction false} NumberInjective(m: int, n: int)
    requires Number(m) == Number(n)
    ensures m == n
  {
    assert m >= 0 ==> IsDigit(Decimal(m)[0]);
    assert n >= 0 ==> IsDigit(Decimal(n)[0]);
    if m < 0 {
      assert n < 0;
      assert Decimal(-m) == Number(m)[1..] && Decimal(-n) == Number(n)[1..];
      DecimalInjective(-m, -n);
    } else {
      assert n >= 0;
      DecimalInjective(m, n);
    }
  }

  /** Text that ends a number: it starts with something no number contains. */
  predicate EndsNumber(s: string) {
    s != "" && !IsDigit(s[0])
  }

  lemma {:induction false} NumberPrefixFree(m: int, n: int, x: string, y: string)
    requires EndsNumber(x) && EndsNumber(y)
    requires Number(m) + x == Number(n) + y
    ensures m == n && x == y
  {
    var s, t := Number(m) + x, Number(n) + y;
    assert s[|Number(m)|] == x[0] && t[|Number(n)|] == y[0];
    assert |Number(m)| == |Number(n)|;
    assert Number(m) == s[..|Number(m)|] && Number(n) == t[..|Number(n)|];
    assert x == s[|Number(m)|..] && y == t[|Number(n)|..];
    NumberInjective(m, n);
  }

  /** The rest of a list after its first element. */
  function ListTail(l: seq<int>): (s: string)
    ensures EndsNumber(s)
  {
    if l == [] then [']'] else [',', ' '] + Number(l[0]) + ListTail(l[1..])
  }

  function List(l: seq<int>): string {
    if l == [] then ['[', ']'] else ['['] + Number(l[0]) + ListTail(l[1..])
  }

  /** The head of a list tail tells whether it ends there. */
  lemma {:induction false} ListTailHead(l: seq<int>, x: string)
    ensures (ListTail(l) + x)[0] == if l == [] then ']' else ','
  {
    assert (ListTail(l) + x)[0] == ListTail(l)[0];
  }

  lemma {:induction false} ItemsPrefixFree(lead: string, m: int, n: int, a: string, b: string, x: string, y: string)
    requires EndsNumber(a) && EndsNumber(b)
    requires lead + Number(m) + a + x == lead + Number(n) + b + y
    ensures m == n && a + x == b + y
  {
    Regroup(lead, Number(m), a + x);
    Regroup(lead + Number(m), a, x);
    Regroup(lead, Number(n), b + y);
    Regroup(lead + Number(n), b, y);
    SplitEqual(lead, lead, Number(m) + (a + x), Number(n) + (b + y));
    NumberPrefixFree(m, n, a + x, b + y);
  }

  lemma {:induction false} ListTailPrefixFree(a: seq<int>, b: seq<int>, x: string, y: string)
    requires ListTail(a) + x == ListTail(b) + y
    ensures a == b && x == y
  {
    ListTailHead(a, x);
    ListTailHead(b, y);
    assert a == [] <==> b == [];
    if a == [] {
      SplitEqual([']'], [']'], x, y);
    } else {
      ItemsPrefixFree([',', ' '], a[0], b[0], ListTail(a[1..]), ListTail(b[1..]), x, y);
      ListTailPrefixFree(a[1..], b[1..], x, y);
      assert a == [a[0]] + a[1..] && b == [b[0]] + b[1..];
    }
  }

  lemma {:induction false} ListPrefixFree(a: seq<int>, b: seq<int>, x: string, y: string)
    requires List(a) + x == List(b) + y
    ensures a == b && x == y
  {
    ListSecond(a, x);
    ListSecond(b, y);
    assert a == [] <==> b == [];
    if a == [] {
      SplitEqual(['[', ']'], ['[', ']'], x, y);
    } else {
      ItemsPrefixFree(['['], a[0], b[0], ListTail(a[1..]), ListTail(b[1..]), x, y);
      ListTailPrefixFree(a[1..], b[1..], x, y);
      assert a == [a[0]] + a[1..] && b == [b[0]] + b[1..];
    }
  }

  lemma {:induction false} ListSecond(l: seq<int>, x: string)
    ensures |List(l)| > 1 && ((List(l) + x)[1] == ']' <==> l == [])
  {
    if l != [] {
      assert (List(l) + x)[1] == Number(l[0])[0];
    }
  }

  /** A number or null. */
  function Nullable(o: Option<int>): string {
    if o.None? then ['n', 'u', 'l', 'l'] else Number(o.value)
  }

  lemma {:induction false} NullablePrefixFree(a: Option<int>, b: Option<int>, x: string, y: string)
    requires EndsNumber(x) && EndsNumber(y)
    requires Nullable(a) + x == Nullable(b) + y
    ensures a == b && x == y
  {
    var s, t := Nullable(a) + x, Nullable(b) + y;
    assert s[0] == Nullable(a)[0] && t[0] == Nullable(b)[0];
    if a.None? {
      assert b.None?;
      assert x == s[4..] && y == t[4..];
    } else {
      assert b.Some?;
      NumberPrefixFree(a.value, b.value, x, y);
    }
  }

  datatype Value = Str(s: string) | Num(n: int) | Nums(l: seq<int>) | NumOrNull(o: Option<int>)

  datatype Member = Member(key: string, value: Value)

  function ValueText(v: Value): string {
    match v
    case Str(s) => Quoted(s)
    case Num(n) => Number(n)
    case Nums(l) => List(l)
    case NumOrNull(o) => Nullable(o)
  }

  predicate SameType(v: Value, w: Value) {
    v.Str? == w.Str? && v.Num? == w.Num? && v.Nums? == w.Nums? && v.NumOrNull? == w.NumOrNull?
  }

  lemma {:induction false} ValuePrefixFree(v: Value, w: Value, x: string, y: string)
    requires SameType(v, w) && EndsNumber(x) && EndsNumber(y)
    requires ValueText(v) + x == ValueText(w) + y
    ensures v == w && x == y
  {
    match v
    case Str(s) => QuotedPrefixFree(s, w.s, x, y);
    case Num(n) => NumberPrefixFree(n, w.n, x, y);
    case Nums(l) => ListPrefixFree(l, w.l, x, y);
    case NumOrNull(o) => NullablePrefixFree(o, w.o, x, y);
  }

  function Labelled(m: Member): string {
    Quoted(m.key) + [':', ' ']
  }

  /** Members after the first, up to the closing brace. */
  function MembersTail(ms: seq<Member>): (s: string)
    ensures EndsNumber(s)
  {
    if ms == [] then ['}'] else [',', ' '] + Labelled(ms[0]) + ValueText(ms[0].value) + MembersTail(ms[1..])
  }

  function Object(ms: seq<Member>): string {
    if ms == [] then ['{', '}'] else ['{'] + Labelled(ms[0]) + ValueText(ms[0].value) + MembersTail(ms[1..])
  }

  /** Two objects of one layout: the same keys with values of the same types. */
  ghost predicate SameLayout(a: seq<Member>, b: seq<Member>) {
    |a| == |b| && forall i :: 0 <= i < |a| ==> a[i].key == b[i].key && SameType(a[i].value, b[i].value)
  }

  lemma {:induction false} MemberPrefixFree(lead: string, v: Value, w: Value, a: string, b: string, x: string, y: string)
    requires SameType(v, w) && EndsNumber(a) && EndsNumber(b)
    requires lead + ValueText(v) + a + x == lead + ValueText(w) + b + y
    ensures v == w && a + x == b + y
  {
    Regroup(lead, ValueText(v), a + x);
    Regroup(lead + ValueText(v), a, x);
    Regroup(lead, ValueText(w), b + y);
    Regroup(lead + ValueText(w), b, y);
    SplitEqual(lead, lead, ValueText(v) + (a + x), ValueText(w) + (b + y));
    ValuePrefixFree(v, w, a + x, b + y);
  }

  lemma {:induction false} MembersTailPrefixFree(a: seq<Member>, b: seq<Member>, x: string, y: string)
    requires SameLayout(a, b)
    requires MembersTail(a) + x == MembersTail(b) + y
    ensures a == b && x == y
  {
    if a == [] {
      SplitEqual(['}'], ['}'], x, y);
    } else {
      MemberPrefixFree([',', ' '] + Labelled(a[0]), a[0].value, b[0].value, MembersTail(a[1..]), MembersTail(b[1..]), x, y);
      MembersTailPrefixFree(a[1..], b[1..], x, y);
      assert a == [a[0]] + a[1..] && b == [b[0]] + b[1..];
    }
  }

  /** Objects of one layout are uniquely readable, whatever follows. */
  lemma {:induction false} ObjectPrefixFree(a: seq<Member>, b: seq<Member>, x: string, y: string)
    requires SameLayout(a, b)
    requires Object(a) + x == Object(b) + y
    ensures a == b && x == y
  {
    if a == [] {
      SplitEqual(['{', '}'], ['{', '}'], x, y);
    } else {
      MemberPrefixFree(['{'] + Labelled(a[0]), a[0].value, b[0].value, MembersTail(a[1..]), MembersTail(b[1..]), x, y);
      MembersTailPrefixFree(a[1..], b[1..], x, y);
      assert a == [a[0]] + a[1..] && b == [b[0]] + b[1..];
    }
  }

  // ---- the texts, read back and spelled out ----

  /** A character that may stand in a JSON string as itself. */
  predicate PlainChar(c: char) {
    c as int >= 32 && c != '"' && c != '\\'
  }

  /** The character a two-character escape stands for. */
  function Unescaped(c: char): Option<char> {
    if c == '"' || c == '\\' then Some(c)
    else if c == 'n' then Some('\n')
    else if c == 'r' then Some('\r')
    else if c == 't' then Some('\t')
    else if c == 'f' then Some(12 as char)
    else if c == 'b' then Some(8 as char)
    else None
  }

  /** One character of a JSON string, and what follows it. */
  function ReadChar(s: string): Option<(char, string)>
    requires s != ""
  {
    if s[0] != '\\' then Some((s[0], s[1..]))
    else if |s| >= 2 && Unescaped(s[1]).Some? then Some((Unescaped(s[1]).value, s[2..]))
    else if |s| >= 6 && s[1] == 'u' && s[2] == '0' && s[3] == '0' && HexValue(s[4]).Some? && HexValue(s[5]).Some? then
      Some(((HexValue(s[4]).value * 16 + HexValue(s[5]).value) as char, s[6..]))
    else None
  }

  /** Reads a JSON string from after its opening quote: its characters, and what
      follows the closing quote. */
  function ReadChars(s: string): Option<(string, string)>
    decreases |s|
  {
    if s == "" then None
    else if s[0] == '"' then Some(("", s[1..]))
    else
      match ReadChar(s)
      case None => None
      case Some((c, more)) =>
        match ReadChars(more)
        case None => None
        case Some((text, rest)) => Some(([c] + text, rest))
  }

  lemma {:induction false} CharReadBack(c: char, x: string)
    ensures ReadChar(Escaped(c) + x) == Some((c, x)) && (Escaped(c) + x)[0] != '"'
  {
    var e := Escaped(c);
    assert forall i :: 0 <= i < |e| ==> (e + x)[i] == e[i];
    assert (e + x)[|e|..] == x;
  }

  /** The seven characters with a two-character escape. */
  predicate HasShortEscape(c: char) {
    c == '"' || c == '\\' || c == '\n' || c == '\r' || c == '\t' || c as int == 12 || c as int == 8
  }

  /** Only characters that must be are escaped, in the short form if there is one. */
  lemma {:induction false} EscapedShortest(c: char)
    ensures Escaped(c) == [c] <==> PlainChar(c)
    ensures |Escaped(c)| == 2 <==> HasShortEscape(c)
  {
  }

  lemma {:induction false} InnerReadBack(s: string, x: string)
    ensures ReadChars(Inner(s) + (['"'] + x)) == Some((s, x))
  {
    InnerStep(s);
    if s == "" {
      assert Inner(s) + (['"'] + x) == ['"'] + x;
    } else {
      var e, rest := Escaped(s[0]), Inner(s[1..]) + (['"'] + x);
      Regroup(e, Inner(s[1..]), ['"'] + x);
      InnerReadBack(s[1..], x);
      CharReadBack(s[0], rest);
      assert s == [s[0]] + s[1..];
    }
  }

  /** A string is read back from its text, whatever follows. */
  lemma {:induction false} QuotedReadBack(s: string, x: string)
    ensures (Quoted(s) + x)[0] == '"' && ReadChars((Quoted(s) + x)[1..]) == Some((s, x))
  {
    Regroup(['"'] + Inner(s), ['"'], x);
    Regroup(['"'], Inner(s), ['"'] + x);
    assert (Quoted(s) + x)[1..] == Inner(s) + (['"'] + x);
    InnerReadBack(s, x);
  }

  lemma {:induction false} QuotedPlain(s: string)
    requires forall c :: c in s ==> PlainChar(c)
    ensures Quoted(s) == ['"'] + s + ['"']
  {
    InnerPlain(s);
  }

  lemma {:induction false} InnerPlain(s: string)
    requires forall c :: c in s ==> PlainChar(c)
    ensures Inner(s) == s
  {
    InnerStep(s);
    if s != "" {
      assert s[0] in s;
      InnerPlain(s[1..]);
      assert s == [s[0]] + s[1..];
    }
  }

  lemma {:induction false} NumberReadBack(n: int)
    ensures n >= 0 ==> DecimalValue(Number(n)) == n
    ensures n < 0 ==> Number(n)[0] == '-' && DecimalValue(Number(n)[1..]) == -n
  {
    DecimalReadBack(if n < 0 then -n else n);
    if n < 0 {
      assert Number(n)[1..] == Decimal(-n);
    }
  }

  /** Numbers with a comma and a space between them. */
  function Separated(l: seq<int>): string {
    if l == [] then "" else if |l| == 1 then Number(l[0]) else Number(l[0]) + (", " + Separated(l[1..]))
  }

  lemma {:induction false} ListTailSpelled(l: seq<int>)
    ensures ListTail(l) == if l == [] then "]" else ", " + Separated(l) + "]"
  {
    if l != [] {
      ListTailSpelled(l[1..]);
      FirstSpelled(", ", l);
    }
  }

  lemma {:induction false} FirstSpelled(lead: string, l: seq<int>)
    requires l != [] && ListTail(l[1..]) == if l[1..] == [] then "]" else ", " + Separated(l[1..]) + "]"
    ensures lead + Number(l[0]) + ListTail(l[1..]) == lead + Separated(l) + "]"
  {
    if |l| > 1 {
      Regroup(lead, Number(l[0]), ", " + Separated(l[1..]));
      Regroup(lead + Number(l[0]), ", " + Separated(l[1..]), "]");
    }
  }

  /** A list is its separated numbers between brackets. */
  lemma {:induction false} ListSpelled(l: seq<int>)
    ensures List(l) == "[" + Separated(l) + "]"
  {
    if l != [] {
      ListTailSpelled(l[1..]);
      FirstSpelled("[", l);
    }
  }
}
