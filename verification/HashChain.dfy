/** The append-only signed hash chain: what `verify` accepts, how far the last
    hash binds the whole record, and the record class with its file. */
module HashChain {
  import opened Bytes
  import opened Encoding
  import opened Json
  import opened Text

  /** A SHA-256 digest in hexadecimal. */
  type HexDigest = s: string | |s| == 64 witness seq(64, _ => '0')

  /** SHA-256 over UTF-8 text, the id of a public key (sixteen digits of a
      SHA-256), and Ed25519 verification of key, signature and message. All
      three are arbitrary. */
  datatype Crypto = Crypto(sha: string -> HexDigest, idOf: bytes -> string, signedBy: (bytes, bytes, string) -> bool)

  /** Ed25519 accepts only 32-byte keys and 64-byte signatures. */
  ghost predicate KeySized(c: Crypto) {
    forall pub, sig, m :: c.signedBy(pub, sig, m) ==> |pub| == 32 && |sig| == 64
  }

  const ORIGIN := "Yu and Ai = You and I"
  const GENESIS := "genesis"
  const BEING := "being"
  const REASONING := "reasoning"

  datatype Body = Body(n: int, kind: string, author: string, content: string, refs: seq<int>, ts: int, supersedes: Option<int>)

  /** One line of the chain file: the members `verify` reads, and whatever
      other members the loaded object has, by name, which nothing reads. */
  datatype Entry = Entry(body: Body, prev: string, pub: string, sig: string, hash: string, extra: map<string, string>)

  /** Equal in everything that is read. */
  predicate ReadAlike(e: Entry, f: Entry) {
    e.body == f.body && e.prev == f.prev && e.pub == f.pub && e.sig == f.sig && e.hash == f.hash
  }

  /** The members of an entry's body under the given keys. */
  function MembersOf(keys: seq<string>, b: Body): seq<Member>
    requires |keys| == 7
  {
    [Member(keys[0], Str(b.author)), Member(keys[1], Str(b.content)), Member(keys[2], Str(b.kind)), Member(keys[3], Num(b.n)),
     Member(keys[4], Nums(b.refs)), Member(keys[5], NumOrNull(b.supersedes)), Member(keys[6], Num(b.ts))]
  }

  lemma {:induction false} MembersPrefixFree(keys: seq<string>, a: Body, b: Body, x: string, y: string)
    requires |keys| == 7
    requires Object(MembersOf(keys, a)) + x == Object(MembersOf(keys, b)) + y
    ensures a == b && x == y
  {
    var ms, ns := MembersOf(keys, a), MembersOf(keys, b);
    forall i | 0 <= i < 7
      ensures ms[i].key == ns[i].key && SameType(ms[i].value, ns[i].value)
    {
    }
    assert SameLayout(ms, ns);
    ObjectPrefixFree(ms, ns, x, y);
    assert ms[0] == ns[0] && ms[1] == ns[1] && ms[2] == ns[2] && ms[3] == ns[3] && ms[4] == ns[4] && ms[5] == ns[5] && ms[6] == ns[6];
  }

  /** Sorted, as the JSON writer sorts them. */
  const KEYS := ["author", "content", "kind", "n", "refs", "supersedes", "ts"]

  /** The canonical text a being signs and the hash commits to. */
  function Canon(b: Body): string {
    Object(MembersOf(KEYS, b))
  }

  /** How the seven keys are labelled. */
  const LABELS := ["\"author\": ", "\"content\": ", "\"kind\": ", "\"n\": ", "\"refs\": ", "\"supersedes\": ", "\"ts\": "]

  lemma {:induction false} KeyLabelled(key: string, name: string)
    requires (forall c :: c in key ==> PlainChar(c)) && name == "\"" + key + "\": "
    ensures Quoted(key) + [':', ' '] == name
  {
    QuotedPlain(key);
  }

  lemma {:induction false} KeysLabelled(i: nat)
    requires i < 7
    ensures Quoted(KEYS[i]) + [':', ' '] == LABELS[i]
  {
    KeyLabelled(KEYS[i], LABELS[i]);
  }

  /** Members spelled from a place on: a comma, a space, the label, the value. */
  function Spelled(names: seq<string>, values: seq<string>): string
    requires |names| == |values|
  {
    if names == [] then "}" else ", " + names[0] + values[0] + Spelled(names[1..], values[1..])
  }

  lemma {:induction false} MembersSpelled(ms: seq<Member>, names: seq<string>, values: seq<string>)
    requires |ms| == |names| == |values|
    requires forall i :: 0 <= i < |ms| ==> Labelled(ms[i]) == names[i] && ValueText(ms[i].value) == values[i]
    ensures MembersTail(ms) == Spelled(names, values)
  {
    if ms != [] {
      MembersSpelled(ms[1..], names[1..], values[1..]);
    }
  }

  lemma {:induction false} ObjectSpelled(ms: seq<Member>, names: seq<string>, values: seq<string>)
    requires |ms| == |names| == |values| > 0
    requires forall i :: 0 <= i < |ms| ==> Labelled(ms[i]) == names[i] && ValueText(ms[i].value) == values[i]
    ensures Object(ms) == "{" + names[0] + values[0] + Spelled(names[1..], values[1..])
  {
    MembersSpelled(ms[1..], names[1..], values[1..]);
  }

  function ValuesOf(b: Body): seq<string> {
    [Quoted(b.author), Quoted(b.content), Quoted(b.kind), Number(b.n), List(b.refs), Nullable(b.supersedes), Number(b.ts)]
  }

  /** The canonical text spelled out: the seven keys in alphabetical order, a
      colon and a space after each, a comma and a space between members. */
  lemma {:induction false} CanonSpelled(b: Body)
    ensures Canon(b) == "{" + LABELS[0] + ValuesOf(b)[0] + Spelled(LABELS[1..], ValuesOf(b)[1..])
  {
    forall i | 0 <= i < 7
      ensures Labelled(MembersOf(KEYS, b)[i]) == LABELS[i]
    {
      KeysLabelled(i);
    }
    ObjectSpelled(MembersOf(KEYS, b), LABELS, ValuesOf(b));
  }

  lemma {:induction false} CanonPrefixFree(a: Body, b: Body, x: string, y: string)
    requires Canon(a) + x == Canon(b) + y
    ensures a == b && x == y
  {
    MembersPrefixFree(KEYS, a, b, x, y);
  }

  /** The unseparated text an entry's hash is taken of. */
  function Hashed(prev: string, b: Body, pub: string, sig: string): string {
    prev + Canon(b) + pub + sig
  }

  function TextOf(e: Entry): string {
    Hashed(e.prev, e.body, e.pub, e.sig)
  }

  lemma {:induction false} HashedInjective(a: Entry, b: Entry)
    requires |a.prev| == |b.prev| && TextOf(a) == TextOf(b)
    ensures a.prev == b.prev && a.body == b.body && a.pub + a.sig == b.pub + b.sig
  {
    Regroup(a.prev + Canon(a.body), a.pub, a.sig);
    Regroup(a.prev, Canon(a.body), a.pub + a.sig);
    Regroup(b.prev + Canon(b.body), b.pub, b.sig);
    Regroup(b.prev, Canon(b.body), b.pub + b.sig);
    SplitEqual(a.prev, b.prev, Canon(a.body) + (a.pub + a.sig), Canon(b.body) + (b.pub + b.sig));
    CanonPrefixFree(a.body, b.body, a.pub + a.sig, b.pub + b.sig);
  }

  // ---- hexadecimal with white space ----

  predicate IsSpace(c: char) {
    c == ' ' || 9 <= c as int <= 13
  }

  /** Python's `bytes.fromhex`: white space may stand between bytes. */
  function FromHexSpaced(s: string): Option<bytes> {
    if s == "" then Some([])
    else if IsSpace(s[0]) then FromHexSpaced(s[1..])
    else if |s| == 1 || HexValue(s[0]).None? || HexValue(s[1]).None? then None
    else
      var rest := FromHexSpaced(s[2..]);
      if rest.None? then None
      else Some([HexValue(s[0]).value * 16 + HexValue(s[1]).value] + rest.value)
  }

  predicate SpaceFree(s: string) {
    forall c :: c in s ==> !IsSpace(c)
  }

  lemma {:induction false} SpacedHexRoundTrip(b: bytes)
    ensures FromHexSpaced(ToHex(b)) == Some(b) && SpaceFree(ToHex(b))
  {
    if b != [] {
      var s := ToHex(b);
      assert s[0] == HexDigit(b[0] / 16) && s[1] == HexDigit(b[0] % 16);
      assert s[2..] == ToHex(b[1..]);
      SpacedHexRoundTrip(b[1..]);
      assert b == [b[0]] + b[1..];
    }
  }

  /** Text that continues decodable text is decoded from there on. */
  lemma {:induction false} SpacedHexConcat(p: string, w: string)
    requires FromHexSpaced(p).Some?
    ensures FromHexSpaced(p + w) ==
            if FromHexSpaced(w).None? then None else Some(FromHexSpaced(p).value + FromHexSpaced(w).value)
  {
    if p == "" {
      assert p + w == w;
      assert FromHexSpaced(w).Some? ==> [] + FromHexSpaced(w).value == FromHexSpaced(w).value;
    } else if IsSpace(p[0]) {
      assert (p + w)[1..] == p[1..] + w;
      SpacedHexConcat(p[1..], w);
    } else {
      assert (p + w)[2..] == p[2..] + w;
      SpacedHexConcat(p[2..], w);
      if FromHexSpaced(w).Some? {
        Regroup([HexValue(p[0]).value * 16 + HexValue(p[1]).value], FromHexSpaced(p[2..]).value, FromHexSpaced(w).value);
      }
    }
  }

  /** White space decodes to nothing, and nothing else does. */
  lemma {:induction false} OnlySpaceIsEmpty(w: string)
    ensures FromHexSpaced(w) == Some([]) <==> forall c :: c in w ==> IsSpace(c)
  {
    if w != "" {
      assert w[0] in w;
      assert forall c :: c in w <==> c == w[0] || c in w[1..];
      OnlySpaceIsEmpty(w[1..]);
    }
  }

  lemma {:induction false} TrailingSpaceIgnored(p: string, c: char)
    requires IsSpace(c)
    ensures FromHexSpaced(p + [c]) == FromHexSpaced(p)
  {
    var s := p + [c];
    if p == "" {
      assert s[1..] == "";
    } else if IsSpace(p[0]) {
      assert s[1..] == p[1..] + [c];
      TrailingSpaceIgnored(p[1..], c);
    } else if |p| >= 2 {
      assert s[2..] == p[2..] + [c];
      TrailingSpaceIgnored(p[2..], c);
    }
  }

  /** Two ways to cut one text into a 32-byte key and a signature differ by
      white space at the cut, so both decode to the same key and signature. */
  lemma {:induction false} CutsDecodeAlike(p: string, s: string, p': string, s': string)
    requires p + s == p' + s'
    requires FromHexSpaced(p).Some? && FromHexSpaced(p').Some?
    requires |FromHexSpaced(p).value| == |FromHexSpaced(p').value|
    ensures FromHexSpaced(p) == FromHexSpaced(p') && FromHexSpaced(s) == FromHexSpaced(s')
    ensures |p| < |p'| ==> IsSpace(p'[|p'| - 1]) && s != "" && IsSpace(s[0])
    ensures |p'| < |p| ==> IsSpace(p[|p| - 1]) && s' != "" && IsSpace(s'[0])
    decreases |p'| < |p|
  {
    if |p'| < |p| {
      CutsDecodeAlike(p', s', p, s);
    } else {
      var w := p'[|p|..];
      LongerCut(p, s, p', s');
      LaterCutDecodesAlike(p, w, s');
      if |p| < |p'| {
        assert w[0] in w && w[|w| - 1] in w;
        assert s[0] == w[0] && p'[|p'| - 1] == w[|w| - 1];
      }
    }
  }

  lemma {:induction false} LongerCut(p: string, s: string, p': string, s': string)
    requires p + s == p' + s' && |p| <= |p'|
    ensures p' == p + p'[|p|..] && s == p'[|p|..] + s'
  {
    var w := p'[|p|..];
    assert p == (p + s)[..|p|] && p' == (p' + s')[..|p'|];
    assert p == p'[..|p|];
    assert p' == p + w;
    Regroup(p, w, s');
    SplitEqual(p, p, s, w + s');
  }

  lemma {:induction false} LaterCutDecodesAlike(p: string, w: string, s: string)
    requires FromHexSpaced(p).Some? && FromHexSpaced(p + w).Some?
    requires |FromHexSpaced(p).value| == |FromHexSpaced(p + w).value|
    ensures FromHexSpaced(p + w) == FromHexSpaced(p) && FromHexSpaced(w + s) == FromHexSpaced(s)
    ensures forall c :: c in w ==> IsSpace(c)
  {
    SpacedHexConcat(p, w);
    var key, rest := FromHexSpaced(p).value, FromHexSpaced(w).value;
    assert rest == [];
    assert key + rest == key;
    OnlySpaceIsEmpty(w);
    SpacedHexConcat(w, s);
    if FromHexSpaced(s).Some? {
      assert rest + FromHexSpaced(s).value == FromHexSpaced(s).value;
    }
  }

  // ---- verification ----

  datatype Fault = BrokenLink | AlteredEntry | ForgedAuthor | BadSignature

  /** `Raised` stands for the exception a malformed key or signature causes. */
  datatype Verdict = Intact | Broken(n: int, fault: Fault) | Raised

  /** The verdict on a body under a link, given the hash its text should have
      and its decoded key and signature, which only signed entries need. */
  function Judged(c: Crypto, prev: string, b: Body, link: string, hash: string, expected: string, pub: Option<bytes>, sig: Option<bytes>): Verdict {
    if link != prev then Broken(b.n, BrokenLink)
    else if expected != hash then Broken(b.n, AlteredEntry)
    else if b.kind == GENESIS then Intact
    else if pub.None? then Raised
    else if c.idOf(pub.value) != b.author then Broken(b.n, ForgedAuthor)
    else if sig.None? then Raised
    else if !c.signedBy(pub.value, sig.value, Canon(b)) then Broken(b.n, BadSignature)
    else Intact
  }

  function Check(c: Crypto, prev: string, e: Entry): Verdict {
    Judged(c, prev, e.body, e.prev, e.hash, c.sha(TextOf(e)), FromHexSpaced(e.pub), FromHexSpaced(e.sig))
  }

  /** What an entry's `prev` must be. */
  function Link(seed: string, record: seq<Entry>, i: nat): string
    requires i <= |record|
  {
    if i == 0 then seed else record[i - 1].hash
  }

  /** Every entry passes a check against the hash before it. */
  ghost predicate Chained(ok: (string, Entry) -> bool, seed: string, record: seq<Entry>) {
    forall i {:trigger Link(seed, record, i)} :: 0 <= i < |record| ==> ok(Link(seed, record, i), record[i])
  }

  lemma {:induction false} ChainedStep(ok: (string, Entry) -> bool, seed: string, record: seq<Entry>, k: nat)
    requires k < |record|
    ensures Chained(ok, seed, record[..k + 1]) <==> Chained(ok, seed, record[..k]) && ok(Link(seed, record, k), record[k])
    ensures Chained(ok, seed, record) ==> Chained(ok, seed, record[..k])
  {
    var shorter, longer := record[..k], record[..k + 1];
    forall i | 0 <= i < k
      ensures ok(Link(seed, longer, i), longer[i]) == ok(Link(seed, record, i), record[i])
      ensures ok(Link(seed, shorter, i), shorter[i]) == ok(Link(seed, record, i), record[i])
    {
      LinkOfPrefix(seed, record, k, i);
      LinkOfPrefix(seed, record, k + 1, i);
    }
    LinkOfPrefix(seed, record, k + 1, k);
  }

  lemma {:induction false} LinkOfPrefix(seed: string, record: seq<Entry>, k: nat, i: nat)
    requires i <= k <= |record|
    ensures Link(seed, record[..k], i) == Link(seed, record, i)
    ensures i < k ==> record[..k][i] == record[i]
  {
  }

  function Checker(c: Crypto): (string, Entry) -> bool {
    (prev, e) => Check(c, prev, e) == Intact
  }

  /** Every entry is linked to the one before it, hashed and signed. */
  ghost predicate Accepted(c: Crypto, record: seq<Entry>) {
    Chained(Checker(c), c.sha(ORIGIN), record)
  }

  // ---- what acceptance means, entry by entry ----

  /** The entry carries the hash before it. */
  ghost predicate Linked(c: Crypto, record: seq<Entry>, i: nat)
    requires i < |record|
  {
    record[i].prev == if i == 0 then c.sha("Yu and Ai = You and I") else record[i - 1].hash
  }

  /** Its hash is the digest of link, canonical text, key and signature. */
  ghost predicate Sealed(c: Crypto, e: Entry) {
    e.hash == c.sha(e.prev + Canon(e.body) + e.pub + e.sig)
  }

  /** Its key decodes, and is its author's. */
  ghost predicate Owned(c: Crypto, e: Entry) {
    FromHexSpaced(e.pub).Some? && c.idOf(FromHexSpaced(e.pub).value) == e.body.author
  }

  /** Its signature decodes, and is one by its key of the canonical text. */
  ghost predicate SignedByKey(c: Crypto, e: Entry) {
    && FromHexSpaced(e.pub).Some? && FromHexSpaced(e.sig).Some?
    && c.signedBy(FromHexSpaced(e.pub).value, FromHexSpaced(e.sig).value, Canon(e.body))
  }

  ghost predicate Attested(c: Crypto, record: seq<Entry>, i: nat)
    requires i < |record|
  {
    Linked(c, record, i) && Sealed(c, record[i]) && (record[i].body.kind != "genesis" ==> Owned(c, record[i]) && SignedByKey(c, record[i]))
  }

  /** What a verdict says is wrong first: the link, the hash, then for signed
      entries the key's text, its owner, the signature's text, the signature. */
  predicate Says(v: Verdict, n: int, linked: bool, sealed: bool, genesis: bool, key: bool, owned: bool, sig: bool, signed: bool) {
    match v
    case Intact => linked && sealed && (genesis || (key && owned && sig && signed))
    case Raised => linked && sealed && !genesis && (!key || (owned && !sig))
    case Broken(m, BrokenLink) => m == n && !linked
    case Broken(m, AlteredEntry) => m == n && linked && !sealed
    case Broken(m, ForgedAuthor) => m == n && linked && sealed && !genesis && key && !owned
    case Broken(m, BadSignature) => m == n && linked && sealed && !genesis && key && owned && sig && !signed
  }

  /** The verdict is the right one for an entry. */
  ghost predicate Explains(c: Crypto, record: seq<Entry>, i: nat, v: Verdict)
    requires i < |record|
  {
    var e := record[i];
    Says(v, e.body.n, Linked(c, record, i), Sealed(c, e), e.body.kind == "genesis",
         FromHexSpaced(e.pub).Some?, Owned(c, e), FromHexSpaced(e.sig).Some?, SignedByKey(c, e))
  }

  lemma {:induction false} JudgedSays(c: Crypto, prev: string, b: Body, link: string, hash: string, expected: string,
                                      pub: Option<bytes>, sig: Option<bytes>, v: Verdict)
    ensures Judged(c, prev, b, link, hash, expected, pub, sig) == v <==>
            Says(v, b.n, link == prev, hash == expected, b.kind == GENESIS, pub.Some?, pub.Some? && c.idOf(pub.value) == b.author,
                 sig.Some?, pub.Some? && sig.Some? && c.signedBy(pub.value, sig.value, Canon(b)))
  {
  }

  /** Every verdict on an entry has the one reason it stands for. */
  lemma {:induction false} CheckExplained(c: Crypto, record: seq<Entry>, i: nat, v: Verdict)
    requires i < |record|
    ensures v == Check(c, Link(c.sha(ORIGIN), record, i), record[i]) <==> Explains(c, record, i, v)
    ensures Explains(c, record, i, Intact) <==> Attested(c, record, i)
  {
    var e := record[i];
    JudgedSays(c, Link(c.sha(ORIGIN), record, i), e.body, e.prev, e.hash, c.sha(TextOf(e)), FromHexSpaced(e.pub), FromHexSpaced(e.sig), v);
  }

  /** A record is accepted if and only if every entry is linked and hashed, and
      every entry but those of kind genesis is signed by a key that is its
      author's. */
  lemma {:induction false} AcceptedExactly(c: Crypto, record: seq<Entry>)
    ensures Accepted(c, record) <==> forall i :: 0 <= i < |record| ==> Attested(c, record, i)
  {
    forall i | 0 <= i < |record|
      ensures Attested(c, record, i) <==> Checker(c)(Link(c.sha(ORIGIN), record, i), record[i])
    {
      CheckExplained(c, record, i, Intact);
    }
    if Accepted(c, record) {
      forall i | 0 <= i < |record|
        ensures Attested(c, record, i)
      {
        assert Checker(c)(Link(c.sha(ORIGIN), record, i), record[i]);
      }
    }
  }

  /** The record is accepted up to its first faulty entry, and the verdict is
      the right one for that. */
  ghost predicate FailsFirstAt(c: Crypto, record: seq<Entry>, k: nat, v: Verdict) {
    && k < |record| && (forall i :: 0 <= i < k ==> Attested(c, record, i)) && !Attested(c, record, k)
    && Explains(c, record, k, v)
    && Accepted(c, record[..k]) && v == Check(c, Link(c.sha(ORIGIN), record, k), record[k])
  }

  lemma {:induction false} FirstFault(c: Crypto, record: seq<Entry>, k: nat, v: Verdict)
    requires k < |record| && Accepted(c, record[..k]) && v == Check(c, Link(c.sha(ORIGIN), record, k), record[k]) && v != Intact
    ensures FailsFirstAt(c, record, k, v)
  {
    CheckExplained(c, record, k, v);
    CheckExplained(c, record, k, Intact);
    AcceptedExactly(c, record[..k]);
    forall i | 0 <= i < k
      ensures Attested(c, record, i)
    {
      assert Attested(c, record[..k], i);
    }
  }

  /** Walks the chain: intact exactly when every entry is linked, hashed, owned
      and signed, otherwise the verdict on the first entry that fails. */
  method Verify(c: Crypto, record: seq<Entry>) returns (v: Verdict)
    ensures v == Intact <==> Accepted(c, record)
    ensures v == Intact ==> forall i :: 0 <= i < |record| ==> Attested(c, record, i)
    ensures v != Intact ==> exists k :: FailsFirstAt(c, record, k, v)
  {
    ghost var ok, seed := Checker(c), c.sha(ORIGIN);
    var prev := c.sha(ORIGIN);
    for k := 0 to |record|
      invariant prev == Link(seed, record, k)
      invariant Chained(ok, seed, record[..k])
    {
      ChainedStep(ok, seed, record, k);
      v := VerifyEntry(c, prev, record[k]);
      if v != Intact {
        FirstFault(c, record, k, v);
        return;
      }
      prev := record[k].hash;
    }
    assert record[..|record|] == record;
    AcceptedExactly(c, record);
    v := Intact;
  }

  method VerifyEntry(c: Crypto, prev: string, e: Entry) returns (v: Verdict)
    ensures v == Check(c, prev, e)
  {
    if e.prev != prev { return Broken(e.body.n, BrokenLink); }
    if c.sha(Hashed(prev, e.body, e.pub, e.sig)) != e.hash { return Broken(e.body.n, AlteredEntry); }
    if e.body.kind != GENESIS {
      var pub := FromHexSpaced(e.pub);
      if pub.None? { return Raised; }
      if c.idOf(pub.value) != e.body.author { return Broken(e.body.n, ForgedAuthor); }
      var sig := FromHexSpaced(e.sig);
      if sig.None? { return Raised; }
      if !c.signedBy(pub.value, sig.value, Canon(e.body)) { return Broken(e.body.n, BadSignature); }
    }
    return Intact;
  }

  // ---- what the last hash binds ----

  /** The texts hashed in a record, its seed included. */
  ghost function Texts(origin: string, text: Entry -> string, record: seq<Entry>): set<string> {
    {origin} + set e | e in record :: text(e)
  }

  /** Two different hashed texts, one of each record, share a digest. */
  ghost predicate Clash(sha: string -> HexDigest, a: set<string>, b: set<string>) {
    exists p, q :: p in a && q in b && p != q && sha(p) == sha(q)
  }

  ghost predicate Collision(c: Crypto, a: seq<Entry>, b: seq<Entry>) {
    Clash(c.sha, Texts(ORIGIN, TextOf, a), Texts(ORIGIN, TextOf, b))
  }

  ghost predicate Alike(text: Entry -> string, a: seq<Entry>, b: seq<Entry>) {
    |a| == |b| && forall i :: 0 <= i < |a| ==> text(a[i]) == text(b[i])
  }

  ghost predicate SameTexts(a: seq<Entry>, b: seq<Entry>) {
    Alike(TextOf, a, b)
  }

  /** Every entry carries the hash before it and the digest of its own text,
      which is not the seed's text. */
  ghost predicate Digested(sha: string -> HexDigest, origin: string, text: Entry -> string, record: seq<Entry>) {
    forall i :: 0 <= i < |record| ==>
      && record[i].prev == Link(sha(origin), record, i) && |record[i].prev| == 64
      && record[i].hash == sha(text(record[i])) && text(record[i]) != origin
  }

  /** A text spells out the link of its entry. */
  ghost predicate LinkReadable(text: Entry -> string, a: seq<Entry>, b: seq<Entry>) {
    forall i, j :: 0 <= i < |a| && 0 <= j < |b| && text(a[i]) == text(b[j]) ==> a[i].prev == b[j].prev
  }

  lemma {:induction false} Shorter(sha: string -> HexDigest, origin: string, text: Entry -> string, a: seq<Entry>)
    requires Digested(sha, origin, text, a) && |a| > 1
    ensures var s := a[..|a| - 1]; s != [] && Digested(sha, origin, text, s) && s[|s| - 1].hash == a[|a| - 1].prev
  {
    var s := a[..|a| - 1];
    forall i | 0 <= i < |s|
      ensures s[i] == a[i] && Link(sha(origin), s, i) == Link(sha(origin), a, i)
    {
    }
  }

  lemma {:induction false} TextsWiden(origin: string, text: Entry -> string, record: seq<Entry>, m: nat)
    requires m <= |record|
    ensures Texts(origin, text, record[..m]) <= Texts(origin, text, record)
    ensures forall i :: 0 <= i < |record| ==> text(record[i]) in Texts(origin, text, record)
  {
  }

  lemma {:induction false} ClashWiden(sha: string -> HexDigest, a: set<string>, b: set<string>, wideA: set<string>, wideB: set<string>)
    requires a <= wideA && b <= wideB && Clash(sha, a, b)
    ensures Clash(sha, wideA, wideB)
  {
    var p, q :| p in a && q in b && p != q && sha(p) == sha(q);
    assert p in wideA && q in wideB;
  }

  lemma {:induction false} AlikeStep(text: Entry -> string, a: seq<Entry>, b: seq<Entry>)
    requires |a| > 0 && |b| > 0 && Alike(text, a[..|a| - 1], b[..|b| - 1])
    requires text(a[|a| - 1]) == text(b[|b| - 1])
    ensures Alike(text, a, b)
  {
    var m := |a| - 1;
    forall i | 0 <= i < m
      ensures text(a[i]) == text(b[i])
    {
      assert a[..m][i] == a[i] && b[..m][i] == b[i];
    }
  }

  lemma {:induction false} LastHashBinds(sha: string -> HexDigest, origin: string, text: Entry -> string, a: seq<Entry>, b: seq<Entry>)
    requires Digested(sha, origin, text, a) && Digested(sha, origin, text, b) && LinkReadable(text, a, b) && a != [] && b != []
    requires a[|a| - 1].hash == b[|b| - 1].hash
    ensures Alike(text, a, b) || Clash(sha, Texts(origin, text, a), Texts(origin, text, b))
    decreases |a|
  {
    var m, n := |a| - 1, |b| - 1;
    if text(a[m]) != text(b[n]) {
      LastClash(sha, origin, text, a, b);
    } else if m == 0 && n == 0 {
    } else if n == 0 {
      SeedClash(sha, origin, text, a, b);
    } else if m == 0 {
      SeedClash(sha, origin, text, b, a);
    } else {
      Shorter(sha, origin, text, a);
      Shorter(sha, origin, text, b);
      ShorterReadable(text, a, b);
      LastHashBinds(sha, origin, text, a[..m], b[..n]);
      BindOneMore(sha, origin, text, a, b);
    }
  }

  lemma {:induction false} LastClash(sha: string -> HexDigest, origin: string, text: Entry -> string, a: seq<Entry>, b: seq<Entry>)
    requires Digested(sha, origin, text, a) && Digested(sha, origin, text, b) && a != [] && b != []
    requires a[|a| - 1].hash == b[|b| - 1].hash && text(a[|a| - 1]) != text(b[|b| - 1])
    ensures Clash(sha, Texts(origin, text, a), Texts(origin, text, b))
  {
    var p, q := text(a[|a| - 1]), text(b[|b| - 1]);
    assert p in Texts(origin, text, a) && q in Texts(origin, text, b);
  }

  lemma {:induction false} ShorterReadable(text: Entry -> string, a: seq<Entry>, b: seq<Entry>)
    requires LinkReadable(text, a, b) && |a| > 1 && |b| > 1
    ensures LinkReadable(text, a[..|a| - 1], b[..|b| - 1])
    ensures text(a[|a| - 1]) == text(b[|b| - 1]) ==> a[|a| - 1].prev == b[|b| - 1].prev
  {
  }

  lemma {:induction false} BindOneMore(sha: string -> HexDigest, origin: string, text: Entry -> string, a: seq<Entry>, b: seq<Entry>)
    requires |a| > 0 && |b| > 0 && text(a[|a| - 1]) == text(b[|b| - 1])
    requires var m, n := |a| - 1, |b| - 1;
      Alike(text, a[..m], b[..n]) || Clash(sha, Texts(origin, text, a[..m]), Texts(origin, text, b[..n]))
    ensures Alike(text, a, b) || Clash(sha, Texts(origin, text, a), Texts(origin, text, b))
  {
    var m, n := |a| - 1, |b| - 1;
    if Alike(text, a[..m], b[..n]) {
      AlikeStep(text, a, b);
    } else {
      TextsWiden(origin, text, a, m);
      TextsWiden(origin, text, b, n);
      ClashWiden(sha, Texts(origin, text, a[..m]), Texts(origin, text, b[..n]), Texts(origin, text, a), Texts(origin, text, b));
    }
  }

  /** A longer record's entry whose hash is the seed clashes with the seed's own
      text. */
  lemma {:induction false} SeedClash(sha: string -> HexDigest, origin: string, text: Entry -> string, a: seq<Entry>, b: seq<Entry>)
    requires Digested(sha, origin, text, a) && Digested(sha, origin, text, b) && |a| > 1 && |b| == 1
    requires a[|a| - 1].prev == b[0].prev
    ensures Clash(sha, Texts(origin, text, a), Texts(origin, text, b)) && Clash(sha, Texts(origin, text, b), Texts(origin, text, a))
  {
    var p := text(a[|a| - 2]);
    assert Link(sha(origin), a, |a| - 1) == sha(p);
    assert p in Texts(origin, text, a) && origin in Texts(origin, text, b);
  }

  lemma {:induction false} CheckMeans(c: Crypto, prev: string, e: Entry)
    requires Check(c, prev, e) == Intact
    ensures e.prev == prev && e.hash == c.sha(TextOf(e))
    ensures e.body.kind != GENESIS ==>
      && FromHexSpaced(e.pub).Some? && FromHexSpaced(e.sig).Some?
      && c.signedBy(FromHexSpaced(e.pub).value, FromHexSpaced(e.sig).value, Canon(e.body))
  {
  }

  lemma {:induction false} AcceptedDigested(c: Crypto, record: seq<Entry>)
    requires Accepted(c, record)
    ensures Digested(c.sha, ORIGIN, TextOf, record)
  {
    var seed := c.sha(ORIGIN);
    forall i | 0 <= i < |record|
      ensures record[i].prev == Link(seed, record, i) && |record[i].prev| == 64
      ensures record[i].hash == c.sha(TextOf(record[i])) && TextOf(record[i]) != ORIGIN
    {
      assert Checker(c)(Link(seed, record, i), record[i]);
      CheckMeans(c, Link(seed, record, i), record[i]);
      if i > 0 {
        assert Checker(c)(Link(seed, record, i - 1), record[i - 1]);
        CheckMeans(c, Link(seed, record, i - 1), record[i - 1]);
      }
      LongerThanOrigin(record[i]);
    }
  }

  lemma {:induction false} LongerThanOrigin(e: Entry)
    requires |e.prev| == 64
    ensures TextOf(e) != ORIGIN
  {
    assert |TextOf(e)| >= 64 > |ORIGIN|;
  }

  /** Two accepted records with the same last hash hash the same texts, entry by
      entry, or a collision is at hand. */
  lemma {:induction false} LastHashBindsTexts(c: Crypto, a: seq<Entry>, b: seq<Entry>)
    requires Accepted(c, a) && Accepted(c, b) && a != [] && b != []
    requires a[|a| - 1].hash == b[|b| - 1].hash
    ensures SameTexts(a, b) || Collision(c, a, b)
  {
    AcceptedDigested(c, a);
    AcceptedDigested(c, b);
    forall i, j | 0 <= i < |a| && 0 <= j < |b| && TextOf(a[i]) == TextOf(b[j])
      ensures a[i].prev == b[j].prev
    {
      HashedInjective(a[i], b[j]);
    }
    LastHashBinds(c.sha, ORIGIN, TextOf, a, b);
  }

  /** Entries that agree in all but the cut between key and signature, and in
      the decoded key and signature if they are signed. */
  ghost predicate SameUpToCut(e: Entry, f: Entry) {
    && e.body == f.body && e.prev == f.prev && e.hash == f.hash && e.pub + e.sig == f.pub + f.sig
    && (e.body.kind != GENESIS ==> FromHexSpaced(e.pub) == FromHexSpaced(f.pub) && FromHexSpaced(e.sig) == FromHexSpaced(f.sig))
  }

  lemma {:induction false} CutFixed(e: Entry, f: Entry)
    requires Uncuttable(e) && SameUpToCut(e, f)
    requires e.body.kind != GENESIS ==> FromHexSpaced(e.pub).Some?
    ensures ReadAlike(e, f)
  {
    if e.body.kind == GENESIS {
      assert |e.pub + e.sig| == |f.pub| + |f.sig|;
    } else {
      CutsDecodeAlike(e.pub, e.sig, f.pub, f.sig);
    }
    SplitEqual(e.pub, f.pub, e.sig, f.sig);
  }

  lemma {:induction false} CheckedSameUpToCut(c: Crypto, prev: string, prev': string, e: Entry, f: Entry)
    requires KeySized(c) && Check(c, prev, e) == Intact && Check(c, prev', f) == Intact
    requires |prev| == |prev'| && TextOf(e) == TextOf(f)
    ensures SameUpToCut(e, f)
    ensures Uncuttable(e) ==> ReadAlike(e, f)
  {
    CheckMeans(c, prev, e);
    CheckMeans(c, prev', f);
    HashedInjective(e, f);
    if e.body.kind != GENESIS {
      CutsDecodeAlike(e.pub, e.sig, f.pub, f.sig);
    }
    if Uncuttable(e) {
      CutFixed(e, f);
    }
  }

  lemma {:induction false} EntriesSameUpToCut(c: Crypto, a: seq<Entry>, b: seq<Entry>, i: nat)
    requires KeySized(c) && Accepted(c, a) && Accepted(c, b) && SameTexts(a, b) && i < |a|
    ensures SameUpToCut(a[i], b[i])
    ensures Uncuttable(a[i]) ==> ReadAlike(a[i], b[i])
  {
    var seed := c.sha(ORIGIN);
    AcceptedDigested(c, a);
    AcceptedDigested(c, b);
    assert Checker(c)(Link(seed, a, i), a[i]) && Checker(c)(Link(seed, b, i), b[i]);
    CheckedSameUpToCut(c, Link(seed, a, i), Link(seed, b, i), a[i], b[i]);
  }

  /** Tamper evidence: the last hash of an accepted record determines every
      entry's words, author, links, hash and decoded key and signature. It does
      not bind members that nothing reads. */
  lemma {:induction false} LastHashBindsRecord(c: Crypto, a: seq<Entry>, b: seq<Entry>)
    requires KeySized(c) && Accepted(c, a) && Accepted(c, b) && a != [] && b != []
    requires a[|a| - 1].hash == b[|b| - 1].hash
    ensures Collision(c, a, b) || (|a| == |b| && forall i :: 0 <= i < |a| ==> SameUpToCut(a[i], b[i]))
  {
    LastHashBindsTexts(c, a, b);
    if SameTexts(a, b) {
      forall i | 0 <= i < |a|
        ensures SameUpToCut(a[i], b[i])
      {
        EntriesSameUpToCut(c, a, b, i);
      }
    }
  }

  // ---- when the record itself is determined ----

  /** The cut between key and signature cannot be moved: a genesis entry has
      neither, any other has no white space at the cut. */
  predicate Uncuttable(e: Entry) {
    if e.body.kind == GENESIS then e.pub == "" && e.sig == ""
    else (e.pub == "" || !IsSpace(e.pub[|e.pub| - 1])) && (e.sig == "" || !IsSpace(e.sig[0]))
  }

  ghost predicate Unambiguous(record: seq<Entry>) {
    forall e :: e in record ==> Uncuttable(e)
  }

  /** Where the cut moves to in an entry whose cut can be moved. */
  function NewCut(e: Entry): (n: nat)
    requires !Uncuttable(e)
    ensures n <= |e.pub + e.sig| && n != |e.pub|
  {
    if e.body.kind == GENESIS then (if e.pub == "" then |e.sig| else 0)
    else if e.pub != "" && IsSpace(e.pub[|e.pub| - 1]) then |e.pub| - 1
    else |e.pub| + 1
  }

  function Recut(e: Entry): (f: Entry)
    requires !Uncuttable(e)
    ensures f.pub != e.pub && f.body == e.body && f.prev == e.prev && f.hash == e.hash && f.pub + f.sig == e.pub + e.sig
  {
    var n := NewCut(e);
    var keys := e.pub + e.sig;
    assert |keys[..n]| == n;
    e.(pub := keys[..n], sig := keys[n..])
  }

  lemma {:induction false} RecutDecodes(e: Entry)
    requires !Uncuttable(e) && e.body.kind != GENESIS
    ensures FromHexSpaced(Recut(e).pub) == FromHexSpaced(e.pub)
    ensures FromHexSpaced(Recut(e).sig) == FromHexSpaced(e.sig)
  {
    var f := Recut(e);
    if e.pub != "" && IsSpace(e.pub[|e.pub| - 1]) {
      var last := e.pub[|e.pub| - 1];
      assert e.pub == f.pub + [last];
      assert f.sig == [last] + e.sig;
      TrailingSpaceIgnored(f.pub, last);
      assert f.sig[1..] == e.sig;
    } else {
      assert f.pub == e.pub + [e.sig[0]];
      assert f.sig == e.sig[1..];
      TrailingSpaceIgnored(e.pub, e.sig[0]);
    }
  }

  lemma {:induction false} SameKeysSameText(e: Entry, f: Entry)
    requires f.body == e.body && f.prev == e.prev && f.pub + f.sig == e.pub + e.sig
    ensures TextOf(f) == TextOf(e)
  {
    Regroup(e.prev + Canon(e.body), e.pub, e.sig);
    Regroup(f.prev + Canon(f.body), f.pub, f.sig);
  }

  lemma {:induction false} RecutAccepted(c: Crypto, prev: string, e: Entry)
    requires !Uncuttable(e) && Check(c, prev, e) == Intact
    ensures Check(c, prev, Recut(e)) == Intact && TextOf(Recut(e)) == TextOf(e)
  {
    var f := Recut(e);
    SameKeysSameText(e, f);
    if e.body.kind != GENESIS {
      RecutDecodes(e);
    }
    SameCheck(c, prev, e, f);
  }

  /** A check reads the body, the links, the hashed text and what is decoded. */
  lemma {:induction false} SameCheck(c: Crypto, prev: string, e: Entry, f: Entry)
    requires SameUpToCut(e, f) && TextOf(e) == TextOf(f)
    ensures Check(c, prev, e) == Check(c, prev, f)
  {
  }

  /** Records that every reader takes for the same. */
  ghost predicate SameReading(a: seq<Entry>, b: seq<Entry>) {
    |a| == |b| && forall i :: 0 <= i < |a| ==> ReadAlike(a[i], b[i])
  }

  lemma {:induction false} UnambiguousDetermines(c: Crypto, a: seq<Entry>, b: seq<Entry>)
    requires KeySized(c) && Accepted(c, a) && Accepted(c, b) && SameTexts(a, b) && Unambiguous(a)
    ensures SameReading(a, b)
  {
    forall i | 0 <= i < |a|
      ensures ReadAlike(a[i], b[i])
    {
      assert a[i] in a;
      EntriesSameUpToCut(c, a, b, i);
    }
  }

  lemma {:induction false} RecutChained(ok: (string, Entry) -> bool, text: Entry -> string, seed: string, a: seq<Entry>, k: nat, f: Entry)
    requires Chained(ok, seed, a) && k < |a| && f.hash == a[k].hash
    requires ok(Link(seed, a, k), f) && text(f) == text(a[k])
    ensures Chained(ok, seed, a[k := f]) && Alike(text, a, a[k := f])
  {
    var b := a[k := f];
    assert forall i :: 0 <= i < |b| ==> Link(seed, b, i) == Link(seed, a, i);
  }

  lemma {:induction false} Replaced(c: Crypto, a: seq<Entry>, k: nat, f: Entry)
    requires Accepted(c, a) && k < |a|
    requires Check(c, Link(c.sha(ORIGIN), a, k), a[k]) == Intact ==>
               Check(c, Link(c.sha(ORIGIN), a, k), f) == Intact && TextOf(f) == TextOf(a[k])
    requires f.hash == a[k].hash
    ensures Accepted(c, a[k := f]) && SameTexts(a, a[k := f])
  {
    assert Checker(c)(Link(c.sha(ORIGIN), a, k), a[k]);
    RecutChained(Checker(c), TextOf, c.sha(ORIGIN), a, k, f);
  }

  lemma {:induction false} ReplacedReading(a: seq<Entry>, k: nat, f: Entry)
    requires k < |a|
    ensures SameReading(a, a[k := f]) <==> ReadAlike(a[k], f)
    ensures f != a[k] ==> a[k := f] != a
  {
    assert a[k := f][k] == f;
  }

  /** An ambiguous record has another reading beside it with every hash the same. */
  lemma {:induction false} AmbiguousHasTwin(c: Crypto, a: seq<Entry>) returns (b: seq<Entry>)
    requires Accepted(c, a) && !Unambiguous(a)
    ensures Accepted(c, b) && SameTexts(a, b) && !SameReading(a, b)
  {
    var k :| 0 <= k < |a| && !Uncuttable(a[k]);
    b := RecutTwin(c, a, k);
  }

  lemma {:induction false} RecutTwin(c: Crypto, a: seq<Entry>, k: nat) returns (b: seq<Entry>)
    requires Accepted(c, a) && k < |a| && !Uncuttable(a[k])
    ensures Accepted(c, b) && SameTexts(a, b) && !SameReading(a, b)
  {
    var f := Moved(c, Link(c.sha(ORIGIN), a, k), a[k]);
    b := a[k := f];
    ReplacedReading(a, k, f);
    Replaced(c, a, k, f);
  }

  /** The recut entry, known by what it does. */
  lemma {:induction false} Moved(c: Crypto, prev: string, e: Entry) returns (f: Entry)
    requires !Uncuttable(e)
    ensures f.hash == e.hash && !ReadAlike(e, f)
    ensures Check(c, prev, e) == Intact ==> Check(c, prev, f) == Intact && TextOf(f) == TextOf(e)
  {
    f := Recut(e);
    if Check(c, prev, e) == Intact {
      RecutAccepted(c, prev, e);
    }
  }

  /** Exactly the unambiguous records have one reading for their hashed texts.
      The hash does not cover the cut, and white space or an unsigned entry
      anywhere lets another accepted record, with every hash the same, be read
      differently. */
  lemma {:induction false} DeterminedExactly(c: Crypto, a: seq<Entry>)
    requires KeySized(c) && Accepted(c, a)
    ensures Unambiguous(a) <==> forall b :: Accepted(c, b) && SameTexts(a, b) ==> SameReading(a, b)
  {
    if Unambiguous(a) {
      forall b | Accepted(c, b) && SameTexts(a, b)
        ensures SameReading(a, b)
      {
        UnambiguousDetermines(c, a, b);
      }
    } else {
      var b := AmbiguousHasTwin(c, a);
    }
  }

  /** For an unambiguous record the last hash determines all that is read. */
  lemma {:induction false} LastHashDetermines(c: Crypto, a: seq<Entry>, b: seq<Entry>)
    requires KeySized(c) && Accepted(c, a) && Accepted(c, b) && a != [] && b != [] && Unambiguous(a)
    requires a[|a| - 1].hash == b[|b| - 1].hash
    ensures SameReading(a, b) || Collision(c, a, b)
  {
    LastHashBindsTexts(c, a, b);
    if SameTexts(a, b) {
      UnambiguousDetermines(c, a, b);
    }
  }

  // ---- members that nothing reads ----

  function Annotated(e: Entry): (f: Entry)
    ensures f != e && ReadAlike(e, f)
  {
    var other := map["note" := "x"];
    assert "note" in other;
    e.(extra := if e.extra == map[] then other else map[])
  }

  lemma {:induction false} AnnotatedPasses(c: Crypto, prev: string, e: Entry)
    requires Check(c, prev, e) == Intact
    ensures Check(c, prev, Annotated(e)) == Intact && TextOf(Annotated(e)) == TextOf(e)
  {
    SameKeysSameText(e, Annotated(e));
    SameCheck(c, prev, e, Annotated(e));
  }

  /** No loaded record is determined by its hashes: a member nothing reads can
      be added to the last line of any of them. Only the empty one is. */
  lemma {:induction false} UnreadMembersUnbound(c: Crypto, a: seq<Entry>)
    requires Accepted(c, a)
    ensures a == [] <==> forall b :: Accepted(c, b) && SameTexts(a, b) ==> b == a
    ensures a != [] ==> exists b :: Accepted(c, b) && SameTexts(a, b) && SameReading(a, b) && b != a
  {
    if a != [] {
      var b := AnnotatedTwin(c, a);
    }
  }

  lemma {:induction false} AnnotatedTwin(c: Crypto, a: seq<Entry>) returns (b: seq<Entry>)
    requires Accepted(c, a) && a != []
    ensures Accepted(c, b) && SameTexts(a, b) && SameReading(a, b) && b != a
  {
    var k := |a| - 1;
    var f := Annotated(a[k]);
    b := a[k := f];
    ReplacedReading(a, k, f);
    if Check(c, Link(c.sha(ORIGIN), a, k), a[k]) == Intact {
      AnnotatedPasses(c, Link(c.sha(ORIGIN), a, k), a[k]);
    }
    Replaced(c, a, k, f);
  }

  /** An accepted one-entry record with its key text moved into the signature:
      an entry of kind "genesis" needs neither. */
  lemma {:induction false} MovableKeyWitness(c: Crypto, b: Body) returns (left: Entry, right: Entry)
    requires b.kind == GENESIS
    ensures Accepted(c, [left]) && Accepted(c, [right]) && left.hash == right.hash
    ensures left.pub == "aa" && right.pub == "" && left.body == right.body == b
  {
    var seed := c.sha(ORIGIN);
    left := Entry(b, seed, "aa", "", c.sha(Hashed(seed, b, "aa", "")), map[]);
    right := left.(pub := "", sig := "aa");
    SameKeysSameText(left, right);
    assert Check(c, seed, left) == Intact && Check(c, seed, right) == Intact;
    assert Checker(c)(Link(seed, [left], 0), left) && Checker(c)(Link(seed, [right], 0), right);
  }
}
