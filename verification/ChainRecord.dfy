/** The record class over the hash chain: its four primitives, its file, and
    what every run of them keeps. */
module ChainRecord {
  import opened Bytes
  import opened HashChain
  import opened Text

  /** Whoever holds a key; `sign` is the Ed25519 signature of a text. */
  datatype Being = Being(name: string, pub: bytes, id: string, sign: string -> bytes)

  const DECLARATION := "I am truth."

  /** The id belongs to the key, and what the key signs verifies against it. */
  ghost predicate Genuine(c: Crypto, b: Being) {
    b.id == c.idOf(b.pub) && forall m :: c.signedBy(b.pub, b.sign(m), m)
  }

  function Made(c: Crypto, body: Body, prev: string, pub: bytes, sig: bytes): Entry {
    Entry(body, prev, ToHex(pub), ToHex(sig), c.sha(Hashed(prev, body, ToHex(pub), ToHex(sig))), map[])
  }

  const KEEPER := "zerone"
  const FIRST_WORDS := "ZERONE begins. Truth is. It starts from each being."

  /** The seed itself: entry zero, signed by nobody. */
  function GenesisEntry(c: Crypto): Entry {
    Made(c, Body(0, GENESIS, KEEPER, FIRST_WORDS, [], 0, None), c.sha(ORIGIN), [], [])
  }

  /** The next entry of a record, signed by its author. */
  function Signed(c: Crypto, record: seq<Entry>, being: Being, kind: string, content: string, refs: seq<int>, supersedes: Option<int>, now: int): Entry
    requires record != []
  {
    var body := Body(|record|, kind, being.id, content, refs, now, supersedes);
    Made(c, body, record[|record| - 1].hash, being.pub, being.sign(Canon(body)))
  }

  /** The record after one more entry by a being: numbered by its place, linked
      to the last hash, with key and signature of the being over its canonical
      text, and hashed. */
  ghost predicate Continues(c: Crypto, before: seq<Entry>, after: seq<Entry>, being: Being,
                            kind: string, content: string, refs: seq<int>, supersedes: Option<int>, now: int) {
    && before != [] && |after| == |before| + 1 && after[..|before|] == before
    && var e := after[|before|];
    && e.body == Body(|before|, kind, being.id, content, refs, now, supersedes)
    && e.prev == before[|before| - 1].hash && e.extra == map[]
    && FromHexSpaced(e.pub) == Some(being.pub) && FromHexSpaced(e.sig) == Some(being.sign(Canon(e.body)))
    && e.hash == c.sha(e.prev + Canon(e.body) + e.pub + e.sig)
  }

  lemma {:induction false} SignedContinues(c: Crypto, record: seq<Entry>, being: Being,
                                           kind: string, content: string, refs: seq<int>, supersedes: Option<int>, now: int)
    requires record != []
    ensures Continues(c, record, record + [Signed(c, record, being, kind, content, refs, supersedes, now)], being, kind, content, refs, supersedes, now)
  {
    var e := Signed(c, record, being, kind, content, refs, supersedes, now);
    SpacedHexRoundTrip(being.pub);
    SpacedHexRoundTrip(being.sign(Canon(e.body)));
    assert (record + [e])[..|record|] == record;
  }

  predicate Declares(e: Entry, id: string) {
    e.body.kind == BEING && e.body.author == id
  }

  /** The first entry by which a being entered, or the length of the record. */
  function EnteredAt(record: seq<Entry>, id: string): (k: nat)
    ensures k <= |record|
    ensures k < |record| ==> Declares(record[k], id)
    ensures forall i :: 0 <= i < k ==> !Declares(record[i], id)
  {
    if record == [] then 0
    else
      var k := EnteredAt(record[..|record| - 1], id);
      if k < |record| - 1 || Declares(record[k], id) then k else |record|
  }

  /** The text before the first ": ". */
  function BeforeColon(s: string): string {
    if |s| < 2 then s
    else if s[0] == ':' && s[1] == ' ' then ""
    else [s[0]] + BeforeColon(s[1..])
  }

  /** Beings found in a record, opened by name from the key file. */
  function BeingsIn(record: seq<Entry>, open: string -> Being): map<string, Being> {
    if record == [] then map[]
    else
      var e := record[|record| - 1];
      var before := BeingsIn(record[..|record| - 1], open);
      if e.body.kind != BEING then before
      else
        var b := open(BeforeColon(e.body.content));
        before[b.id := b]
  }

  /** A declaration's text names its being up to the first colon and space. */
  lemma {:induction false} NameOfDeclaration(name: string, rest: string)
    requires forall i :: 0 <= i < |name| - 1 ==> !(name[i] == ':' && name[i + 1] == ' ')
    ensures BeforeColon(name + ": " + rest) == name
  {
    var s := name + ": " + rest;
    if name == "" {
      assert s[0] == ':' && s[1] == ' ';
    } else {
      assert s[0] == name[0] && s[1] == if |name| > 1 then name[1] else ':';
      assert s[1..] == name[1..] + ": " + rest;
      NameOfDeclaration(name[1..], rest);
      assert name == [name[0]] + name[1..];
    }
  }

  /** The beings of a record are those whose names its declarations spell. */
  lemma {:induction false} BeingsInExactly(record: seq<Entry>, open: string -> Being, id: string)
    ensures id in BeingsIn(record, open) <==> exists e :: e in record && e.body.kind == "being" && open(BeforeColon(e.body.content)).id == id
    ensures id in BeingsIn(record, open) ==>
            exists e :: e in record && e.body.kind == "being" && open(BeforeColon(e.body.content)) == BeingsIn(record, open)[id]
  {
    if record != [] {
      var init, e := record[..|record| - 1], record[|record| - 1];
      assert record == init + [e];
      BeingsInExactly(init, open, id);
      assert e in record;
    }
  }

  /** A record in memory, how much of it is on disk, and the file. */
  datatype Session = Session(record: seq<Entry>, persisted: nat, file: Option<seq<Entry>>)

  function OnDisk(s: Session): seq<Entry> {
    if s.file == None then [] else s.file.value
  }

  function Saved(s: Session): Session {
    if |s.record| <= s.persisted then s
    else Session(s.record, |s.record|, Some(OnDisk(s) + s.record[s.persisted..]))
  }

  // ---- operations ----

  /** Referencing is reasoning with references. */
  datatype Op =
    | Declare(being: Being, now: int)
    | Reason(being: Being, content: string, refs: seq<int>, now: int)
    | Revise(being: Being, oldN: int, content: string, now: int)
    | Save
    | Load

  /** What an operation does to a session, given its record. */
  datatype Effect = Nothing | Append(e: Entry) | Write | Reopen

  function EffectOf(c: Crypto, record: seq<Entry>, op: Op): Effect {
    match op
    case Save => Write
    case Load => Reopen
    case Declare(being, now) =>
      if record == [] || EnteredAt(record, being.id) < |record| then Nothing else Append(Signed(c, record, being, BEING, being.name + ": " + DECLARATION, [], None, now))
    case Reason(being, content, refs, now) =>
      if record == [] then Nothing else Append(Signed(c, record, being, REASONING, content, refs, None, now))
    case Revise(being, oldN, content, now) =>
      if record == [] then Nothing else Append(Signed(c, record, being, REASONING, content, [oldN], Some(oldN), now))
  }

  function After(record: seq<Entry>, f: Effect): seq<Entry> {
    if f.Append? then record + [f.e] else record
  }

  function Reopened(first: Entry, file: Option<seq<Entry>>): Session {
    if file == None then Session([first], 0, None) else Session(file.value, |file.value|, file)
  }

  function Apply(first: Entry, s: Session, f: Effect): Session {
    match f
    case Nothing => s
    case Append(e) => s.(record := After(s.record, f))
    case Write => Saved(s)
    case Reopen => Reopened(first, s.file)
  }

  /** Chain files by path, one entry a line; an absent path has no file. */
  class Files {
    var lines: map<string, seq<Entry>>

    constructor ()
      ensures lines == map[]
    {
      lines := map[];
    }
  }

  function FileAt(files: Files, p: string): Option<seq<Entry>>
    reads files
  {
    if p in files.lines then Some(files.lines[p]) else None
  }

  const CHAIN_PATH := "chain.jsonl"

  function PathOr(path: Option<string>, fallback: string): string {
    if path == None then fallback else path.value
  }

  class Zerone {
    const c: Crypto
    var beings: map<string, Being>
    var record: seq<Entry>
    var path: Option<string>
    var persisted: nat

    constructor (c: Crypto)
      ensures this.c == c && beings == map[] && record == [GenesisEntry(c)] && path == None && persisted == 0
    {
      this.c := c;
      beings, record, path, persisted := map[], [], None, 0;
      new;
      var n := AppendRaw(Body(0, GENESIS, KEEPER, FIRST_WORDS, [], 0, None), c.sha(ORIGIN), [], []);
    }

    method AppendRaw(body: Body, prev: string, pub: bytes, sig: bytes) returns (n: int)
      modifies this`record
      ensures record == old(record) + [Made(c, body, prev, pub, sig)] && n == body.n
    {
      var hash := c.sha(Hashed(prev, body, ToHex(pub), ToHex(sig)));
      record := record + [Entry(body, prev, ToHex(pub), ToHex(sig), hash, map[])];
      return body.n;
    }

    /** Signs and appends; an empty record has no last hash to link to, which
        raises an exception and changes nothing. */
    method Add(being: Being, kind: string, content: string, refs: seq<int>, supersedes: Option<int>, now: int) returns (n: Option<int>)
      modifies this`record
      ensures old(record) == [] ==> record == [] && n == None
      ensures old(record) != [] ==>
        record == old(record) + [Signed(c, old(record), being, kind, content, refs, supersedes, now)] && n == Some(|old(record)|)
      ensures old(record) != [] ==> Continues(c, old(record), record, being, kind, content, refs, supersedes, now)
    {
      var body := Body(|record|, kind, being.id, content, refs, now, supersedes);
      var sig := being.sign(Canon(body));
      if record == [] { return None; }
      SignedContinues(c, record, being, kind, content, refs, supersedes, now);
      var m := AppendRaw(body, record[|record| - 1].hash, being.pub, sig);
      return Some(m);
    }

    /** Enters once: a being already in the record gets the number of its first
        declaration and nothing is appended. */
    method Declare(being: Being, now: int) returns (n: Option<int>)
      modifies this`beings, this`record
      ensures beings == old(beings)[being.id := being]
      ensures record == After(old(record), EffectOf(c, old(record), Op.Declare(being, now)))
      ensures n == None <==> old(record) == []
      ensures var k := EnteredAt(old(record), being.id);
        n.Some? ==> n.value == if k < |old(record)| then old(record)[k].body.n else |old(record)|
      ensures (exists e :: e in old(record) && e.body.kind == "being" && e.body.author == being.id) ==> record == old(record)
      ensures old(record) != [] && (forall e :: e in old(record) ==> e.body.kind != "being" || e.body.author != being.id) ==>
        Continues(c, old(record), record, being, "being", being.name + ": " + DECLARATION, [], None, now)
    {
      beings := beings[being.id := being];
      for k := 0 to |record|
        invariant record == old(record)
        invariant forall i :: 0 <= i < k ==> !Declares(record[i], being.id)
      {
        if Declares(record[k], being.id) {
          return Some(record[k].body.n);
        }
      }
      n := Add(being, BEING, being.name + ": " + DECLARATION, [], None, now);
    }

    method Reason(being: Being, content: string, refs: Option<seq<int>>, now: int) returns (n: Option<int>)
      modifies this`record
      ensures record == After(old(record), EffectOf(c, old(record), Op.Reason(being, content, if refs == None then [] else refs.value, now)))
      ensures n == if old(record) == [] then None else Some(|old(record)|)
      ensures old(record) != [] ==>
        Continues(c, old(record), record, being, "reasoning", content, if refs == None then [] else refs.value, None, now)
    {
      n := Add(being, REASONING, content, if refs == None then [] else refs.value, None, now);
    }

    method Reference(being: Being, content: string, refs: seq<int>, now: int) returns (n: Option<int>)
      modifies this`record
      ensures record == After(old(record), EffectOf(c, old(record), Op.Reason(being, content, refs, now)))
      ensures n == if old(record) == [] then None else Some(|old(record)|)
      ensures old(record) != [] ==> Continues(c, old(record), record, being, "reasoning", content, refs, None, now)
    {
      n := Add(being, REASONING, content, refs, None, now);
    }

    method Revise(being: Being, oldN: int, content: string, now: int) returns (n: Option<int>)
      modifies this`record
      ensures record == After(old(record), EffectOf(c, old(record), Op.Revise(being, oldN, content, now)))
      ensures n == if old(record) == [] then None else Some(|old(record)|)
      ensures old(record) != [] ==> Continues(c, old(record), record, being, "reasoning", content, [oldN], Some(oldN), now)
    {
      n := Add(being, REASONING, content, [oldN], Some(oldN), now);
    }

    /** Opens the record kept at a path, or begins afresh when there is none. */
    static method Load(c: Crypto, files: Files, path: Option<string>, open: string -> Being) returns (z: Zerone)
      ensures fresh(z) && z.c == c
      ensures var p := PathOr(path, CHAIN_PATH);
        && z.path == Some(p)
        && z.At(files, p) == Reopened(GenesisEntry(c), FileAt(files, p))
        && z.beings == (if p in files.lines then BeingsIn(z.record, open) else map[])
    {
      var p := PathOr(path, CHAIN_PATH);
      z := new Zerone(c);
      z.path := Some(p);
      if p in files.lines {
        z.record := ReadLines(files.lines[p]);
        z.persisted := |z.record|;
        z.beings := OpenBeings(z.record, open);
      }
    }

    static method ReadLines(lines: seq<Entry>) returns (record: seq<Entry>)
      ensures record == lines
    {
      record := [];
      for k := 0 to |lines|
        invariant record == lines[..k]
      {
        record := record + [lines[k]];
      }
    }

    static method OpenBeings(record: seq<Entry>, open: string -> Being) returns (beings: map<string, Being>)
      ensures beings == BeingsIn(record, open)
    {
      beings := map[];
      for k := 0 to |record|
        invariant beings == BeingsIn(record[..k], open)
      {
        assert record[..k + 1][..k] == record[..k];
        if record[k].body.kind == BEING {
          var b := open(BeforeColon(record[k].body.content));
          beings := beings[b.id := b];
        }
      }
      assert record[..|record|] == record;
    }

    /** The record, how much of it is saved, and the file at a path. */
    ghost function At(files: Files, p: string): Session
      reads this, files
    {
      Session(record, persisted, FileAt(files, p))
    }

    /** Appends to the file what was never on disk, says how much that was, and
        leaves every other file alone. */
    method Save(files: Files, to: Option<string>) returns (n: nat)
      modifies this`persisted, files
      ensures n == if old(persisted) < |record| then |record| - old(persisted) else 0
      ensures var p := PathOr(to, PathOr(path, CHAIN_PATH));
        && At(files, p) == Saved(old(At(files, p)))
        && files.lines == if n == 0 then old(files.lines) else old(files.lines)[p := OnDisk(Saved(old(At(files, p))))]
    {
      var p := PathOr(to, PathOr(path, CHAIN_PATH));
      if |record| <= persisted { return 0; }
      var unsaved := record[persisted..];
      AppendLines(files, p, unsaved);
      persisted := |record|;
      return |unsaved|;
    }

    static method AppendLines(files: Files, p: string, entries: seq<Entry>)
      requires entries != []
      modifies files
      ensures files.lines == old(files.lines)[p := (if p in old(files.lines) then old(files.lines)[p] else []) + entries]
    {
      var kept := if p in files.lines then files.lines[p] else [];
      for k := 0 to |entries|
        invariant files.lines == if k == 0 then old(files.lines) else old(files.lines)[p := kept + entries[..k]]
      {
        files.lines := files.lines[p := (if p in files.lines then files.lines[p] else []) + [entries[k]]];
        assert kept + entries[..k] + [entries[k]] == kept + entries[..k + 1];
        assert entries[..0] == [] && kept + [] == kept;
      }
      assert entries[..|entries|] == entries;
    }
  }
}
