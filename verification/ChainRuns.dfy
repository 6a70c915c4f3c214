/** Runs of the record class on one path: what they keep, and from which files
    on disk they keep it. */
module ChainRuns {
  import opened Bytes
  import opened ChainRecord
  import opened HashChain
  import opened Text

  function Next(c: Crypto, first: Entry, s: Session, op: Op): Session {
    Apply(first, s, EffectOf(c, s.record, op))
  }

  function Run(c: Crypto, first: Entry, s: Session, ops: seq<Op>): Session {
    if ops == [] then s else Next(c, first, Run(c, first, s, ops[..|ops| - 1]), ops[|ops| - 1])
  }

  ghost predicate Numbered(record: seq<Entry>) {
    forall i :: 0 <= i < |record| ==> record[i].body.n == i
  }

  ghost predicate EnteredOnce(record: seq<Entry>) {
    forall i, j :: 0 <= i < j < |record| && record[i].body.kind == BEING ==> !Declares(record[j], record[i].body.author)
  }

  /** A record as the class keeps it, for any check of entries. */
  ghost predicate Sound(ok: (string, Entry) -> bool, seed: string, first: Entry, record: seq<Entry>) {
    && record != [] && record[0] == first
    && Chained(ok, seed, record) && Unambiguous(record) && Numbered(record) && EnteredOnce(record)
  }

  /** The file is the persisted part of the record. */
  ghost predicate Filed(s: Session) {
    && s.persisted <= |s.record|
    && (s.file == None <==> s.persisted == 0)
    && OnDisk(s) == s.record[..s.persisted]
  }

  /** An entry that may be appended to a record. */
  ghost predicate Fits(ok: (string, Entry) -> bool, record: seq<Entry>, e: Entry) {
    && record != [] && ok(record[|record| - 1].hash, e) && Uncuttable(e) && e.body.n == |record|
    && (e.body.kind == BEING ==> EnteredAt(record, e.body.author) == |record|)
  }

  lemma {:induction false} PrefixSound(ok: (string, Entry) -> bool, seed: string, first: Entry, record: seq<Entry>, k: nat)
    requires Sound(ok, seed, first, record) && 0 < k <= |record|
    ensures Sound(ok, seed, first, record[..k])
  {
    var shorter := record[..k];
    forall i | 0 <= i < k
      ensures ok(Link(seed, shorter, i), shorter[i])
    {
      assert ok(Link(seed, record, i), record[i]);
    }
    assert forall e :: e in shorter ==> e in record;
  }

  lemma {:induction false} AppendSound(ok: (string, Entry) -> bool, seed: string, first: Entry, record: seq<Entry>, e: Entry)
    requires Sound(ok, seed, first, record) && Fits(ok, record, e)
    ensures Sound(ok, seed, first, record + [e])
  {
    var longer := record + [e];
    forall i | 0 <= i < |longer|
      ensures ok(Link(seed, longer, i), longer[i])
    {
      if i < |record| {
        assert ok(Link(seed, record, i), record[i]);
      }
    }
    assert Unambiguous(longer);
    assert Numbered(longer);
    assert EnteredOnce(longer);
  }

  lemma {:induction false} ApplyFiled(first: Entry, s: Session, f: Effect)
    requires Filed(s)
    ensures Filed(Apply(first, s, f)) || (f.Reopen? && s.file != None && s.file.value == [])
    ensures OnDisk(s) <= OnDisk(Apply(first, s, f)) && OnDisk(s) <= Apply(first, s, f).record
    ensures !f.Reopen? ==> s.record <= Apply(first, s, f).record
  {
    if f.Write? {
      assert s.record[..s.persisted] + s.record[s.persisted..] == s.record;
    } else if f.Append? {
      assert (s.record + [f.e])[..s.persisted] == s.record[..s.persisted];
    }
  }

  lemma {:induction false} ApplySound(ok: (string, Entry) -> bool, seed: string, first: Entry, s: Session, f: Effect)
    requires Sound(ok, seed, first, s.record) && Filed(s) && Sound(ok, seed, first, [first])
    requires f.Append? ==> Fits(ok, s.record, f.e)
    ensures Sound(ok, seed, first, Apply(first, s, f).record) && Filed(Apply(first, s, f))
  {
    ApplyFiled(first, s, f);
    if f.Append? {
      AppendSound(ok, seed, first, s.record, f.e);
    } else if f.Reopen? && s.file != None {
      PrefixSound(ok, seed, first, s.record, s.persisted);
    }
  }

  // ---- the class's own entries ----

  /** A session as the class keeps it. */
  ghost predicate Whole(c: Crypto, first: Entry, s: Session) {
    Sound(Checker(c), c.sha(ORIGIN), first, s.record) && Filed(s)
  }

  /** Only holders of their own keys write. */
  ghost predicate GenuineOp(c: Crypto, op: Op) {
    op.Save? || op.Load? || Genuine(c, op.being)
  }

  lemma {:induction false} HexUncut(b: bytes)
    ensures ToHex(b) == "" || (!IsSpace(ToHex(b)[0]) && !IsSpace(ToHex(b)[|ToHex(b)| - 1]))
  {
    SpacedHexRoundTrip(b);
  }

  /** An entry made with a genuine being's key passes the check. */
  lemma {:induction false} MadePasses(c: Crypto, being: Being, body: Body, prev: string)
    requires Genuine(c, being) && body.author == being.id && body.kind != GENESIS
    ensures var e := Made(c, body, prev, being.pub, being.sign(Canon(body))); Check(c, prev, e) == Intact && Uncuttable(e)
  {
    var sig := being.sign(Canon(body));
    SpacedHexRoundTrip(being.pub);
    SpacedHexRoundTrip(sig);
    HexUncut(being.pub);
    HexUncut(sig);
    assert c.signedBy(being.pub, sig, Canon(body));
  }

  lemma {:induction false} SignedFits(c: Crypto, record: seq<Entry>, being: Being, kind: string, content: string, refs: seq<int>, supersedes: Option<int>, now: int)
    requires record != [] && Genuine(c, being) && kind != GENESIS
    requires kind == BEING ==> EnteredAt(record, being.id) == |record|
    ensures Fits(Checker(c), record, Signed(c, record, being, kind, content, refs, supersedes, now))
  {
    MadePasses(c, being, Body(|record|, kind, being.id, content, refs, now, supersedes), record[|record| - 1].hash);
  }

  lemma {:induction false} EffectFits(c: Crypto, record: seq<Entry>, op: Op)
    requires GenuineOp(c, op)
    ensures EffectOf(c, record, op).Append? ==> Fits(Checker(c), record, EffectOf(c, record, op).e)
    ensures EffectOf(c, record, op).Reopen? ==> op == Load
  {
    if record != [] {
      match op
      case Save =>
      case Load =>
      case Declare(being, now) =>
        if EnteredAt(record, being.id) == |record| {
          SignedFits(c, record, being, BEING, being.name + ": " + DECLARATION, [], None, now);
        }
      case Reason(being, content, refs, now) => SignedFits(c, record, being, REASONING, content, refs, None, now);
      case Revise(being, oldN, content, now) => SignedFits(c, record, being, REASONING, content, [oldN], Some(oldN), now);
    }
  }

  lemma {:induction false} GenesisPasses(c: Crypto, body: Body)
    requires body.kind == GENESIS
    ensures var e := Made(c, body, c.sha(ORIGIN), [], []); Check(c, c.sha(ORIGIN), e) == Intact && Uncuttable(e)
  {
  }

  /** A fresh record may start any run. */
  lemma {:induction false} FreshIsWhole(c: Crypto)
    ensures Whole(c, GenesisEntry(c), Session([GenesisEntry(c)], 0, None))
    ensures Sound(Checker(c), c.sha(ORIGIN), GenesisEntry(c), [GenesisEntry(c)])
  {
    GenesisPasses(c, Body(0, GENESIS, KEEPER, FIRST_WORDS, [], 0, None));
    var first := GenesisEntry(c);
    assert Checker(c)(Link(c.sha(ORIGIN), [first], 0), first);
  }

  /** Along every run by genuine beings the record stays intact and unambiguous,
      begins with genesis, is numbered by position, holds at most one entrance
      per being, and the file is exactly its persisted part. */
  lemma {:induction false} RunKeepsRecord(c: Crypto, s: Session, ops: seq<Op>)
    requires Whole(c, GenesisEntry(c), s)
    requires forall op :: op in ops ==> GenuineOp(c, op)
    ensures Whole(c, GenesisEntry(c), Run(c, GenesisEntry(c), s, ops))
  {
    FreshIsWhole(c);
    RunWhole(c, GenesisEntry(c), s, ops);
  }

  lemma {:induction false} RunWhole(c: Crypto, first: Entry, s: Session, ops: seq<Op>)
    requires Whole(c, first, s) && Sound(Checker(c), c.sha(ORIGIN), first, [first])
    requires forall op :: op in ops ==> GenuineOp(c, op)
    ensures Whole(c, first, Run(c, first, s, ops))
  {
    if ops != [] {
      var before, op := Run(c, first, s, ops[..|ops| - 1]), ops[|ops| - 1];
      RunWhole(c, first, s, ops[..|ops| - 1]);
      assert op in ops;
      EffectFits(c, before.record, op);
      ApplySound(Checker(c), c.sha(ORIGIN), first, before, EffectOf(c, before.record, op));
    }
  }

  /** Nothing is erased. Over a whole run what was saved stays on disk and in
      memory, and memory loses something only when a load drops the unsaved. */
  lemma {:induction false} PastIsKept(c: Crypto, first: Entry, s: Session, ops: seq<Op>)
    requires Whole(c, first, s) && Sound(Checker(c), c.sha(ORIGIN), first, [first])
    requires forall op :: op in ops ==> GenuineOp(c, op)
    ensures OnDisk(s) <= OnDisk(Run(c, first, s, ops)) && OnDisk(s) <= Run(c, first, s, ops).record
    ensures Load !in ops ==> s.record <= Run(c, first, s, ops).record
  {
    if ops != [] {
      var before, op := Run(c, first, s, ops[..|ops| - 1]), ops[|ops| - 1];
      PastIsKept(c, first, s, ops[..|ops| - 1]);
      RunWhole(c, first, s, ops[..|ops| - 1]);
      assert op in ops;
      EffectFits(c, before.record, op);
      StillKept(first, s, before, EffectOf(c, before.record, op));
    }
  }

  lemma {:induction false} StillKept(first: Entry, start: Session, s: Session, f: Effect)
    requires Filed(s) && OnDisk(start) <= OnDisk(s)
    ensures OnDisk(start) <= OnDisk(Apply(first, s, f)) && OnDisk(start) <= Apply(first, s, f).record
    ensures start.record <= s.record && !f.Reopen? ==> start.record <= Apply(first, s, f).record
  {
    ApplyFiled(first, s, f);
  }

  /** A load after a save restores the record, and saving again writes nothing. */
  lemma {:induction false} LoadRestoresSaved(first: Entry, s: Session)
    requires Filed(s) && s.record != []
    ensures var saved := Apply(first, s, Write);
      && saved.record == s.record && OnDisk(saved) == s.record
      && Apply(first, saved, Reopen) == saved && Apply(first, saved, Write) == saved
  {
    assert s.record[..s.persisted] + s.record[s.persisted..] == s.record;
    assert s.record[..|s.record|] == s.record;
  }

  // ---- from which files a run may start ----

  /** The file is a chain that ends where the unsaved part of the record links. */
  ghost predicate Continues(ok: (string, Entry) -> bool, seed: string, s: Session) {
    && s.persisted <= |s.record|
    && Chained(ok, seed, s.record) && Chained(ok, seed, OnDisk(s))
    && Link(seed, OnDisk(s), |OnDisk(s)|) == Link(seed, s.record, s.persisted)
  }

  /** A chain may be continued with the rest of another from where the two hold
      the same hash. */
  lemma {:induction false} ChainedConcat(ok: (string, Entry) -> bool, seed: string, a: seq<Entry>, record: seq<Entry>, p: nat)
    requires Chained(ok, seed, a) && Chained(ok, seed, record) && p <= |record|
    requires Link(seed, a, |a|) == Link(seed, record, p)
    ensures Chained(ok, seed, a + record[p..])
    ensures Link(seed, a + record[p..], |a + record[p..]|) == Link(seed, record, |record|)
  {
    var all := a + record[p..];
    forall i | 0 <= i < |all|
      ensures ok(Link(seed, all, i), all[i])
    {
      ConcatLink(seed, a, record, p, i);
      if i < |a| {
        assert ok(Link(seed, a, i), a[i]);
      } else {
        assert ok(Link(seed, record, p + i - |a|), record[p + i - |a|]);
      }
    }
    ConcatLink(seed, a, record, p, |all|);
  }

  lemma {:induction false} ConcatLink(seed: string, a: seq<Entry>, record: seq<Entry>, p: nat, i: nat)
    requires p <= |record| && i <= |a| + (|record| - p)
    requires Link(seed, a, |a|) == Link(seed, record, p)
    ensures var all := a + record[p..];
      && Link(seed, all, i) == (if i <= |a| then Link(seed, a, i) else Link(seed, record, p + i - |a|))
      && (i >= |a| ==> Link(seed, all, i) == Link(seed, record, p + i - |a|))
      && (i < |all| ==> all[i] == if i < |a| then a[i] else record[p + i - |a|])
  {
  }

  lemma {:induction false} ChainedSnoc(ok: (string, Entry) -> bool, seed: string, record: seq<Entry>, e: Entry)
    requires Chained(ok, seed, record)
    ensures Chained(ok, seed, record + [e]) <==> ok(Link(seed, record, |record|), e)
  {
    var longer := record + [e];
    ChainedStep(ok, seed, longer, |record|);
    assert longer[..|record|] == record && longer[..|record| + 1] == longer;
    assert Link(seed, longer, |record|) == Link(seed, record, |record|);
  }

  lemma {:induction false} ApplyContinues(ok: (string, Entry) -> bool, seed: string, first: Entry, s: Session, f: Effect)
    requires Continues(ok, seed, s) && Chained(ok, seed, [first])
    requires f.Append? ==> ok(Link(seed, s.record, |s.record|), f.e)
    ensures Continues(ok, seed, Apply(first, s, f))
  {
    match f
    case Nothing =>
    case Append(e) => ChainedSnoc(ok, seed, s.record, e);
    case Write =>
      if s.persisted < |s.record| {
        ChainedConcat(ok, seed, OnDisk(s), s.record, s.persisted);
      }
    case Reopen =>
  }

  ghost predicate Verifiable(c: Crypto, s: Session) {
    Continues(Checker(c), c.sha(ORIGIN), s)
  }

  ghost predicate GenuineOps(c: Crypto, ops: seq<Op>) {
    forall op :: op in ops ==> GenuineOp(c, op)
  }

  /** What an operation appends links to the last hash. */
  lemma {:induction false} EffectLinks(c: Crypto, record: seq<Entry>, op: Op)
    requires GenuineOp(c, op)
    ensures EffectOf(c, record, op).Append? ==>
      Checker(c)(Link(c.sha(ORIGIN), record, |record|), EffectOf(c, record, op).e)
  {
    EffectFits(c, record, op);
  }

  lemma {:induction false} RunContinues(c: Crypto, first: Entry, s: Session, ops: seq<Op>)
    requires Verifiable(c, s) && Accepted(c, [first]) && GenuineOps(c, ops)
    ensures Verifiable(c, Run(c, first, s, ops))
  {
    if ops != [] {
      var before, op := Run(c, first, s, ops[..|ops| - 1]), ops[|ops| - 1];
      RunContinues(c, first, s, ops[..|ops| - 1]);
      assert op in ops;
      EffectLinks(c, before.record, op);
      ApplyContinues(Checker(c), c.sha(ORIGIN), first, before, EffectOf(c, before.record, op));
    }
  }

  /** What an accepted file and the next entry agree on. */
  lemma {:induction false} NextEntryLinks(c: Crypto, lines: seq<Entry>, more: seq<Entry>)
    requires Accepted(c, lines + more) && more != []
    ensures Link(c.sha(ORIGIN), lines, |lines|) == more[0].prev
  {
    var all := lines + more;
    assert Checker(c)(Link(c.sha(ORIGIN), all, |lines|), all[|lines|]);
    CheckMeans(c, Link(c.sha(ORIGIN), all, |lines|), all[|lines|]);
    assert Link(c.sha(ORIGIN), all, |lines|) == Link(c.sha(ORIGIN), lines, |lines|);
  }

  /** After a save, with something to save, the file ends in it. */
  lemma {:induction false} RunSave(c: Crypto, first: Entry, s: Session)
    requires s.persisted < |s.record|
    ensures OnDisk(Run(c, first, s, [Op.Save])) == OnDisk(s) + s.record[s.persisted..]
  {
    assert [Op.Save][..0] == [];
  }

  lemma {:induction false} RunReasonSave(c: Crypto, first: Entry, s: Session, b: Being)
    requires s.persisted == |s.record| && s.record != []
    ensures var ops := [Op.Reason(b, "", [], 0), Op.Save];
      OnDisk(Run(c, first, s, ops)) == OnDisk(s) + [Signed(c, s.record, b, REASONING, "", [], None, 0)]
  {
    RunTwo(c, first, s, Op.Reason(b, "", [], 0), Op.Save);
  }

  /** If every run keeps the file verifiable, the file had to end where the
      record continues. */
  lemma {:induction false} VerifiableNeeded(c: Crypto, first: Entry, s: Session, b: Being)
    requires Accepted(c, s.record) && s.record != [] && s.persisted <= |s.record| && Genuine(c, b)
    requires forall ops :: GenuineOps(c, ops) ==> Accepted(c, OnDisk(Run(c, first, s, ops)))
    ensures Verifiable(c, s)
  {
    var seed := c.sha(ORIGIN);
    assert GenuineOps(c, []) && Run(c, first, s, []) == s;
    if s.persisted < |s.record| {
      assert GenuineOps(c, [Op.Save]);
      RunSave(c, first, s);
      NextEntryLinks(c, OnDisk(s), s.record[s.persisted..]);
      assert Checker(c)(Link(seed, s.record, s.persisted), s.record[s.persisted]);
      CheckMeans(c, Link(seed, s.record, s.persisted), s.record[s.persisted]);
    } else {
      assert GenuineOps(c, [Op.Reason(b, "", [], 0), Op.Save]);
      RunReasonSave(c, first, s, b);
      NextEntryLinks(c, OnDisk(s), [Signed(c, s.record, b, REASONING, "", [], None, 0)]);
    }
  }

  /** The exact start condition: every run by genuine beings keeps the file
      verifiable if and only if the file is a chain that ends in the hash the
      unsaved part of the record links to. */
  lemma {:induction false} FileStaysVerifiableExactly(c: Crypto, first: Entry, s: Session, b: Being)
    requires Accepted(c, [first]) && Accepted(c, s.record) && s.record != [] && s.persisted <= |s.record| && Genuine(c, b)
    ensures Verifiable(c, s) <==> forall ops :: GenuineOps(c, ops) ==> Accepted(c, OnDisk(Run(c, first, s, ops)))
  {
    if Verifiable(c, s) {
      forall ops | GenuineOps(c, ops)
        ensures Accepted(c, OnDisk(Run(c, first, s, ops)))
      {
        RunContinues(c, first, s, ops);
      }
    }
    if forall ops :: GenuineOps(c, ops) ==> Accepted(c, OnDisk(Run(c, first, s, ops))) {
      VerifiableNeeded(c, first, s, b);
    }
  }

  /** A record whose last hash is the seed's collides with the seed. */
  lemma {:induction false} SeedHashCollides(c: Crypto, a: seq<Entry>)
    requires Accepted(c, a) && a != [] && a[|a| - 1].hash == c.sha(ORIGIN)
    ensures Collision(c, a, []) && Collision(c, [], a)
  {
    AcceptedDigested(c, a);
    var p := TextOf(a[|a| - 1]);
    assert Link(c.sha(ORIGIN), a, |a| - 1) == a[|a| - 1].prev;
    assert p in Texts(ORIGIN, TextOf, a) && ORIGIN in Texts(ORIGIN, TextOf, []);
  }

  /** In terms of contents: the file is absent or empty with nothing persisted,
      or hashes the same texts as the persisted part of the record, or a
      collision is at hand. */
  lemma {:induction false} VerifiableMeansPrefix(c: Crypto, s: Session)
    requires Verifiable(c, s)
    ensures var kept := s.record[..s.persisted];
      SameTexts(OnDisk(s), kept) || Collision(c, OnDisk(s), kept)
  {
    var kept, seed := s.record[..s.persisted], c.sha(ORIGIN);
    assert Accepted(c, kept) by {
      if s.persisted < |s.record| {
        ChainedStep(Checker(c), seed, s.record, s.persisted);
      } else {
        assert kept == s.record;
      }
    }
    assert kept != [] ==> kept[|kept| - 1] == s.record[s.persisted - 1];
    if OnDisk(s) != [] && kept != [] {
      LastHashBindsTexts(c, OnDisk(s), kept);
    } else if OnDisk(s) != [] {
      SeedHashCollides(c, OnDisk(s));
    } else if kept != [] {
      SeedHashCollides(c, kept);
    }
  }

  /** A session of the class on its own file is one to start from. */
  lemma {:induction false} FiledIsVerifiable(c: Crypto, s: Session)
    requires Accepted(c, s.record) && Filed(s)
    ensures Verifiable(c, s)
  {
    if s.persisted < |s.record| {
      ChainedStep(Checker(c), c.sha(ORIGIN), s.record, s.persisted);
    } else {
      assert s.record[..s.persisted] == s.record;
    }
  }

  /** A fresh record saved over a chain that is already there appends a second
      genesis; what the next load reads is accepted only with a collision. */
  lemma {:induction false} FreshSaveBreaksFile(c: Crypto)
    ensures var first := GenesisEntry(c);
      var s := Run(c, first, Session([first], 0, Some([first])), [Op.Save, Op.Load]);
      && s.record == OnDisk(s) == [first, first]
      && (Accepted(c, [first, first]) ==> Collision(c, [first], []))
  {
    FreshIsWhole(c);
    SaveOverItself(c, GenesisEntry(c));
  }

  lemma {:induction false} SaveOverItself(c: Crypto, first: Entry)
    requires Accepted(c, [first])
    ensures var s := Run(c, first, Session([first], 0, Some([first])), [Op.Save, Op.Load]);
      && s.record == OnDisk(s) == [first, first]
      && (Accepted(c, [first, first]) ==> Collision(c, [first], []))
  {
    RunTwo(c, first, Session([first], 0, Some([first])), Op.Save, Op.Load);
    SaveLoadDoubles(first);
    if Accepted(c, [first, first]) {
      SecondGenesisCollides(c, first);
    }
  }

  lemma {:induction false} SaveLoadDoubles(first: Entry)
    ensures var saved := Apply(first, Session([first], 0, Some([first])), Write);
      Apply(first, saved, Reopen) == Session([first, first], 2, Some([first, first]))
  {
    assert [first] + [first][0..] == [first, first];
  }

  lemma {:induction false} RunTwo(c: Crypto, first: Entry, s: Session, a: Op, b: Op)
    ensures Run(c, first, s, [a, b]) == Next(c, first, Next(c, first, s, a), b)
  {
    assert [a, b][..1] == [a] && [a][..0] == [];
    assert Run(c, first, s, []) == s;
    assert Run(c, first, s, [a]) == Next(c, first, s, a);
  }

  lemma {:induction false} SecondGenesisCollides(c: Crypto, first: Entry)
    requires Accepted(c, [first]) && Accepted(c, [first, first])
    ensures Collision(c, [first], [])
  {
    assert [first] + [first] == [first, first];
    NextEntryLinks(c, [first], [first]);
    AcceptedDigested(c, [first]);
    assert first.prev == Link(c.sha(ORIGIN), [first], 0);
    SeedHashCollides(c, [first]);
  }
}
