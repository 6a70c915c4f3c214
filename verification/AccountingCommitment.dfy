/** The accounting plan commitment: the execution view must equal the verified
    committed rows, and the plan's digests bind every one of them. */
module AccountingCommitment {
  import opened Bytes
  import opened Encoding
  import opened IavlTree
  import opened Readers

  const MAX_SCANNED_ROWS: int := 100_000
  const MAX_SCANNED_BYTES: int := 0x400_0000

  /** Selection of rows by key; None is a selector error. */
  type KeySelector = bytes -> Option<bool>

  /** An iterator over a whole execution store and how it ends. */
  datatype Scan = Scan(rows: seq<Record>, failed: bool, closeFailed: bool)

  datatype RowFault = Ceiling | SelectorFailed | Differs | IteratorFailed | Omits | ContextDiffers

  function RowBytes(rows: seq<Record>): nat {
    if rows == [] then 0 else
    RowBytes(rows[..|rows| - 1]) + |rows[|rows| - 1].key| + |rows[|rows| - 1].value|
  }

  function Chosen(select: KeySelector, rows: seq<Record>): seq<Record> {
    if rows == [] then [] else
    var last := rows[|rows| - 1];
    Chosen(select, rows[..|rows| - 1]) + if select(last.key) == Some(true) then [last] else []
  }

  lemma {:induction false} Prefixes(select: KeySelector, rows: seq<Record>, n: nat)
    requires n <= |rows|
    ensures RowBytes(rows[..n]) <= RowBytes(rows)
    ensures Chosen(select, rows[..n]) <= Chosen(select, rows)
    decreases |rows|
  {
    if n < |rows| {
      assert rows[..|rows| - 1][..n] == rows[..n];
      Prefixes(select, rows[..|rows| - 1], n);
    } else {
      assert rows[..n] == rows;
    }
  }

  lemma {:induction false} OneMoreRow(select: KeySelector, rows: seq<Record>, n: nat)
    requires n < |rows|
    ensures RowBytes(rows[..n + 1]) == RowBytes(rows[..n]) + |rows[n].key| + |rows[n].value|
    ensures Chosen(select, rows[..n + 1]) == Chosen(select, rows[..n]) + if select(rows[n].key) == Some(true) then [rows[n]] else []
  {
    assert rows[..n + 1][..n] == rows[..n];
  }

  ghost predicate RowsVerified(scan: Scan, select: KeySelector, expected: seq<Record>) {
    && |scan.rows| <= MAX_SCANNED_ROWS && RowBytes(scan.rows) <= MAX_SCANNED_BYTES
    && (forall r :: r in scan.rows ==> select(r.key).Some?)
    && Chosen(select, scan.rows) == expected
    && !scan.failed && !scan.closeFailed
  }

  /** Succeeds exactly when the selected part of the view is the expected rows,
      none missing, extra, changed or reordered. */
  method VerifyExecutionRows(scan: Scan, select: KeySelector, expected: seq<Record>) returns (r: Result<(), RowFault>)
    ensures r.Ok? <==> RowsVerified(scan, select, expected)
  {
    var index, totalBytes := 0, 0;
    for n := 0 to |scan.rows|
      invariant n <= MAX_SCANNED_ROWS && totalBytes == RowBytes(scan.rows[..n]) <= MAX_SCANNED_BYTES
      invariant forall j :: 0 <= j < n ==> select(scan.rows[j].key).Some?
      invariant index <= |expected| && Chosen(select, scan.rows[..n]) == expected[..index]
    {
      var row := scan.rows[n];
      assert row in scan.rows;
      OneMoreRow(select, scan.rows, n);
      Prefixes(select, scan.rows, n + 1);
      totalBytes := totalBytes + |row.key| + |row.value|;
      if n + 1 > MAX_SCANNED_ROWS || totalBytes > MAX_SCANNED_BYTES { return Err(Ceiling); }
      var selected := select(row.key);
      if selected.None? { return Err(SelectorFailed); }
      if selected.value {
        if index >= |expected| || row.key != expected[index].key || row.value != expected[index].value {
          assert Chosen(select, scan.rows[..n + 1])[index] == row;
          return Err(Differs);
        }
        index := index + 1;
      }
    }
    assert scan.rows[..|scan.rows|] == scan.rows;
    if scan.failed { return Err(IteratorFailed); }
    if index != |expected| { return Err(Omits); }
    assert expected[..index] == expected;
    if scan.closeFailed { return Err(IteratorFailed); }
    return Ok(());
  }

  // ---- digests ----

  function Fields(rows: seq<Record>): seq<bytes> {
    if rows == [] then [] else [rows[0].key, rows[0].value] + Fields(rows[1..])
  }

  predicate Framed(rows: seq<Record>) {
    |rows| < TWO_64 && forall r :: r in rows ==> Framable(r.key) && Framable(r.value)
  }

  lemma {:induction false} FieldsFramable(rows: seq<Record>)
    requires forall r :: r in rows ==> Framable(r.key) && Framable(r.value)
    ensures AllFramable(Fields(rows)) && |Fields(rows)| == 2 * |rows|
  {
    if rows != [] {
      assert rows[0] in rows;
      FieldsFramable(rows[1..]);
    }
  }

  lemma {:induction false} FieldsInjective(a: seq<Record>, b: seq<Record>)
    requires Fields(a) == Fields(b) && |a| == |b|
    ensures a == b
  {
    if a != [] {
      assert Fields(a)[0] == a[0].key && Fields(a)[1] == a[0].value && Fields(a)[2..] == Fields(a[1..]);
      assert Fields(b)[0] == b[0].key && Fields(b)[1] == b[0].value && Fields(b)[2..] == Fields(b[1..]);
      FieldsInjective(a[1..], b[1..]);
      assert a == [a[0]] + a[1..] && b == [b[0]] + b[1..];
    }
  }

  const STATE_TAG: bytes := Ascii("zerone/accounting-authority/state-v1\0")
  const STORE_TAG: bytes := Ascii("custom-store\0")
  const CUSTODY_TAG: bytes := Ascii("bank-custody\0")

  function RowsPreimage(rows: seq<Record>): bytes
    requires Framed(rows)
  {
    FieldsFramable(rows);
    U64(|rows|) + FrameAll(Fields(rows))
  }

  /** What is hashed for one module: its custom store, then its bank custody. */
  function StatePreimage(name: bytes, store: seq<Record>, custody: seq<Record>): bytes
    requires Framed(store) && Framed(custody)
  {
    STATE_TAG + name + [0] + STORE_TAG + (RowsPreimage(store) + (CUSTODY_TAG + RowsPreimage(custody)))
  }

  lemma {:induction false} RowsPrefixFree(a: seq<Record>, b: seq<Record>, x: bytes, y: bytes)
    requires Framed(a) && Framed(b)
    requires RowsPreimage(a) + x == RowsPreimage(b) + y
    ensures a == b && x == y
  {
    FieldsFramable(a);
    FieldsFramable(b);
    Regroup(U64(|a|), FrameAll(Fields(a)), x);
    Regroup(U64(|b|), FrameAll(Fields(b)), y);
    U64PrefixFree(|a|, |b|, FrameAll(Fields(a)) + x, FrameAll(Fields(b)) + y);
    FrameAllPrefixFree(Fields(a), Fields(b), x, y);
    FieldsInjective(a, b);
  }

  /** The hashed fields of rows are key and value of each, in order. */
  lemma {:induction false} FieldAt(rows: seq<Record>, i: nat)
    requires i < |rows|
    ensures |Fields(rows)| == 2 * |rows| && Fields(rows)[2 * i] == rows[i].key && Fields(rows)[2 * i + 1] == rows[i].value
  {
    if i > 0 {
      FieldAt(rows[1..], i - 1);
      assert Fields(rows)[2 * i] == Fields(rows[1..])[2 * (i - 1)] && Fields(rows)[2 * i + 1] == Fields(rows[1..])[2 * (i - 1) + 1];
    } else if |rows| > 1 {
      FieldAt(rows[1..], 0);
    } else {
      assert Fields(rows[1..]) == [];
    }
  }

  lemma {:induction false} RowsReadBack(rows: seq<Record>, x: bytes)
    requires Framed(rows)
    ensures exists rest ::
              && ReadU64(RowsPreimage(rows) + x) == Some((|rows|, rest))
              && ReadFrames(rest, 2 * |rows|) == Some((Fields(rows), x))
  {
    FieldsFramable(rows);
    var rest := FrameAll(Fields(rows)) + x;
    Regroup(U64(|rows|), FrameAll(Fields(rows)), x);
    U64ReadBack(|rows|, rest);
    FramesReadBack(Fields(rows), x);
  }

  /** What a module's digest is taken of, read from the left: tags and name, the
      number of store rows and their framed keys and values, the custody tag, the
      number of custody rows and theirs, and nothing more. */
  lemma {:induction false} StateReadBack(name: bytes, store: seq<Record>, custody: seq<Record>)
    requires Framed(store) && Framed(custody)
    ensures exists a, afterStore, b ::
              && StatePreimage(name, store, custody) ==
                 Ascii("zerone/accounting-authority/state-v1\0") + name + [0] + Ascii("custom-store\0") + a
              && ReadU64(a) == Some((|store|, afterStore))
              && ReadFrames(afterStore, 2 * |store|) == Some((Fields(store), Ascii("bank-custody\0") + b))
              && (exists afterCustody :: ReadU64(b) == Some((|custody|, afterCustody))
                    && ReadFrames(afterCustody, 2 * |custody|) == Some((Fields(custody), [])))
  {
    var b := RowsPreimage(custody);
    var a := RowsPreimage(store) + (CUSTODY_TAG + b);
    assert b + [] == b;
    RowsReadBack(custody, []);
    RowsReadBack(store, CUSTODY_TAG + b);
  }

  lemma {:induction false} StatePreimageInjective(name: bytes, s: seq<Record>, c: seq<Record>, s': seq<Record>, c': seq<Record>)
    requires Framed(s) && Framed(c) && Framed(s') && Framed(c')
    requires StatePreimage(name, s, c) == StatePreimage(name, s', c')
    ensures s == s' && c == c'
  {
    var head := STATE_TAG + name + [0] + STORE_TAG;
    var x, y := CUSTODY_TAG + RowsPreimage(c), CUSTODY_TAG + RowsPreimage(c');
    SplitEqual(head, head, RowsPreimage(s) + x, RowsPreimage(s') + y);
    RowsPrefixFree(s, s', x, y);
    SplitEqual(CUSTODY_TAG, CUSTODY_TAG, RowsPreimage(c), RowsPreimage(c'));
    assert RowsPreimage(c) + [] == RowsPreimage(c) && RowsPreimage(c') + [] == RowsPreimage(c');
    RowsPrefixFree(c, c', [], []);
  }

  /** Hashes one part while comparing each row with the execution context. */
  method HashPart(written0: bytes, tag: bytes, rows: seq<Record>, get: bytes -> Option<bytes>)
    returns (r: Result<bytes, RowFault>)
    requires Framed(rows)
    ensures r.Ok? <==> forall row :: row in rows ==> get(row.key) == Some(row.value)
    ensures r.Ok? ==> r.value == written0 + (tag + RowsPreimage(rows))
  {
    FieldsFramable(rows);
    assert rows[0..] == rows;
    var head := written0 + tag + U64(|rows|);
    ghost var goal := head + FrameAll(Fields(rows));
    var written := head;
    for i := 0 to |rows|
      invariant forall j :: 0 <= j < i ==> get(rows[j].key) == Some(rows[j].value)
      invariant AllFramable(Fields(rows[i..]))
      invariant written + FrameAll(Fields(rows[i..])) == goal
    {
      var row := rows[i];
      assert row in rows;
      if get(row.key) != Some(row.value) { return Err(ContextDiffers); }
      Absorb(written, rows, i);
      written := written + Frame(row.key) + Frame(row.value);
    }
    assert Fields(rows[|rows|..]) == [] && written + [] == written;
    ConcatAssociative(written0, tag, U64(|rows|), FrameAll(Fields(rows)));
    Regroup(tag, U64(|rows|), FrameAll(Fields(rows)));
    return Ok(written);
  }

  lemma {:induction false} Absorb(written: bytes, rows: seq<Record>, i: nat)
    requires i < |rows| && AllFramable(Fields(rows[i..]))
    ensures Framable(rows[i].key) && Framable(rows[i].value) && AllFramable(Fields(rows[i + 1..]))
    ensures written + FrameAll(Fields(rows[i..])) ==
            written + Frame(rows[i].key) + Frame(rows[i].value) + FrameAll(Fields(rows[i + 1..]))
  {
    TwoFields(rows, i);
    ConcatAssociative(written, Frame(rows[i].key), Frame(rows[i].value), FrameAll(Fields(rows[i + 1..])));
  }

  lemma {:induction false} TwoFields(rows: seq<Record>, i: nat)
    requires i < |rows| && AllFramable(Fields(rows[i..]))
    ensures Framable(rows[i].key) && Framable(rows[i].value) && AllFramable(Fields(rows[i + 1..]))
    ensures FrameAll(Fields(rows[i..])) == Frame(rows[i].key) + Frame(rows[i].value) + FrameAll(Fields(rows[i + 1..]))
  {
    var all, rest := Fields(rows[i..]), Fields(rows[i + 1..]);
    assert rows[i..][1..] == rows[i + 1..];
    assert all[0] == rows[i].key && all[1] == rows[i].value && all[1..][1..] == rest;
    assert all[0] in all && all[1] in all;
    forall f | f in rest
      ensures Framable(f)
    {
      assert f in all;
    }
    Regroup(Frame(rows[i].key), Frame(rows[i].value), FrameAll(rest));
  }

  /** One module's evidence: verified rows and the execution view of them. */
  datatype Evidence = Evidence(name: bytes, store: seq<Record>, custody: seq<Record>)

  predicate EvidenceFramed(e: Evidence) {
    Framed(e.store) && Framed(e.custody)
  }

  method DigestEvidence(h: Hasher, e: Evidence, getStore: bytes -> Option<bytes>, getBank: bytes -> Option<bytes>)
    returns (r: Result<Digest, RowFault>)
    requires EvidenceFramed(e)
    ensures r.Ok? <==> && (forall row :: row in e.store ==> getStore(row.key) == Some(row.value))
                       && (forall row :: row in e.custody ==> getBank(row.key) == Some(row.value))
    ensures r.Ok? ==> r.value == h(StatePreimage(e.name, e.store, e.custody))
  {
    var head := STATE_TAG + e.name + [0];
    var first := HashPart(head, STORE_TAG, e.store, getStore);
    if first.Err? { return Err(first.error); }
    var second := HashPart(first.value, CUSTODY_TAG, e.custody, getBank);
    if second.Err? { return Err(second.error); }
    Regroup(head, STORE_TAG, RowsPreimage(e.store));
    Regroup(head + STORE_TAG, RowsPreimage(e.store), CUSTODY_TAG + RowsPreimage(e.custody));
    return Ok(h(second.value));
  }

  /** The plan information a release commits to. */
  datatype PlanInfo = PlanInfo(chainId: string, versionMapDigest: Digest, stakingDigest: Digest, govDigest: Digest)

  const STAKING_NAME: bytes := Ascii("zerone_staking")
  const GOV_NAME: bytes := Ascii("zerone_gov")

  datatype Source = Source(staking: seq<Record>, stakingCustody: seq<Record>, gov: seq<Record>, govCustody: seq<Record>)

  predicate SourceFramed(s: Source) {
    Framed(s.staking) && Framed(s.stakingCustody) && Framed(s.gov) && Framed(s.govCustody)
  }

  function PlanOf(h: Hasher, chainId: string, versionMapDigest: Digest, s: Source): PlanInfo
    requires SourceFramed(s)
  {
    PlanInfo(chainId, versionMapDigest,
             h(StatePreimage(STAKING_NAME, s.staking, s.stakingCustody)),
             h(StatePreimage(GOV_NAME, s.gov, s.govCustody)))
  }

  function SourceHashed(s: Source): set<bytes>
    requires SourceFramed(s)
  {
    {StatePreimage(STAKING_NAME, s.staking, s.stakingCustody), StatePreimage(GOV_NAME, s.gov, s.govCustody)}
  }

  /** One module's execution context: a scan of its own store, a scan of the
      bank store with the selector of its custody balances, and point reads. */
  datatype View = View(store: Scan, bank: Scan, custody: KeySelector, getStore: bytes -> Option<bytes>, getBank: bytes -> Option<bytes>)

  ghost predicate ViewShows(v: View, store: seq<Record>, custody: seq<Record>) {
    && RowsVerified(v.store, k => Some(true), store)
    && RowsVerified(v.bank, v.custody, custody)
    && (forall row :: row in store ==> v.getStore(row.key) == Some(row.value))
    && (forall row :: row in custody ==> v.getBank(row.key) == Some(row.value))
  }

  method DigestModule(h: Hasher, e: Evidence, v: View) returns (r: Result<Digest, RowFault>)
    requires EvidenceFramed(e)
    ensures r.Ok? <==> ViewShows(v, e.store, e.custody)
    ensures r.Ok? ==> r.value == h(StatePreimage(e.name, e.store, e.custody))
  {
    var rows := VerifyExecutionRows(v.store, k => Some(true), e.store);
    if rows.Err? { return Err(rows.error); }
    rows := VerifyExecutionRows(v.bank, v.custody, e.custody);
    if rows.Err? { return Err(rows.error); }
    r := DigestEvidence(h, e, v.getStore, v.getBank);
  }

  /** The digest loop of the plan builder, over both modules. */
  method BuildPlanInfo(h: Hasher, chainId: string, versionMapDigest: Digest, s: Source, staking: View, gov: View)
    returns (r: Result<PlanInfo, RowFault>)
    requires SourceFramed(s)
    ensures r.Ok? <==> ViewShows(staking, s.staking, s.stakingCustody) && ViewShows(gov, s.gov, s.govCustody)
    ensures r.Ok? ==> r.value == PlanOf(h, chainId, versionMapDigest, s)
  {
    var first := DigestModule(h, Evidence(STAKING_NAME, s.staking, s.stakingCustody), staking);
    if first.Err? { return Err(first.error); }
    var second := DigestModule(h, Evidence(GOV_NAME, s.gov, s.govCustody), gov);
    if second.Err? { return Err(second.error); }
    return Ok(PlanInfo(chainId, versionMapDigest, first.value, second.value));
  }

  /** Two states that give the same plan agree on every staking row, governance
      row and custody balance, or a collision is exhibited. */
  lemma {:induction false} PlanBindsState(h: Hasher, chain: string, vm: Digest, chain': string, vm': Digest, a: Source, b: Source)
    requires SourceFramed(a) && SourceFramed(b)
    requires PlanOf(h, chain, vm, a) == PlanOf(h, chain', vm', b)
    ensures a == b || Collide(h, SourceHashed(a), SourceHashed(b))
  {
    var sa, sb := StatePreimage(STAKING_NAME, a.staking, a.stakingCustody), StatePreimage(STAKING_NAME, b.staking, b.stakingCustody);
    var ga, gb := StatePreimage(GOV_NAME, a.gov, a.govCustody), StatePreimage(GOV_NAME, b.gov, b.govCustody);
    assert sa in SourceHashed(a) && ga in SourceHashed(a) && sb in SourceHashed(b) && gb in SourceHashed(b);
    if sa == sb && ga == gb {
      StatePreimageInjective(STAKING_NAME, a.staking, a.stakingCustody, b.staking, b.stakingCustody);
      StatePreimageInjective(GOV_NAME, a.gov, a.govCustody, b.gov, b.govCustody);
    }
  }
}
