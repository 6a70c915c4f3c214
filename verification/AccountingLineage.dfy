/** Accounting lineage markers over upgrades, exports and imports. */
module AccountingLineage {
  import opened Bytes

  /** The activation receipt; its plan information is canonical JSON text. */
  datatype Receipt = Receipt(height: int, info: string, planDigest: Digest)

  /** The JSON codec of receipts and the checks on their content: schema,
      positive height, plan information and plan digest. `chainOf` reads the
      chain id from valid plan information. */
  datatype Codec = Codec(decode: string -> Option<Receipt>, encode: Receipt -> string, valid: Receipt -> bool, chainOf: Receipt -> string)

  /** Decoding undoes encoding, and a valid receipt's text fits its bound. */
  ghost predicate Faithful(c: Codec) {
    forall r :: c.valid(r) ==> c.decode(c.encode(r)) == Some(r) && 0 < |c.encode(r)| <= 4096 && r.height > 0
  }

  function ParseReceipt(c: Codec, raw: string): Option<Receipt> {
    if |raw| == 0 || |raw| > 4096 then None else
    match c.decode(raw)
    case None => None
    case Some(r) => if c.encode(r) != raw || !c.valid(r) then None else Some(r)
  }

  datatype Marker = NativeMarker | MigrationMarker | ImportedMarker

  const GENESIS: string := "genesis"

  /** Markers in the knowledge store, the upgrade's done height, and the two
      modules' safety switches. */
  datatype State = State(markers: map<Marker, string>, done: int, stakingSafe: bool, govSafe: bool)

  const FRESH: State := State(map[], 0, false, false)

  datatype Origin = Native | Legacy | Migrated | ImportedMigrated

  datatype Lineage = Lineage(origin: Origin, receipt: Option<Receipt>)

  predicate Unsealed(s: State) {
    && !s.stakingSafe && !s.govSafe
    && NativeMarker !in s.markers && MigrationMarker !in s.markers && ImportedMarker !in s.markers
    && s.done == 0
  }

  predicate Sealed(s: State) {
    s.markers != map[] || s.stakingSafe || s.govSafe || s.done != 0
  }

  /** The lineage a state claims, checked; what an export writes. */
  function Metadata(c: Codec, s: State, latest: int, chainId: string): Option<Lineage> {
    if s.markers == map[] && s.done == 0 && !s.stakingSafe && !s.govSafe then Some(Lineage(Legacy, None))
    else if |s.markers| != 1 || !s.stakingSafe || !s.govSafe then None
    else if NativeMarker in s.markers then
      if s.markers[NativeMarker] != GENESIS || s.done != 0 then None else Some(Lineage(Native, None))
    else if MigrationMarker in s.markers then
      match ParseReceipt(c, s.markers[MigrationMarker])
      case None => None
      case Some(r) =>
        if s.done != r.height || s.done > latest || (chainId != "" && chainId != c.chainOf(r)) then None
        else Some(Lineage(Migrated, Some(r)))
    else if ImportedMarker in s.markers then
      if s.done != 0 then None else
      match ParseReceipt(c, s.markers[ImportedMarker])
      case None => None
      case Some(r) => Some(Lineage(ImportedMigrated, Some(r)))
    else None
  }

  /** Genesis metadata as parsed from an export; absent metadata is native. */
  function ParseGenesis(c: Codec, raw: Option<Lineage>): Option<Lineage> {
    match raw
    case None => Some(Lineage(Native, None))
    case Some(l) =>
      match l.origin
      case Native => if l.receipt.Some? then None else raw
      case Legacy => if l.receipt.Some? then None else raw
      case Migrated => if l.receipt.None? || !c.valid(l.receipt.value) then None else raw
      case ImportedMigrated => if l.receipt.None? || !c.valid(l.receipt.value) then None else raw
  }

  lemma {:induction false} SingleMarker(m: map<Marker, string>, k: Marker)
    requires k in m && |m| == 1
    ensures m == map[k := m[k]]
  {
    assert |m.Keys - {k}| == 0;
    assert m.Keys == {k};
  }

  /** A receipt's text as a marker holds it: short, canonical and valid. */
  ghost predicate Holds(c: Codec, text: string, r: Receipt) {
    0 < |text| <= 4096 && c.decode(text).Some? && c.decode(text).value == r && c.encode(r) == text && c.valid(r)
  }

  /** Which states can be exported, and with what lineage: an untouched one as
      legacy, a native one without a done height, an applied one whose done height
      is its receipt's, not in the future and of this chain, and an imported one
      without a done height; nothing else. */
  lemma {:induction false} MetadataExactly(c: Codec, s: State, latest: int, chainId: string, l: Lineage)
    ensures Metadata(c, s, latest, chainId) == Some(l) <==>
            || (s == State(map[], 0, false, false) && l == Lineage(Legacy, None))
            || (s == State(map[NativeMarker := "genesis"], 0, true, true) && l == Lineage(Native, None))
            || (exists text, r :: Holds(c, text, r) && s == State(map[MigrationMarker := text], r.height, true, true)
                  && r.height <= latest && (chainId == "" || chainId == c.chainOf(r)) && l == Lineage(Migrated, Some(r)))
            || (exists text, r :: Holds(c, text, r) && s == State(map[ImportedMarker := text], 0, true, true)
                  && l == Lineage(ImportedMigrated, Some(r)))
  {
    if |s.markers| == 1 {
      if NativeMarker in s.markers {
        SingleMarker(s.markers, NativeMarker);
      } else if MigrationMarker in s.markers {
        SingleMarker(s.markers, MigrationMarker);
        assert forall r :: ParseReceipt(c, s.markers[MigrationMarker]) == Some(r) <==> Holds(c, s.markers[MigrationMarker], r);
      } else if ImportedMarker in s.markers {
        SingleMarker(s.markers, ImportedMarker);
        assert forall r :: ParseReceipt(c, s.markers[ImportedMarker]) == Some(r) <==> Holds(c, s.markers[ImportedMarker], r);
      }
    }
  }

  class Application {
    var state: State

    constructor ()
      ensures state == FRESH
    {
      state := FRESH;
    }

    /** Writes the lineage of a genesis into an unsealed application: a native
        marker, or an imported one with the receipt's text, which is "null" for
        legacy metadata. On a refusal nothing has been written. */
    method InitializeAccountingAuthority(c: Codec, raw: Option<Lineage>) returns (ok: bool)
      modifies this
      ensures ok == (ParseGenesis(c, raw).Some? && Unsealed(old(state)))
      ensures state == if ok then Initialized(c, old(state), ParseGenesis(c, raw).value) else old(state)
    {
      var lineage := ParseGenesis(c, raw);
      if lineage.None? { return false; }
      if !Unsealed(state) { return false; }
      var cache := state.(stakingSafe := true).(govSafe := true);
      var marker, value := NativeMarker, GENESIS;
      if lineage.value.origin != Native {
        marker := ImportedMarker;
        value := ReceiptText(c, lineage.value.receipt);
      }
      cache := cache.(markers := cache.markers[marker := value]);
      state := cache;
      return true;
    }

    /** Genesis as a whole: a legacy export is refused first, and so is a genesis
        whose two modules do not both ask for accounting safety. */
    method InitGenesis(c: Codec, g: Genesis) returns (ok: bool)
      modifies this
      ensures ok == Import(c, old(state), g).Some?
      ensures state == if ok then Import(c, old(state), g).value else old(state)
    {
      var lineage := ParseGenesis(c, g.lineage);
      if lineage.None? || lineage.value.origin == Legacy { return false; }
      if g.stakingEnabled.None? || !g.stakingEnabled.value { return false; }
      if g.govEnabled.None? || !g.govEnabled.value { return false; }
      ok := InitializeAccountingAuthority(c, g.lineage);
    }

    /** The named upgrade at its exact boundary: seals an unsealed state with an
        applied receipt, or changes nothing. */
    method ApplyUpgrade(c: Codec, b: Boundary, receipt: Receipt) returns (ok: bool)
      modifies this
      ensures ok == (Unsealed(old(state)) && c.valid(receipt) && AtBoundary(b, receipt))
      ensures state == if ok then Applied(c, old(state), receipt) else old(state)
      ensures ok <==>
        && !old(state).stakingSafe && !old(state).govSafe && old(state).markers == map[] && old(state).done == 0
        && !b.skipped && b.sourceMatches && b.migrated && c.valid(receipt) && receipt.height == b.planHeight
        && b.height == b.planHeight && b.headerHeight == b.planHeight && b.committed + 1 == b.planHeight
      ensures ok ==> state == State(map[MigrationMarker := c.encode(receipt)], b.planHeight, true, true)
    {
      NoMarkers(state);
      if b.height != b.planHeight || b.headerHeight != b.planHeight || b.committed != b.planHeight - 1 { return false; }
      if b.skipped { return false; }
      if !b.sourceMatches || !Unsealed(state) { return false; }
      if !b.migrated { return false; }
      if !c.valid(receipt) || receipt.height != b.planHeight { return false; }
      state := State(state.markers[MigrationMarker := c.encode(receipt)], receipt.height, true, true);
      return true;
    }
  }

  /** What a genesis says of accounting; a flag is None when its module's part
      does not decode. */
  datatype Genesis = Genesis(lineage: Option<Lineage>, stakingEnabled: Option<bool>, govEnabled: Option<bool>)

  /** Where the upgrade runs, and what its source validation (identity, version
      maps, plan commitment) and the migrations said. */
  datatype Boundary = Boundary(planHeight: int, height: int, headerHeight: int, committed: int, skipped: bool, sourceMatches: bool, migrated: bool)

  predicate AtBoundary(b: Boundary, r: Receipt) {
    && b.height == b.headerHeight == b.planHeight == r.height && b.committed == b.planHeight - 1
    && !b.skipped && b.sourceMatches && b.migrated
  }

  function ReceiptText(c: Codec, receipt: Option<Receipt>): string {
    if receipt.None? then "null" else c.encode(receipt.value)
  }

  function Initialized(c: Codec, s: State, l: Lineage): State {
    var (marker, value) := if l.origin == Native then (NativeMarker, GENESIS) else (ImportedMarker, ReceiptText(c, l.receipt));
    State(s.markers[marker := value], s.done, true, true)
  }

  function Import(c: Codec, s: State, g: Genesis): Option<State> {
    var l := ParseGenesis(c, g.lineage);
    if l.None? || l.value.origin == Legacy || g.stakingEnabled != Some(true) || g.govEnabled != Some(true) || !Unsealed(s) then None
    else Some(Initialized(c, s, l.value))
  }

  function Applied(c: Codec, s: State, r: Receipt): State {
    State(s.markers[MigrationMarker := c.encode(r)], r.height, true, true)
  }

  lemma {:induction false} NoMarkers(s: State)
    ensures s.markers == map[] <==> NativeMarker !in s.markers && MigrationMarker !in s.markers && ImportedMarker !in s.markers
  {
    if s.markers != map[] {
      assert s.markers.Keys != {};
      var m :| m in s.markers.Keys;
      assert m == NativeMarker || m == MigrationMarker || m == ImportedMarker;
    }
  }

  /** When a genesis can be imported, and what it leaves: nothing sealed before,
      both modules asking for safety, and metadata that is absent, native without
      a receipt, or of a migration with a valid one. */
  lemma {:induction false} ImportExactly(c: Codec, s: State, g: Genesis)
    ensures Import(c, s, g).Some? <==>
            && s == State(map[], 0, false, false)
            && g.stakingEnabled.Some? && g.stakingEnabled.value && g.govEnabled.Some? && g.govEnabled.value
            && (g.lineage.Some? ==>
                  var l := g.lineage.value;
                  || (l.origin == Native && l.receipt.None?)
                  || ((l.origin == Migrated || l.origin == ImportedMigrated) && l.receipt.Some? && c.valid(l.receipt.value)))
    ensures Import(c, s, g).Some? ==>
            Import(c, s, g).value ==
            State(if g.lineage.None? || g.lineage.value.origin == Native then map[NativeMarker := "genesis"]
                  else map[ImportedMarker := c.encode(g.lineage.value.receipt.value)], 0, true, true)
  {
    NoMarkers(s);
  }

  /** Legacy metadata reaches the marker only past the selection check, and what
      it leaves can never be exported: "null" is no receipt. */
  lemma {:induction false} LegacyMarkerUnreadable(c: Codec, latest: int, chainId: string)
    requires c.decode("null").Some? ==> !c.valid(c.decode("null").value)
    ensures Metadata(c, Initialized(c, FRESH, Lineage(Legacy, None)), latest, chainId) == None
  {
  }

  // ---- runs ----

  /** An accounting state is untouched, or sealed by exactly one valid marker. */
  ghost predicate Consistent(c: Codec, s: State) {
    || s == FRESH
    || (s == State(map[NativeMarker := GENESIS], 0, true, true))
    || (exists r :: c.valid(r) && s == State(map[MigrationMarker := c.encode(r)], r.height, true, true))
    || (exists r :: c.valid(r) && s == State(map[ImportedMarker := c.encode(r)], 0, true, true))
  }

  /** What may happen to a chain: the named upgrade, genesis initialisation, or
      an export at some height followed by an import into a fresh database. */
  datatype Event = Upgrade(boundary: Boundary, receipt: Receipt) | Start(genesis: Genesis) | Cycle(latest: int, chainId: string)

  function Next(c: Codec, s: State, e: Event): State {
    match e
    case Upgrade(b, r) => if Unsealed(s) && c.valid(r) && AtBoundary(b, r) then Applied(c, s, r) else s
    case Start(g) => if Import(c, s, g).Some? then Import(c, s, g).value else s
    case Cycle(latest, chainId) =>
      match Metadata(c, s, latest, chainId)
      case None => s
      case Some(l) =>
        var g := Genesis(Some(l), Some(s.stakingSafe), Some(s.govSafe));
        if Import(c, FRESH, g).Some? then Import(c, FRESH, g).value else s
  }

  function Run(c: Codec, s: State, events: seq<Event>): State {
    if events == [] then s else Next(c, Run(c, s, events[..|events| - 1]), events[|events| - 1])
  }

  lemma {:induction false} ReceiptRoundTrip(c: Codec, r: Receipt)
    requires Faithful(c) && c.valid(r)
    ensures ParseReceipt(c, c.encode(r)) == Some(r)
  {
  }

  lemma {:induction false} NextConsistent(c: Codec, s: State, e: Event)
    requires Faithful(c) && Consistent(c, s)
    ensures Consistent(c, Next(c, s, e))
    ensures Sealed(s) ==> Sealed(Next(c, s, e)) && !Unsealed(Next(c, s, e))
  {
    if e.Cycle? {
      if s == FRESH {
      } else if s == State(map[NativeMarker := GENESIS], 0, true, true) {
      } else if r :| c.valid(r) && s == State(map[MigrationMarker := c.encode(r)], r.height, true, true) {
        ReceiptRoundTrip(c, r);
      } else {
        var r :| c.valid(r) && s == State(map[ImportedMarker := c.encode(r)], 0, true, true);
        ReceiptRoundTrip(c, r);
      }
    }
  }

  /** Every reachable state is untouched or carries exactly one of the native,
      applied and imported markers, with both safety switches on. */
  lemma {:induction false} ReachableConsistent(c: Codec, events: seq<Event>)
    requires Faithful(c)
    ensures Consistent(c, Run(c, FRESH, events))
    ensures Sealed(Run(c, FRESH, events)) ==> |Run(c, FRESH, events).markers| == 1
  {
    if events != [] {
      ReachableConsistent(c, events[..|events| - 1]);
      NextConsistent(c, Run(c, FRESH, events[..|events| - 1]), events[|events| - 1]);
    }
  }

  /** Once sealed, always sealed: the unsealed check never passes again. */
  lemma {:induction false} SealedForever(c: Codec, s: State, events: seq<Event>)
    requires Faithful(c) && Consistent(c, s) && Sealed(s)
    ensures Consistent(c, Run(c, s, events)) && Sealed(Run(c, s, events)) && !Unsealed(Run(c, s, events))
  {
    if events != [] {
      SealedForever(c, s, events[..|events| - 1]);
      NextConsistent(c, Run(c, s, events[..|events| - 1]), events[|events| - 1]);
    }
  }

  /** Native stays native. */
  lemma {:induction false} NativeStaysNative(c: Codec, events: seq<Event>)
    requires Faithful(c)
    ensures var s := State(map[NativeMarker := GENESIS], 0, true, true); Run(c, s, events) == s
  {
    if events != [] {
      NativeStaysNative(c, events[..|events| - 1]);
    }
  }

  /** An imported receipt is carried on unchanged by whatever follows. */
  lemma {:induction false} ImportedStaysImported(c: Codec, r: Receipt, events: seq<Event>)
    requires Faithful(c) && c.valid(r)
    ensures var s := State(map[ImportedMarker := c.encode(r)], 0, true, true); Run(c, s, events) == s
  {
    if events != [] {
      ImportedStaysImported(c, r, events[..|events| - 1]);
      ReceiptRoundTrip(c, r);
    }
  }

  /** An applied receipt stays applied on its own chain, and the first export
      that is imported turns it into the same receipt, imported. */
  lemma {:induction false} AppliedBecomesImported(c: Codec, r: Receipt, events: seq<Event>)
    requires Faithful(c) && c.valid(r)
    ensures var s := State(map[MigrationMarker := c.encode(r)], r.height, true, true);
      Run(c, s, events) == s || Run(c, s, events) == State(map[ImportedMarker := c.encode(r)], 0, true, true)
    ensures var s := State(map[MigrationMarker := c.encode(r)], r.height, true, true);
      Run(c, s, events) == s <==>
        forall i :: 0 <= i < |events| && events[i].Cycle? ==>
          events[i].latest < r.height || (events[i].chainId != "" && events[i].chainId != c.chainOf(r))
  {
    if events != [] {
      AppliedBecomesImported(c, r, events[..|events| - 1]);
      ReceiptRoundTrip(c, r);
    }
  }

  /** No import produces an applied lineage. */
  lemma {:induction false} ImportNeverApplied(c: Codec, s: State, g: Genesis)
    requires Import(c, s, g).Some?
    ensures MigrationMarker !in Import(c, s, g).value.markers && Import(c, s, g).value.done == 0
  {
  }
}
