/** PrepareProposal and ProcessProposal: what a correct proposer offers from a
    state is accepted by every validator replaying it from the same state. */
module Proposal {
  import opened Bytes
  import opened Encoding

  const INJECTION_PREFIX: bytes := [0x00, 0x56, 0x45, 0x58]
  const MAX_INJECTION_BYTES: int := 2 * 1024 * 1024

  datatype DecodeOutcome<+T> = Decoded(tx: T) | Undecodable | DecodePanic

  datatype EncodeOutcome = Encoded(bz: Slice) | EncodeError | EncodePanic

  /** The parts of the application the handlers call. `replay` runs the full
      ante handler on one transaction and returns its verdict and the state it
      leaves behind. `gas` is None for a transaction that declares no gas. */
  datatype App<!S(!new), !T(!new)> = App(
    decode: bytes -> DecodeOutcome<T>,
    encode: T -> EncodeOutcome,
    gas: T -> Option<uint64>,
    replay: (S, bytes, T) -> (bool, S),
    parsesInjection: bytes -> bool)

  /** Decoding undoes encoding, no encoded transaction looks like an injection,
      and a replay that fails leaves the proposal state as it was. */
  ghost predicate Sound<S(!new), T(!new)>(app: App<S, T>) {
    && (forall tx :: app.encode(tx).Encoded? ==>
          app.decode(app.encode(tx).bz) == Decoded(tx) && !IsInjection(app.encode(tx).bz))
    && (forall s, bz, tx :: !app.replay(s, bz, tx).0 ==> app.replay(s, bz, tx).1 == s)
  }

  predicate IsInjection(tx: bytes) {
    |tx| > |INJECTION_PREFIX| && tx[..|INJECTION_PREFIX|] == INJECTION_PREFIX
  }

  // ---- sizes, gas and limits ----

  lemma {:induction false} UvarintShort(n: nat)
    ensures |Uvarint(n)| <= 1 + n / 128
  {
    if n >= 128 {
      UvarintShort(n / 128);
    }
  }

  /** Size of one transaction in a block's protobuf data: tag, length, bytes. */
  function ProtoSize(tx: Slice): (r: uint64)
    ensures |tx| < r < TWO_63
  {
    UvarintShort(|tx|);
    1 + |Uvarint(|tx|)| + |tx|
  }

  function Add64(a: uint64, b: uint64): uint64 {
    (a + b) % TWO_64
  }

  /** `MaxGas` of the block parameters: absent, negative (no limit) or a bound. */
  function BlockGasLimit(maxGas: Option<int64>): (uint64, bool) {
    if maxGas.None? || maxGas.value < 0 then (0, false) else (maxGas.value, true)
  }

  datatype Limits = Limits(maxTxBytes: uint64, maxBlockGas: uint64, gasLimited: bool)

  predicate LimitsFit(lim: Limits) {
    lim.maxTxBytes < TWO_63 && lim.maxBlockGas < TWO_63 && (!lim.gasLimited ==> lim.maxBlockGas == 0)
  }

  function MakeLimits(maxTxBytes: int64, maxGas: Option<int64>): (lim: Limits)
    ensures LimitsFit(lim)
  {
    var (gas, limited) := BlockGasLimit(maxGas);
    Limits(if maxTxBytes > 0 then maxTxBytes else 0, gas, limited)
  }

  predicate ProposalTxFits(selectedBytes: uint64, selectedGas: uint64, txSize: uint64, txGas: uint64, lim: Limits) {
    && Add64(txSize, selectedBytes) <= lim.maxTxBytes
    && (lim.maxBlockGas == 0 || Add64(txGas, selectedGas) <= lim.maxBlockGas)
  }

  /** The totals the proposer works with never wrap, so its wrapping test is
      the natural-number one. */
  lemma {:induction false} FitsIsExact(selectedBytes: uint64, selectedGas: uint64, tx: Slice, txGas: uint64, lim: Limits)
    requires LimitsFit(lim) && selectedBytes <= lim.maxTxBytes
    requires lim.gasLimited ==> txGas <= lim.maxBlockGas && selectedGas <= lim.maxBlockGas
    ensures ProposalTxFits(selectedBytes, selectedGas, ProtoSize(tx), txGas, lim) <==>
            && ProtoSize(tx) + selectedBytes <= lim.maxTxBytes
            && (lim.maxBlockGas == 0 || txGas + selectedGas <= lim.maxBlockGas)
  {
  }

  function AddProposalTxGas(total: uint64, txGas: uint64, max: uint64): Option<uint64> {
    if total > max || txGas > max - total then None else Some(total + txGas)
  }

  /** The validator's subtraction test over a whole block. */
  predicate GasAdmitted(gases: seq<uint64>, total: uint64, max: uint64) {
    gases == [] ||
    (AddProposalTxGas(total, gases[0], max).Some? &&
     GasAdmitted(gases[1..], AddProposalTxGas(total, gases[0], max).value, max))
  }

  function Sum(gases: seq<uint64>): nat {
    if gases == [] then 0 else gases[0] + Sum(gases[1..])
  }

  /** It admits exactly the blocks all of whose prefixes stay within the limit
      in natural numbers, so nothing wraps however large the declarations. */
  lemma {:induction false} GasAdmittedIsPrefixSums(gases: seq<uint64>, total: uint64, max: uint64)
    requires total <= max
    ensures GasAdmitted(gases, total, max) <==> forall k :: 0 <= k <= |gases| ==> total + Sum(gases[..k]) <= max
  {
    if gases != [] {
      var rest := gases[1..];
      forall k | 0 < k <= |gases|
        ensures Sum(gases[..k]) == gases[0] + Sum(rest[..k - 1])
      {
        assert gases[..k][1..] == rest[..k - 1];
      }
      if total + gases[0] <= max {
        GasAdmittedIsPrefixSums(rest, total + gases[0], max);
        if GasAdmitted(gases, total, max) {
          forall k | 0 <= k <= |gases|
            ensures total + Sum(gases[..k]) <= max
          {
            if k > 0 { assert (total + gases[0]) + Sum(rest[..k - 1]) <= max; }
          }
        }
        if forall k :: 0 <= k <= |gases| ==> total + Sum(gases[..k]) <= max {
          forall k | 0 <= k <= |rest|
            ensures total + gases[0] + Sum(rest[..k]) <= max
          {
            assert total + Sum(gases[..k + 1]) <= max;
          }
        }
      } else {
        assert Sum(gases[..1]) == gases[0] + Sum(rest[..0]);
      }
    }
  }

  // ---- what a validator accepts ----

  /** ProcessProposal from position `index` on, in state `s`. */
  predicate Accepted<S(!new), T(!new)>(app: App<S, T>, latch: bool, lim: Limits, txs: seq<bytes>, index: nat, s: S, total: uint64)
    decreases |txs|
  {
    if txs == [] then true
    else if IsInjection(txs[0]) then
      && latch && index == 0 && |txs[0]| <= MAX_INJECTION_BYTES && app.parsesInjection(txs[0][4..])
      && Accepted(app, latch, lim, txs[1..], index + 1, s, total)
    else
      match app.decode(txs[0])
      case Undecodable => false
      case DecodePanic => false
      case Decoded(tx) =>
        var (passed, s') := app.replay(s, txs[0], tx);
        && passed
        && if app.gas(tx).Some? && lim.gasLimited then
             && AddProposalTxGas(total, app.gas(tx).value, lim.maxBlockGas).Some?
             && Accepted(app, latch, lim, txs[1..], index + 1, s',
                         AddProposalTxGas(total, app.gas(tx).value, lim.maxBlockGas).value)
           else Accepted(app, latch, lim, txs[1..], index + 1, s', total)
  }

  // ---- the same, transaction by transaction ----

  /** The state that the replays of some transactions leave, injections aside. */
  function Replayed<S(!new), T(!new)>(app: App<S, T>, txs: seq<bytes>, s: S): S {
    if txs == [] then s
    else
      var tx := app.decode(txs[0]);
      Replayed(app, txs[1..], if IsInjection(txs[0]) || !tx.Decoded? then s else app.replay(s, txs[0], tx.tx).1)
  }

  /** Gas a block declares: what its transactions declare, injections aside. */
  function DeclaredGas<S(!new), T(!new)>(app: App<S, T>, txs: seq<bytes>): nat {
    if txs == [] then 0
    else
      var tx := app.decode(txs[0]);
      (if IsInjection(txs[0]) || !tx.Decoded? || app.gas(tx.tx).None? then 0 else app.gas(tx.tx).value) + DeclaredGas(app, txs[1..])
  }

  /** One transaction of a block on its own: an injection stands first, behind an
      open latch, within the size bound, and parses; any other transaction
      decodes and passes replay in the state left by those before it. */
  ghost predicate Passes<S(!new), T(!new)>(app: App<S, T>, latch: bool, txs: seq<bytes>, s0: S, k: nat)
    requires k < |txs|
  {
    if exists payload :: payload != [] && txs[k] == [0x00, 0x56, 0x45, 0x58] + payload then
      latch && k == 0 && |txs[k]| <= 2_097_152 && app.parsesInjection(txs[k][4..])
    else
      var tx := app.decode(txs[k]);
      tx.Decoded? && app.replay(Replayed(app, txs[..k], s0), txs[k], tx.tx).0
  }

  /** No prefix of the block declares more gas than the parameters allow. */
  ghost predicate GasRespected<S(!new), T(!new)>(app: App<S, T>, maxGas: Option<int64>, txs: seq<bytes>) {
    maxGas.Some? && maxGas.value >= 0 ==> forall k :: 0 <= k <= |txs| ==> DeclaredGas(app, txs[..k]) <= maxGas.value
  }

  lemma {:induction false} InjectionShape(tx: bytes)
    ensures IsInjection(tx) <==> exists payload :: payload != [] && tx == [0x00, 0x56, 0x45, 0x58] + payload
  {
    if IsInjection(tx) {
      assert tx == tx[..4] + tx[4..];
      assert tx[4..] != [] && tx == [0x00, 0x56, 0x45, 0x58] + tx[4..];
    }
  }

  /** The demands on one transaction, in the state and at the place where it is
      reached. */
  predicate PassesAt<S(!new), T(!new)>(app: App<S, T>, latch: bool, tx: bytes, index: nat, s: S) {
    if IsInjection(tx) then latch && index == 0 && |tx| <= MAX_INJECTION_BYTES && app.parsesInjection(tx[4..])
    else app.decode(tx).Decoded? && app.replay(s, tx, app.decode(tx).tx).0
  }

  ghost predicate AllPass<S(!new), T(!new)>(app: App<S, T>, latch: bool, txs: seq<bytes>, index: nat, s: S) {
    forall k :: 0 <= k < |txs| ==> PassesAt(app, latch, txs[k], index + k, Replayed(app, txs[..k], s))
  }

  ghost predicate GasWithin<S(!new), T(!new)>(app: App<S, T>, lim: Limits, txs: seq<bytes>, total: nat) {
    lim.gasLimited ==> forall k :: 0 <= k <= |txs| ==> total + DeclaredGas(app, txs[..k]) <= lim.maxBlockGas
  }

  /** Both demands on a block are demands on its first transaction and on the
      rest, from the state and the total after the first. */
  lemma {:induction false} FirstAndRest<S(!new), T(!new)>(app: App<S, T>, latch: bool, lim: Limits, txs: seq<bytes>, index: nat, s: S, total: nat)
    requires txs != []
    ensures AllPass(app, latch, txs, index, s) <==>
            PassesAt(app, latch, txs[0], index, s) && AllPass(app, latch, txs[1..], index + 1, Replayed(app, txs[..1], s))
    ensures GasWithin(app, lim, txs, total) <==>
            (lim.gasLimited ==> total <= lim.maxBlockGas) && GasWithin(app, lim, txs[1..], total + DeclaredGas(app, txs[..1]))
  {
    var rest := txs[1..];
    assert txs[..1][1..] == [] && txs[..0] == [];
    forall k | 0 <= k <= |rest|
      ensures Replayed(app, txs[..k + 1], s) == Replayed(app, rest[..k], Replayed(app, txs[..1], s))
    {
      assert txs[..k + 1][1..] == rest[..k];
    }
    if AllPass(app, latch, txs, index, s) {
      assert PassesAt(app, latch, txs[0], index + 0, Replayed(app, txs[..0], s));
      forall k | 0 <= k < |rest|
        ensures PassesAt(app, latch, rest[k], index + 1 + k, Replayed(app, rest[..k], Replayed(app, txs[..1], s)))
      {
        assert PassesAt(app, latch, txs[k + 1], index + (k + 1), Replayed(app, txs[..k + 1], s));
      }
    }
    if PassesAt(app, latch, txs[0], index, s) && AllPass(app, latch, rest, index + 1, Replayed(app, txs[..1], s)) {
      forall k | 0 <= k < |txs|
        ensures PassesAt(app, latch, txs[k], index + k, Replayed(app, txs[..k], s))
      {
        if k > 0 {
          assert PassesAt(app, latch, rest[k - 1], index + 1 + (k - 1), Replayed(app, rest[..k - 1], Replayed(app, txs[..1], s)));
        }
      }
    }
    GasFirstAndRest(app, lim, txs, total);
  }

  lemma {:induction false} GasFirstAndRest<S(!new), T(!new)>(app: App<S, T>, lim: Limits, txs: seq<bytes>, total: nat)
    requires txs != []
    ensures GasWithin(app, lim, txs, total) <==>
            (lim.gasLimited ==> total <= lim.maxBlockGas) && GasWithin(app, lim, txs[1..], total + DeclaredGas(app, txs[..1]))
  {
    var rest := txs[1..];
    assert txs[..1][1..] == [] && txs[..0] == [];
    forall k | 0 <= k <= |rest|
      ensures DeclaredGas(app, txs[..k + 1]) == DeclaredGas(app, txs[..1]) + DeclaredGas(app, rest[..k])
    {
      assert txs[..k + 1][1..] == rest[..k];
    }
    if GasWithin(app, lim, txs, total) && lim.gasLimited {
      assert total + DeclaredGas(app, txs[..0]) <= lim.maxBlockGas;
      forall k | 0 <= k <= |rest|
        ensures total + DeclaredGas(app, txs[..1]) + DeclaredGas(app, rest[..k]) <= lim.maxBlockGas
      {
        assert total + DeclaredGas(app, txs[..k + 1]) <= lim.maxBlockGas;
      }
    }
    if lim.gasLimited && total <= lim.maxBlockGas && GasWithin(app, lim, rest, total + DeclaredGas(app, txs[..1])) {
      forall k | 0 <= k <= |txs|
        ensures total + DeclaredGas(app, txs[..k]) <= lim.maxBlockGas
      {
        if k > 0 { assert total + DeclaredGas(app, txs[..1]) + DeclaredGas(app, rest[..k - 1]) <= lim.maxBlockGas; }
      }
    }
  }

  lemma {:induction false} AcceptedFrom<S(!new), T(!new)>(app: App<S, T>, latch: bool, lim: Limits, txs: seq<bytes>, index: nat, s: S, total: uint64)
    requires lim.gasLimited ==> total <= lim.maxBlockGas
    ensures Accepted(app, latch, lim, txs, index, s, total) <==> AllPass(app, latch, txs, index, s) && GasWithin(app, lim, txs, total)
    decreases |txs|
  {
    if txs != [] {
      FirstAndRest(app, latch, lim, txs, index, s, total);
      assert txs[..1][0] == txs[0] && txs[..1][1..] == [];
      if IsInjection(txs[0]) {
        AcceptedFrom(app, latch, lim, txs[1..], index + 1, s, total);
      } else if app.decode(txs[0]).Decoded? {
        var tx := app.decode(txs[0]).tx;
        var s' := app.replay(s, txs[0], tx).1;
        if app.gas(tx).Some? && lim.gasLimited {
          if AddProposalTxGas(total, app.gas(tx).value, lim.maxBlockGas).Some? {
            AcceptedFrom(app, latch, lim, txs[1..], index + 1, s', total + app.gas(tx).value);
          } else {
            assert !GasWithin(app, lim, txs[1..], total + DeclaredGas(app, txs[..1])) by {
              assert txs[1..][..0] == [];
            }
          }
        } else {
          AcceptedFrom(app, latch, lim, txs[1..], index + 1, s', total);
          assert lim.gasLimited ==> DeclaredGas(app, txs[..1]) == 0;
        }
      }
    } else {
      assert txs[..0] == [];
    }
  }

  /** What a validator accepts: every transaction passes on its own, and no
      prefix of the block declares more gas than allowed. */
  lemma {:induction false} AcceptedExactly<S(!new), T(!new)>(app: App<S, T>, latch: bool, maxGas: Option<int64>, txs: seq<bytes>, s0: S)
    ensures Accepted(app, latch, MakeLimits(0, maxGas), txs, 0, s0, 0) <==>
            (forall k :: 0 <= k < |txs| ==> Passes(app, latch, txs, s0, k)) && GasRespected(app, maxGas, txs)
  {
    var lim := MakeLimits(0, maxGas);
    AcceptedFrom(app, latch, lim, txs, 0, s0, 0);
    forall k | 0 <= k < |txs|
      ensures Passes(app, latch, txs, s0, k) <==> PassesAt(app, latch, txs[k], 0 + k, Replayed(app, txs[..k], s0))
    {
      InjectionShape(txs[k]);
    }
  }

  method ProcessProposal<S(!new), T(!new)>(app: App<S, T>, latch: bool, maxGas: Option<int64>, txs: seq<bytes>, s0: S)
    returns (accept: bool)
    ensures accept == Accepted(app, latch, MakeLimits(0, maxGas), txs, 0, s0, 0)
    ensures accept <==> (forall k :: 0 <= k < |txs| ==> Passes(app, latch, txs, s0, k)) && GasRespected(app, maxGas, txs)
  {
    var (maxBlockGas, blockGasLimited) := BlockGasLimit(maxGas);
    ghost var lim := MakeLimits(0, maxGas);
    AcceptedExactly(app, latch, maxGas, txs, s0);
    var totalTxGas: uint64 := 0;
    var s := s0;
    for i := 0 to |txs|
      invariant Accepted(app, latch, lim, txs, 0, s0, 0) == Accepted(app, latch, lim, txs[i..], i, s, totalTxGas)
    {
      var txBytes := txs[i];
      assert txs[i..][0] == txBytes && txs[i..][1..] == txs[i + 1..];
      if IsInjection(txBytes) {
        if !latch { return false; }
        if i != 0 { return false; }
        if |txBytes| > MAX_INJECTION_BYTES { return false; }
        if !app.parsesInjection(txBytes[4..]) { return false; }
      } else {
        var decoding := app.decode(txBytes);
        if !decoding.Decoded? { return false; }
        var verdict := app.replay(s, txBytes, decoding.tx);
        if !verdict.0 { return false; }
        s := verdict.1;
        var gas := app.gas(decoding.tx);
        if gas.Some? && blockGasLimited {
          var updated := AddProposalTxGas(totalTxGas, gas.value, maxBlockGas);
          if updated.None? { return false; }
          totalTxGas := updated.value;
        }
      }
    }
    return true;
  }

  // ---- what a proposer offers ----

  /** The SDK's default transaction selector. */
  class DefaultTxSelector {
    var totalTxBytes: uint64
    var totalTxGas: uint64
    var selectedTxs: seq<bytes>

    constructor ()
      ensures totalTxBytes == 0 && totalTxGas == 0 && selectedTxs == []
    {
      totalTxBytes, totalTxGas, selectedTxs := 0, 0, [];
    }

    method SelectTxForProposal(lim: Limits, txGas: uint64, txBz: Slice) returns (full: bool)
      modifies this
      ensures var taken := ProposalTxFits(old(totalTxBytes), old(totalTxGas), ProtoSize(txBz), txGas, lim);
        && selectedTxs == (if taken then old(selectedTxs) + [txBz] else old(selectedTxs))
        && totalTxBytes == (if taken then Add64(ProtoSize(txBz), old(totalTxBytes)) else old(totalTxBytes))
        && totalTxGas == (if taken && lim.maxBlockGas > 0 then Add64(txGas, old(totalTxGas)) else old(totalTxGas))
      ensures full == Full(totalTxBytes, totalTxGas, lim)
    {
      var txSize := ProtoSize(txBz);
      if Add64(txSize, totalTxBytes) <= lim.maxTxBytes {
        if lim.maxBlockGas > 0 {
          if Add64(txGas, totalTxGas) <= lim.maxBlockGas {
            totalTxGas := Add64(totalTxGas, txGas);
            totalTxBytes := Add64(totalTxBytes, txSize);
            selectedTxs := selectedTxs + [txBz];
          }
        } else {
          totalTxBytes := Add64(totalTxBytes, txSize);
          selectedTxs := selectedTxs + [txBz];
        }
      }
      return totalTxBytes >= lim.maxTxBytes || (lim.maxBlockGas > 0 && totalTxGas >= lim.maxBlockGas);
    }
  }

  predicate Full(bytes: uint64, gas: uint64, lim: Limits) {
    bytes >= lim.maxTxBytes || (lim.maxBlockGas > 0 && gas >= lim.maxBlockGas)
  }

  /** Replay of one candidate: the bytes to propose if it passed, and the state
      it leaves. An encoder panic is caught before anything is written. */
  function VerifyCandidate<S(!new), T(!new)>(app: App<S, T>, s: S, tx: T): (Option<Slice>, S) {
    match app.encode(tx)
    case EncodeError => (None, s)
    case EncodePanic => (None, s)
    case Encoded(bz) =>
      var (passed, s') := app.replay(s, bz, tx);
      (if passed then Some(bz) else None, s')
  }

  function TxGas<S(!new), T(!new)>(app: App<S, T>, tx: T): uint64 {
    if app.gas(tx).Some? then app.gas(tx).value else 0
  }

  /** What happens to the first candidate, given the totals selected so far. */
  datatype Step<+S> = Leave | Omit(after: S) | Offer(bz: Slice, gas: uint64, after: S) | Stop | Panic

  function Consider<S(!new), T(!new)>(app: App<S, T>, lim: Limits, txBytes: Slice, s: S, bytes: uint64, gas: uint64): Step<S> {
    match app.decode(txBytes)
    case Undecodable => Leave
    case DecodePanic => Panic
    case Decoded(tx) =>
      var txGas := TxGas(app, tx);
      if app.gas(tx).Some? && lim.gasLimited && txGas > lim.maxBlockGas then Leave
      else if !ProposalTxFits(bytes, gas, ProtoSize(txBytes), txGas, lim) then Leave
      else
        var (proposed, s') := VerifyCandidate(app, s, tx);
        if proposed.None? then Omit(s')
        else if !ProposalTxFits(bytes, gas, ProtoSize(proposed.value), txGas, lim) then Stop
        else Offer(proposed.value, txGas, s')
  }

  /** The regular transactions offered from `candidates`, or None when a panic
      outside a candidate's replay empties the proposal. */
  function Select<S(!new), T(!new)>(app: App<S, T>, lim: Limits, candidates: seq<Slice>, s: S, bytes: uint64, gas: uint64, full: bool)
    : (r: Option<seq<Slice>>)
    decreases |candidates|
  {
    if candidates == [] || full then Some([]) else
    match Consider(app, lim, candidates[0], s, bytes, gas)
    case Leave => Select(app, lim, candidates[1..], s, bytes, gas, full)
    case Panic => None
    case Stop => Some([])
    case Omit(s') => Select(app, lim, candidates[1..], s', bytes, gas, full)
    case Offer(bz, txGas, s') =>
      var bytes' := Add64(bytes, ProtoSize(bz));
      var gas' := if lim.maxBlockGas > 0 then Add64(gas, txGas) else gas;
      match Select(app, lim, candidates[1..], s', bytes', gas', Full(bytes', gas', lim))
      case None => None
      case Some(rest) => Some([bz] + rest)
  }

  /** The vote-extension payload of the previous block, if any. */
  datatype Injection = NoInjection | EncodingFailed | Payload(json: Slice)

  function InjectionTx(latch: bool, injection: Injection, lim: Limits): seq<Slice> {
    if latch && injection.Payload? && 4 + |injection.json| <= MAX_INJECTION_BYTES
       && ProposalTxFits(0, 0, ProtoSize(INJECTION_PREFIX + injection.json), 0, lim)
    then [INJECTION_PREFIX + injection.json] else []
  }

  function InjectionAttempted(latch: bool, injection: Injection): bool {
    latch && injection.Payload? && 4 + |injection.json| <= MAX_INJECTION_BYTES
  }

  /** The whole proposal. */
  function Offered<S(!new), T(!new)>(app: App<S, T>, latch: bool, injection: Injection, lim: Limits, candidates: seq<Slice>, s: S): seq<Slice> {
    var first := InjectionTx(latch, injection, lim);
    var bytes := if first == [] then 0 else ProtoSize(first[0]);
    var full := InjectionAttempted(latch, injection) && Full(bytes, 0, lim);
    match Select(app, lim, candidates, s, bytes, 0, full)
    case None => []
    case Some(rest) => first + rest
  }

  /** The candidate loop. The proposer's own byte and gas counters agree with
      the selector's totals at every iteration. */
  method SelectCandidates<S(!new), T(!new)>(app: App<S, T>, lim: Limits, selector: DefaultTxSelector, candidates: seq<Slice>,
                                            s0: S, bytes0: uint64, full0: bool)
    returns (panicked: bool)
    requires selector.totalTxBytes == bytes0 && selector.totalTxGas == 0
    modifies selector
    ensures var spec := Select(app, lim, candidates, s0, bytes0, 0, full0);
      && (panicked <==> spec.None?)
      && (!panicked ==> selector.selectedTxs == old(selector.selectedTxs) + spec.value)
  {
    ghost var first := selector.selectedTxs;
    var selectedBytes: uint64, selectedGas: uint64, proposalFull := bytes0, 0, full0;
    ghost var spec := Select(app, lim, candidates, s0, selectedBytes, selectedGas, proposalFull);
    ghost var chosen: seq<Slice> := [];
    var s := s0;
    PrependNothing(spec);
    assert candidates[0..] == candidates;
    for i := 0 to |candidates|
      invariant selectedBytes == selector.totalTxBytes && selectedGas == selector.totalTxGas
      invariant selector.selectedTxs == first + chosen
      invariant spec == Prepend(chosen, Select(app, lim, candidates[i..], s, selectedBytes, selectedGas, proposalFull))
    {
      if proposalFull {
        break;
      }
      var txBytes := candidates[i];
      assert candidates[i..][0] == txBytes && candidates[i..][1..] == candidates[i + 1..];
      var decoding := app.decode(txBytes);
      if decoding.DecodePanic? { return true; }
      if decoding.Undecodable? { continue; }
      var tx := decoding.tx;
      var txGas := 0;
      if app.gas(tx).Some? {
        txGas := app.gas(tx).value;
        if lim.gasLimited && txGas > lim.maxBlockGas { continue; }
      }
      if !ProposalTxFits(selectedBytes, selectedGas, ProtoSize(txBytes), txGas, lim) { continue; }
      var (proposed, s') := VerifyCandidate(app, s, tx);
      s := s';
      if proposed.None? { continue; }
      var proposedSize := ProtoSize(proposed.value);
      if !ProposalTxFits(selectedBytes, selectedGas, proposedSize, txGas, lim) {
        break;
      }
      proposalFull := selector.SelectTxForProposal(lim, txGas, proposed.value);
      selectedBytes := Add64(selectedBytes, proposedSize);
      if lim.maxBlockGas > 0 {
        selectedGas := Add64(selectedGas, txGas);
      }
      PrependTwice(chosen, proposed.value, Select(app, lim, candidates[i + 1..], s, selectedBytes, selectedGas, proposalFull));
      chosen := chosen + [proposed.value];
    }
    assert chosen + [] == chosen;
    return false;
  }

  method PrepareProposal<S(!new), T(!new)>(app: App<S, T>, latch: bool, injection: Injection, maxTxBytes: int64,
                                           maxGas: Option<int64>, candidates: seq<Slice>, s0: S)
    returns (txs: seq<bytes>)
    ensures txs == Offered(app, latch, injection, MakeLimits(maxTxBytes, maxGas), candidates, s0)
    ensures Sound(app) ==>
      forall stages ::
      var room := RoomOf(maxTxBytes, maxGas);
      Stages(app, room, SizeSum(Injected(latch, injection, room)), candidates, s0, stages) ==>
        IsBlock(app, latch, injection, room, candidates, s0, stages, txs)
  {
    var lim := MakeLimits(maxTxBytes, maxGas);
    var selector := new DefaultTxSelector();
    var proposalFull := false;
    if latch && injection.Payload? {
      var injBytes := INJECTION_PREFIX + injection.json;
      if |injBytes| <= MAX_INJECTION_BYTES {
        proposalFull := selector.SelectTxForProposal(lim, 0, injBytes);
      }
    }
    var first := selector.selectedTxs;
    assert first == InjectionTx(latch, injection, lim);
    var selectedBytes: uint64 := 0;
    if first != [] {
      selectedBytes := ProtoSize(first[0]);
    }
    var panicked := SelectCandidates(app, lim, selector, candidates, s0, selectedBytes, proposalFull);
    txs := if panicked then [] else selector.selectedTxs;
    if Sound(app) {
      ghost var room := RoomOf(maxTxBytes, maxGas);
      forall stages | Stages(app, room, SizeSum(Injected(latch, injection, room)), candidates, s0, stages)
        ensures IsBlock(app, latch, injection, room, candidates, s0, stages, txs)
      {
        OfferedExactly(app, latch, injection, maxTxBytes, maxGas, candidates, s0, stages);
      }
    }
  }

  function Prepend(head: seq<Slice>, tail: Option<seq<Slice>>): Option<seq<Slice>> {
    match tail
    case None => None
    case Some(rest) => Some(head + rest)
  }

  lemma {:induction false} PrependNothing(tail: Option<seq<Slice>>)
    ensures Prepend([], tail) == tail
  {
    if tail.Some? { assert [] + tail.value == tail.value; }
  }

  lemma {:induction false} PrependTwice(head: seq<Slice>, one: Slice, tail: Option<seq<Slice>>)
    ensures Prepend(head + [one], tail) == Prepend(head, Prepend([one], tail))
  {
    if tail.Some? { Regroup(head, [one], tail.value); }
  }

  // ---- coherence ----

  /** The state of the validator's gas counter when the proposer stands at
      `bytes` and `gas`. */
  predicate InStep(lim: Limits, bytes: uint64, gas: uint64, total: uint64) {
    && LimitsFit(lim) && bytes < TWO_63
    && (lim.gasLimited ==> total == gas && gas <= lim.maxBlockGas)
  }

  lemma {:induction false} OfferFacts<S(!new), T(!new)>(
      app: App<S, T>, lim: Limits, txBytes: Slice, s: S, bytes: uint64, gas: uint64, total: uint64)
    requires InStep(lim, bytes, gas, total) && bytes <= lim.maxTxBytes
    requires Consider(app, lim, txBytes, s, bytes, gas).Offer?
    ensures var offer := Consider(app, lim, txBytes, s, bytes, gas);
      && app.decode(txBytes).Decoded?
      && var tx := app.decode(txBytes).tx;
      && app.encode(tx) == Encoded(offer.bz)
      && app.replay(s, offer.bz, tx) == (true, offer.after)
      && offer.gas == TxGas(app, tx)
      && ProtoSize(offer.bz) + bytes <= lim.maxTxBytes
      && (lim.gasLimited ==> gas + offer.gas <= lim.maxBlockGas)
      && Add64(bytes, ProtoSize(offer.bz)) == bytes + ProtoSize(offer.bz)
      && (lim.maxBlockGas > 0 ==> Add64(gas, offer.gas) == gas + offer.gas)
      && (lim.gasLimited && lim.maxBlockGas == 0 ==> offer.gas == 0)
  {
    var offer := Consider(app, lim, txBytes, s, bytes, gas);
    FitsIsExact(bytes, gas, offer.bz, offer.gas, lim);
  }

  /** Everything selected from the candidates is accepted from the same state
      by a validator whose gas counter is in step. */
  lemma {:induction false} SelectionAccepted<S(!new), T(!new)>(
      app: App<S, T>, latch: bool, lim: Limits, candidates: seq<Slice>, s: S,
      bytes: uint64, gas: uint64, full: bool, index: nat, total: uint64)
    requires Sound(app) && InStep(lim, bytes, gas, total) && bytes <= lim.maxTxBytes
    requires Select(app, lim, candidates, s, bytes, gas, full).Some?
    ensures Accepted(app, latch, lim, Select(app, lim, candidates, s, bytes, gas, full).value, index, s, total)
    decreases |candidates|
  {
    if candidates != [] && !full {
      match Consider(app, lim, candidates[0], s, bytes, gas)
      case Leave => SelectionAccepted(app, latch, lim, candidates[1..], s, bytes, gas, full, index, total);
      case Omit(s') => SelectionAccepted(app, latch, lim, candidates[1..], s', bytes, gas, full, index, total);
      case Stop =>
      case Panic =>
      case Offer(bz, txGas, s') =>
        var tx := app.decode(candidates[0]).tx;
        OfferFacts(app, lim, candidates[0], s, bytes, gas, total);
        var bytes' := Add64(bytes, ProtoSize(bz));
        var gas' := if lim.maxBlockGas > 0 then Add64(gas, txGas) else gas;
        var total' := if app.gas(tx).Some? && lim.gasLimited then total + txGas else total;
        SelectionAccepted(app, latch, lim, candidates[1..], s', bytes', gas', Full(bytes', gas', lim), index + 1, total');
        var chosen := Select(app, lim, candidates, s, bytes, gas, full).value;
        assert chosen[0] == bz && chosen[1..] == Select(app, lim, candidates[1..], s', bytes', gas', Full(bytes', gas', lim)).value;
    }
  }

  /** Proposal coherence: a correct proposer's block is accepted, for every
      candidate list, start state, limit and both settings of the latch. */
  lemma {:induction false} ProposalCoherence<S(!new), T(!new)>(
      app: App<S, T>, latch: bool, injection: Injection, maxTxBytes: int64, maxGas: Option<int64>, candidates: seq<Slice>, s0: S)
    requires Sound(app)
    requires injection.Payload? ==> injection.json != [] && app.parsesInjection(injection.json)
    ensures Accepted(app, latch, MakeLimits(0, maxGas),
                     Offered(app, latch, injection, MakeLimits(maxTxBytes, maxGas), candidates, s0), 0, s0, 0)
  {
    var lim := MakeLimits(maxTxBytes, maxGas);
    var first := InjectionTx(latch, injection, lim);
    var bytes := if first == [] then 0 else ProtoSize(first[0]);
    var full := InjectionAttempted(latch, injection) && Full(bytes, 0, lim);
    var rest := Select(app, lim, candidates, s0, bytes, 0, full);
    if rest.Some? {
      SelectionAccepted(app, latch, lim, candidates, s0, bytes, 0, full, |first|, 0);
      if first != [] {
        assert first[0][..4] == INJECTION_PREFIX && first[0][4..] == injection.json;
        assert (first + rest.value)[1..] == rest.value;
      } else {
        assert first + rest.value == rest.value;
      }
      BytesIrrelevant(app, latch, lim, MakeLimits(0, maxGas), first + rest.value, 0, s0, 0);
    }
  }

  /** A validator does not look at the byte limit. */
  lemma {:induction false} BytesIrrelevant<S(!new), T(!new)>(app: App<S, T>, latch: bool, a: Limits, b: Limits, txs: seq<bytes>, index: nat, s: S, total: uint64)
    requires a.maxBlockGas == b.maxBlockGas && a.gasLimited == b.gasLimited
    ensures Accepted(app, latch, a, txs, index, s, total) == Accepted(app, latch, b, txs, index, s, total)
    decreases |txs|
  {
    if txs != [] {
      if IsInjection(txs[0]) {
        BytesIrrelevant(app, latch, a, b, txs[1..], index + 1, s, total);
      } else if app.decode(txs[0]).Decoded? {
        var tx := app.decode(txs[0]).tx;
        var s' := app.replay(s, txs[0], tx).1;
        BytesIrrelevant(app, latch, a, b, txs[1..], index + 1, s', total);
        if app.gas(tx).Some? && AddProposalTxGas(total, app.gas(tx).value, a.maxBlockGas).Some? {
          BytesIrrelevant(app, latch, a, b, txs[1..], index + 1, s', total + app.gas(tx).value);
        }
      }
    }
  }

  // ---- what is offered ----

  function SizeSum(txs: seq<Slice>): nat {
    if txs == [] then 0 else ProtoSize(txs[0]) + SizeSum(txs[1..])
  }

  /** Declared gas of a transaction as a validator decodes it. */
  function GasOf<S(!new), T(!new)>(app: App<S, T>, bz: bytes): uint64 {
    match app.decode(bz) case Decoded(tx) => TxGas(app, tx) case _ => 0
  }

  function GasSum<S(!new), T(!new)>(app: App<S, T>, txs: seq<Slice>): nat {
    if txs == [] then 0 else GasOf(app, txs[0]) + GasSum(app, txs[1..])
  }

  /** `chosen` is a sublist of `candidates`, in order, each one re-encoded. */
  predicate ReencodedSublist<S(!new), T(!new)>(app: App<S, T>, chosen: seq<Slice>, candidates: seq<Slice>)
    decreases |candidates|
  {
    chosen == [] ||
    (candidates != [] &&
     (|| ReencodedSublist(app, chosen, candidates[1..])
      || (&& app.decode(candidates[0]).Decoded?
          && app.encode(app.decode(candidates[0]).tx) == Encoded(chosen[0])
          && ReencodedSublist(app, chosen[1..], candidates[1..]))))
  }

  /** The selection keeps the candidates' order, and its natural-number byte
      and gas sums respect both limits. */
  lemma {:induction false} SelectionWithinLimits<S(!new), T(!new)>(
      app: App<S, T>, lim: Limits, candidates: seq<Slice>, s: S, bytes: uint64, gas: uint64, full: bool)
    requires Sound(app) && InStep(lim, bytes, gas, gas) && bytes <= lim.maxTxBytes
    requires Select(app, lim, candidates, s, bytes, gas, full).Some?
    ensures var chosen := Select(app, lim, candidates, s, bytes, gas, full).value;
      && ReencodedSublist(app, chosen, candidates)
      && bytes + SizeSum(chosen) <= lim.maxTxBytes
      && (lim.gasLimited ==> gas + GasSum(app, chosen) <= lim.maxBlockGas)
    decreases |candidates|
  {
    if candidates != [] && !full {
      match Consider(app, lim, candidates[0], s, bytes, gas)
      case Leave => SelectionWithinLimits(app, lim, candidates[1..], s, bytes, gas, full);
      case Omit(s') => SelectionWithinLimits(app, lim, candidates[1..], s', bytes, gas, full);
      case Stop =>
      case Panic =>
      case Offer(bz, txGas, s') =>
        OfferFacts(app, lim, candidates[0], s, bytes, gas, gas);
        var bytes' := Add64(bytes, ProtoSize(bz));
        var gas' := if lim.maxBlockGas > 0 then Add64(gas, txGas) else gas;
        SelectionWithinLimits(app, lim, candidates[1..], s', bytes', gas', Full(bytes', gas', lim));
        var chosen := Select(app, lim, candidates, s, bytes, gas, full).value;
        assert chosen[0] == bz && chosen[1..] == Select(app, lim, candidates[1..], s', bytes', gas', Full(bytes', gas', lim)).value;
    }
  }

  lemma {:induction false} SizeSumAppend(first: seq<Slice>, rest: seq<Slice>)
    requires |first| <= 1
    ensures SizeSum(first + rest) == (if first == [] then 0 else ProtoSize(first[0])) + SizeSum(rest)
  {
    if first == [] {
      assert first + rest == rest;
    } else {
      assert (first + rest)[0] == first[0] && (first + rest)[1..] == rest;
    }
  }

  /** The whole proposal, injection included, is within the byte limit, and its
      regular transactions are an in-order re-encoding of candidates within the
      gas limit; the injection declares no gas. */
  lemma {:induction false} OfferedWithinLimits<S(!new), T(!new)>(
      app: App<S, T>, latch: bool, injection: Injection, maxTxBytes: int64, maxGas: Option<int64>, candidates: seq<Slice>, s0: S)
    requires Sound(app)
    ensures var lim := MakeLimits(maxTxBytes, maxGas);
      var txs := Offered(app, latch, injection, lim, candidates, s0);
      var first := InjectionTx(latch, injection, lim);
      && SizeSum(txs) <= lim.maxTxBytes
      && (txs == [] ||
          (&& first <= txs
           && ReencodedSublist(app, txs[|first|..], candidates)
           && (lim.gasLimited ==> GasSum(app, txs[|first|..]) <= lim.maxBlockGas)))
  {
    var lim := MakeLimits(maxTxBytes, maxGas);
    var first := InjectionTx(latch, injection, lim);
    var bytes := if first == [] then 0 else ProtoSize(first[0]);
    var full := InjectionAttempted(latch, injection) && Full(bytes, 0, lim);
    var rest := Select(app, lim, candidates, s0, bytes, 0, full);
    if rest.Some? {
      SelectionWithinLimits(app, lim, candidates, s0, bytes, 0, full);
      SizeSumAppend(first, rest.value);
      assert (first + rest.value)[|first|..] == rest.value;
    }
  }

  // ---- nothing that could be offered is left out ----

  /** What a block may hold: bytes, and gas if it is limited. */
  datatype Room = Room(bytes: nat, gas: Option<nat>)

  function RoomOf(maxTxBytes: int64, maxGas: Option<int64>): Room {
    Room(if maxTxBytes > 0 then maxTxBytes else 0, if maxGas.Some? && maxGas.value >= 0 then Some(maxGas.value) else None)
  }

  /** Where the proposer stands before a candidate: the transactions chosen, the
      state the replays left, and whether it has given up. */
  datatype Stage<+S> = Stage(chosen: seq<Slice>, state: S, stopped: bool)

  /** There is room for something: below the byte limit, and below a gas limit
      other than zero. */
  predicate Open<S(!new), T(!new)>(app: App<S, T>, room: Room, used: nat, at: Stage<S>) {
    && !at.stopped && used + SizeSum(at.chosen) < room.bytes
    && (room.gas.Some? && room.gas.value > 0 ==> GasSum(app, at.chosen) < room.gas.value)
  }

  /** What was chosen, and one more transaction, is within both limits. */
  predicate Holds<S(!new), T(!new)>(app: App<S, T>, room: Room, used: nat, at: Stage<S>, tx: Slice, gas: nat) {
    && used + SizeSum(at.chosen) + ProtoSize(tx) <= room.bytes
    && (room.gas.Some? ==> GasSum(app, at.chosen) + gas <= room.gas.value)
  }

  /** The candidate is replayed: it decodes, fits as it came, and re-encodes. */
  predicate Tried<S(!new), T(!new)>(app: App<S, T>, room: Room, used: nat, at: Stage<S>, candidate: Slice) {
    && Open(app, room, used, at) && app.decode(candidate).Decoded?
    && var tx := app.decode(candidate).tx;
    && Holds(app, room, used, at, candidate, TxGas(app, tx)) && app.encode(tx).Encoded?
  }

  /** It also passes replay, and still fits re-encoded. */
  predicate Good<S(!new), T(!new)>(app: App<S, T>, room: Room, used: nat, at: Stage<S>, candidate: Slice) {
    && Tried(app, room, used, at, candidate)
    && var tx := app.decode(candidate).tx;
    && app.replay(at.state, app.encode(tx).bz, tx).0 && Holds(app, room, used, at, app.encode(tx).bz, TxGas(app, tx))
  }

  /** From one candidate to the next: a good one is chosen, one that no longer
      fits re-encoded ends the selection, and any other is left out. */
  ghost predicate Follows<S(!new), T(!new)>(app: App<S, T>, room: Room, used: nat, candidate: Slice, at: Stage<S>, next: Stage<S>) {
    if !Tried(app, room, used, at, candidate) then next == at
    else
      var tx := app.decode(candidate).tx;
      var (passed, after) := app.replay(at.state, app.encode(tx).bz, tx);
      && next.state == after
      && next.chosen == (if Good(app, room, used, at, candidate) then at.chosen + [app.encode(tx).bz] else at.chosen)
      && next.stopped == (passed && !Good(app, room, used, at, candidate))
  }

  ghost predicate Stages<S(!new), T(!new)>(app: App<S, T>, room: Room, used: nat, candidates: seq<Slice>, s0: S, stages: seq<Stage<S>>) {
    && |stages| == |candidates| + 1 && stages[0] == Stage([], s0, false)
    && forall i :: 0 <= i < |candidates| ==> Follows(app, room, used, candidates[i], stages[i], stages[i + 1])
  }

  /** Some candidate that is reached makes the decoder panic. */
  ghost predicate Panics<S(!new), T(!new)>(app: App<S, T>, room: Room, used: nat, candidates: seq<Slice>, stages: seq<Stage<S>>)
    requires |stages| == |candidates| + 1
  {
    exists i :: 0 <= i < |candidates| && Open(app, room, used, stages[i]) && app.decode(candidates[i]).DecodePanic?
  }

  function NextStage<S(!new), T(!new)>(app: App<S, T>, room: Room, used: nat, candidate: Slice, at: Stage<S>): (next: Stage<S>)
    ensures Follows(app, room, used, candidate, at, next)
  {
    if !Tried(app, room, used, at, candidate) then at
    else
      var tx := app.decode(candidate).tx;
      var (passed, after) := app.replay(at.state, app.encode(tx).bz, tx);
      if Good(app, room, used, at, candidate) then Stage(at.chosen + [app.encode(tx).bz], after, false)
      else Stage(at.chosen, after, passed)
  }

  /** The proposer passes through one sequence of stages. */
  lemma {:induction false} StagesExist<S(!new), T(!new)>(app: App<S, T>, room: Room, used: nat, candidates: seq<Slice>, s0: S)
    returns (stages: seq<Stage<S>>)
    ensures Stages(app, room, used, candidates, s0, stages)
  {
    stages := [Stage([], s0, false)];
    for i := 0 to |candidates|
      invariant |stages| == i + 1 && stages[0] == Stage([], s0, false)
      invariant forall j :: 0 <= j < i ==> Follows(app, room, used, candidates[j], stages[j], stages[j + 1])
    {
      stages := stages + [NextStage(app, room, used, candidates[i], stages[i])];
    }
  }

  lemma {:induction false} SumsSnoc<S(!new), T(!new)>(app: App<S, T>, chosen: seq<Slice>, bz: Slice)
    ensures SizeSum(chosen + [bz]) == SizeSum(chosen) + ProtoSize(bz)
    ensures GasSum(app, chosen + [bz]) == GasSum(app, chosen) + GasOf(app, bz)
  {
    if chosen == [] {
      assert chosen + [bz] == [bz] && [bz][1..] == [];
    } else {
      assert (chosen + [bz])[1..] == chosen[1..] + [bz];
      SumsSnoc(app, chosen[1..], bz);
    }
  }

  /** The proposer's counters and its full flag at a stage. */
  ghost predicate CountersAt<S(!new), T(!new)>(app: App<S, T>, room: Room, lim: Limits, used: nat, at: Stage<S>, bytes: uint64, gas: uint64, full: bool) {
    && LimitsFit(lim) && room == Room(lim.maxTxBytes, if lim.gasLimited then Some(lim.maxBlockGas) else None)
    && bytes == used + SizeSum(at.chosen) <= lim.maxTxBytes
    && (lim.gasLimited ==> GasSum(app, at.chosen) <= lim.maxBlockGas)
    && gas == (if lim.maxBlockGas > 0 then GasSum(app, at.chosen) else 0)
    && full == !Open(app, room, used, at.(stopped := false))
  }

  /** In step with a stage, the wrapping fit test is the natural-number one. */
  lemma {:induction false} FitsIsHolds<S(!new), T(!new)>(
      app: App<S, T>, room: Room, lim: Limits, used: nat, at: Stage<S>, bytes: uint64, gas: uint64, tx: Slice, txGas: uint64)
    requires CountersAt(app, room, lim, used, at, bytes, gas, false)
    ensures !(lim.gasLimited && txGas > lim.maxBlockGas) && ProposalTxFits(bytes, gas, ProtoSize(tx), txGas, lim) <==>
            Holds(app, room, used, at, tx, txGas)
  {
    if !(lim.gasLimited && txGas > lim.maxBlockGas) {
      FitsIsExact(bytes, gas, tx, txGas, lim);
    }
  }

  lemma {:induction false} CountersAfter<S(!new), T(!new)>(
      app: App<S, T>, room: Room, lim: Limits, used: nat, at: Stage<S>, bytes: uint64, gas: uint64, bz: Slice, txGas: uint64, next: Stage<S>)
    requires CountersAt(app, room, lim, used, at, bytes, gas, false) && Holds(app, room, used, at, bz, txGas)
    requires GasOf(app, bz) == txGas && next.chosen == at.chosen + [bz]
    ensures var bytes' := Add64(bytes, ProtoSize(bz)); var gas' := if lim.maxBlockGas > 0 then Add64(gas, txGas) else gas;
      CountersAt(app, room, lim, used, next, bytes', gas', Full(bytes', gas', lim))
  {
    SumsSnoc(app, at.chosen, bz);
    Add64Exact(bytes, ProtoSize(bz));
    if lim.maxBlockGas > 0 {
      Add64Exact(gas, txGas);
    }
  }

  lemma {:induction false} Add64Exact(a: uint64, b: uint64)
    requires a + b < TWO_64
    ensures Add64(a, b) == a + b
  {
  }

  /** One candidate: what the loop decides is how the stages go on. */
  lemma {:induction false} ConsiderFollows<S(!new), T(!new)>(
      app: App<S, T>, room: Room, lim: Limits, used: nat, candidate: Slice, at: Stage<S>, next: Stage<S>, bytes: uint64, gas: uint64)
    requires Sound(app) && CountersAt(app, room, lim, used, at, bytes, gas, false) && !at.stopped
    requires Follows(app, room, used, candidate, at, next)
    ensures match Consider(app, lim, candidate, at.state, bytes, gas)
      case Panic => app.decode(candidate).DecodePanic?
      case Leave => !app.decode(candidate).DecodePanic? && next == at
      case Omit(s') => next == at.(state := s')
      case Stop => next.stopped && next.chosen == at.chosen
      case Offer(bz, txGas, s') =>
        && next == Stage(at.chosen + [bz], s', false)
        && var bytes' := Add64(bytes, ProtoSize(bz)); var gas' := if lim.maxBlockGas > 0 then Add64(gas, txGas) else gas;
        && CountersAt(app, room, lim, used, next, bytes', gas', Full(bytes', gas', lim))
  {
    if app.decode(candidate).Decoded? {
      var tx := app.decode(candidate).tx;
      var txGas := TxGas(app, tx);
      FitsIsHolds(app, room, lim, used, at, bytes, gas, candidate, txGas);
      if app.encode(tx).Encoded? {
        FitsIsHolds(app, room, lim, used, at, bytes, gas, app.encode(tx).bz, txGas);
        if Good(app, room, used, at, candidate) {
          CountersAfter(app, room, lim, used, at, bytes, gas, app.encode(tx).bz, txGas, next);
        }
      }
    }
  }

  /** A full or stopped proposer chooses nothing more. */
  lemma {:induction false} NothingMore<S(!new), T(!new)>(
      app: App<S, T>, room: Room, used: nat, candidates: seq<Slice>, s0: S, stages: seq<Stage<S>>, i: nat)
    requires Stages(app, room, used, candidates, s0, stages) && i <= |candidates| && !Open(app, room, used, stages[i])
    ensures forall j :: i <= j <= |candidates| ==> stages[j] == stages[i]
    decreases |candidates| - i
  {
    if i < |candidates| {
      assert Follows(app, room, used, candidates[i], stages[i], stages[i + 1]);
      NothingMore(app, room, used, candidates, s0, stages, i + 1);
    }
  }

  /** A selection is what the stages choose from one of them on, and is missing
      exactly when a decoder panic is reached from there. */
  ghost predicate SelectsFrom<S(!new), T(!new)>(
      app: App<S, T>, room: Room, used: nat, candidates: seq<Slice>, stages: seq<Stage<S>>, i: nat, spec: Option<seq<Slice>>)
    requires |stages| == |candidates| + 1 && i <= |candidates|
  {
    && (spec.None? <==> exists j :: i <= j < |candidates| && Open(app, room, used, stages[j]) && app.decode(candidates[j]).DecodePanic?)
    && (spec.Some? ==> stages[|candidates|].chosen == stages[i].chosen + spec.value)
  }

  lemma {:induction false} StepSelects<S(!new), T(!new)>(
      app: App<S, T>, room: Room, used: nat, candidates: seq<Slice>, stages: seq<Stage<S>>, i: nat, one: seq<Slice>, rest: Option<seq<Slice>>)
    requires |stages| == |candidates| + 1 && i < |candidates| && SelectsFrom(app, room, used, candidates, stages, i + 1, rest)
    requires stages[i + 1].chosen == stages[i].chosen + one && !app.decode(candidates[i]).DecodePanic?
    ensures SelectsFrom(app, room, used, candidates, stages, i, Prepend(one, rest))
    ensures one == [] ==> SelectsFrom(app, room, used, candidates, stages, i, rest)
  {
    if rest.Some? {
      Regroup(stages[i].chosen, one, rest.value);
      if one == [] {
        assert stages[i].chosen + one == stages[i].chosen;
      }
    }
  }

  lemma {:induction false} NothingMoreFrom<S(!new), T(!new)>(
      app: App<S, T>, room: Room, used: nat, candidates: seq<Slice>, s0: S, stages: seq<Stage<S>>, i: nat)
    requires Stages(app, room, used, candidates, s0, stages) && i <= |candidates|
    requires i == |candidates| || !Open(app, room, used, stages[i])
    ensures forall j :: i <= j <= |candidates| ==> stages[j] == stages[i]
    ensures !exists j :: i <= j < |candidates| && Open(app, room, used, stages[j]) && app.decode(candidates[j]).DecodePanic?
  {
    if i < |candidates| {
      NothingMore(app, room, used, candidates, s0, stages, i);
    }
  }

  lemma {:induction false} EndSelects<S(!new), T(!new)>(
      app: App<S, T>, room: Room, used: nat, candidates: seq<Slice>, s0: S, stages: seq<Stage<S>>, i: nat)
    requires Stages(app, room, used, candidates, s0, stages) && i <= |candidates|
    requires i == |candidates| || !Open(app, room, used, stages[i])
    ensures SelectsFrom(app, room, used, candidates, stages, i, Some([]))
  {
    NothingMoreFrom(app, room, used, candidates, s0, stages, i);
    assert stages[i].chosen + [] == stages[i].chosen;
  }

  /** One turn of the loop, against one stage and the next. */
  lemma {:induction false} SelectStep<S(!new), T(!new)>(
      app: App<S, T>, room: Room, lim: Limits, used: nat, candidates: seq<Slice>, i: nat, at: Stage<S>, next: Stage<S>, bytes: uint64, gas: uint64)
    returns (one: seq<Slice>, bytes': uint64, gas': uint64, full': bool)
    requires Sound(app) && i < |candidates| && !at.stopped && CountersAt(app, room, lim, used, at, bytes, gas, false)
    requires Follows(app, room, used, candidates[i], at, next)
    ensures var here := Select(app, lim, candidates[i..], at.state, bytes, gas, false);
      if app.decode(candidates[i]).DecodePanic? then here.None?
      else
        && next.chosen == at.chosen + one
        && if next.stopped then one == [] && here == Some([])
           else
             && CountersAt(app, room, lim, used, next, bytes', gas', full')
             && here == Prepend(one, Select(app, lim, candidates[i + 1..], next.state, bytes', gas', full'))
  {
    one, bytes', gas', full' := [], bytes, gas, false;
    ConsiderFollows(app, room, lim, used, candidates[i], at, next, bytes, gas);
    assert candidates[i..][0] == candidates[i] && candidates[i..][1..] == candidates[i + 1..];
    assert at.chosen + [] == at.chosen;
    PrependNothing(Select(app, lim, candidates[i + 1..], next.state, bytes, gas, false));
    var step := Consider(app, lim, candidates[i], at.state, bytes, gas);
    if step.Offer? {
      one, bytes' := [step.bz], Add64(bytes, ProtoSize(step.bz));
      gas' := if lim.maxBlockGas > 0 then Add64(gas, step.gas) else gas;
      full' := Full(bytes', gas', lim);
    }
  }

  /** From any stage on, the loop selects what the stages choose from there. */
  lemma {:induction false} SelectStages<S(!new), T(!new)>(
      app: App<S, T>, room: Room, lim: Limits, used: nat, candidates: seq<Slice>, s0: S, stages: seq<Stage<S>>, i: nat,
      bytes: uint64, gas: uint64, full: bool)
    requires Sound(app) && Stages(app, room, used, candidates, s0, stages) && i <= |candidates| && !stages[i].stopped
    requires CountersAt(app, room, lim, used, stages[i], bytes, gas, full)
    ensures SelectsFrom(app, room, used, candidates, stages, i, Select(app, lim, candidates[i..], stages[i].state, bytes, gas, full))
    decreases |candidates| - i
  {
    if i == |candidates| || full {
      EndSelects(app, room, used, candidates, s0, stages, i);
    } else {
      var next := stages[i + 1];
      assert Follows(app, room, used, candidates[i], stages[i], next);
      var one, bytes', gas', full' := SelectStep(app, room, lim, used, candidates, i, stages[i], next, bytes, gas);
      if app.decode(candidates[i]).DecodePanic? {
        assert Open(app, room, used, stages[i]);
      } else if next.stopped {
        EndSelects(app, room, used, candidates, s0, stages, i + 1);
        StepSelects(app, room, used, candidates, stages, i, [], Some([]));
      } else {
        SelectStages(app, room, lim, used, candidates, s0, stages, i + 1, bytes', gas', full');
        StepSelects(app, room, used, candidates, stages, i, one, Select(app, lim, candidates[i + 1..], next.state, bytes', gas', full'));
      }
    }
  }

  /** The injection is sent when the latch is open and it fits both bounds. */
  function Injected(latch: bool, injection: Injection, room: Room): seq<Slice> {
    if latch && injection.Payload? && |injection.json| <= 2_097_148
       && ProtoSize([0x00, 0x56, 0x45, 0x58] + injection.json) <= room.bytes
    then [[0x00, 0x56, 0x45, 0x58] + injection.json] else []
  }

  /** The block that some stages lead to: the injection and the transactions
      chosen at the end, or nothing when a decoder panic was reached. */
  ghost predicate IsBlock<S(!new), T(!new)>(app: App<S, T>, latch: bool, injection: Injection, room: Room, candidates: seq<Slice>, s0: S,
                                            stages: seq<Stage<S>>, txs: seq<bytes>)
    requires |stages| == |candidates| + 1
  {
    var first := Injected(latch, injection, room);
    txs == if Panics(app, room, SizeSum(first), candidates, stages) then [] else first + stages[|candidates|].chosen
  }

  lemma {:induction false} NothingFits<S(!new), T(!new)>(app: App<S, T>, lim: Limits, candidates: seq<Slice>, s: S, full: bool)
    requires LimitsFit(lim) && lim.maxTxBytes == 0
    ensures var spec := Select(app, lim, candidates, s, 0, 0, full); spec.None? || spec == Some([])
    decreases |candidates|
  {
    if candidates != [] && !full {
      var step := Consider(app, lim, candidates[0], s, 0, 0);
      assert step.Leave? || step.Panic?;
      NothingFits(app, lim, candidates[1..], s, full);
    }
  }

  /** What is offered, exactly: the block the stages lead to. */
  lemma {:induction false} OfferedExactly<S(!new), T(!new)>(
      app: App<S, T>, latch: bool, injection: Injection, maxTxBytes: int64, maxGas: Option<int64>, candidates: seq<Slice>, s0: S,
      stages: seq<Stage<S>>)
    requires Sound(app)
    requires var room := RoomOf(maxTxBytes, maxGas);
      Stages(app, room, SizeSum(Injected(latch, injection, room)), candidates, s0, stages)
    ensures IsBlock(app, latch, injection, RoomOf(maxTxBytes, maxGas), candidates, s0, stages,
                    Offered(app, latch, injection, MakeLimits(maxTxBytes, maxGas), candidates, s0))
  {
    var lim, room := MakeLimits(maxTxBytes, maxGas), RoomOf(maxTxBytes, maxGas);
    var first := InjectionTx(latch, injection, lim);
    var bytes := if first == [] then 0 else ProtoSize(first[0]);
    var full := InjectionAttempted(latch, injection) && Full(bytes, 0, lim);
    FirstIsInjected(latch, injection, lim, room);
    assert candidates[0..] == candidates;
    if room.bytes == 0 {
      NothingFits(app, lim, candidates, s0, full);
      NothingMore(app, room, SizeSum(first), candidates, s0, stages, 0);
      assert first + [] == first;
    } else {
      SelectStages(app, room, lim, SizeSum(first), candidates, s0, stages, 0, bytes, 0, full);
      StartSelects(app, room, SizeSum(first), candidates, stages, Select(app, lim, candidates, s0, bytes, 0, full));
    }
  }

  lemma {:induction false} StartSelects<S(!new), T(!new)>(
      app: App<S, T>, room: Room, used: nat, candidates: seq<Slice>, stages: seq<Stage<S>>, spec: Option<seq<Slice>>)
    requires |stages| == |candidates| + 1 && stages[0].chosen == [] && SelectsFrom(app, room, used, candidates, stages, 0, spec)
    ensures spec.None? <==> Panics(app, room, used, candidates, stages)
    ensures spec.Some? ==> stages[|candidates|].chosen == spec.value
  {
    if spec.Some? {
      assert [] + spec.value == spec.value;
    }
  }

  lemma {:induction false} FirstIsInjected(latch: bool, injection: Injection, lim: Limits, room: Room)
    requires LimitsFit(lim) && room.bytes == lim.maxTxBytes
    ensures var first := InjectionTx(latch, injection, lim);
      && first == Injected(latch, injection, room)
      && SizeSum(first) == (if first == [] then 0 else ProtoSize(first[0])) <= lim.maxTxBytes
  {
    var first := InjectionTx(latch, injection, lim);
    if first != [] {
      assert SizeSum(first) == ProtoSize(first[0]) + SizeSum(first[1..]);
    }
  }

  /** What is chosen stays chosen. */
  lemma {:induction false} ChosenGrows<S(!new), T(!new)>(
      app: App<S, T>, room: Room, used: nat, candidates: seq<Slice>, s0: S, stages: seq<Stage<S>>, i: nat, j: nat)
    requires Stages(app, room, used, candidates, s0, stages) && i <= j <= |candidates|
    ensures stages[i].chosen <= stages[j].chosen && |stages[j].chosen| <= |stages[i].chosen| + (j - i)
    decreases j
  {
    if i < j {
      ChosenGrows(app, room, used, candidates, s0, stages, i, j - 1);
      assert Follows(app, room, used, candidates[j - 1], stages[j - 1], stages[j]);
    }
  }

  /** No good candidate is left out: one that decodes, fits on top of what was
      chosen before it, re-encodes, passes replay in the state the earlier
      replays left, and still fits, is in the block, right after what was chosen
      before it. */
  lemma {:induction false} GoodIsOffered<S(!new), T(!new)>(
      app: App<S, T>, latch: bool, injection: Injection, maxTxBytes: int64, maxGas: Option<int64>, candidates: seq<Slice>, s0: S,
      stages: seq<Stage<S>>, i: nat)
    requires Sound(app) && i < |candidates|
    requires var room := RoomOf(maxTxBytes, maxGas); var used := SizeSum(Injected(latch, injection, room));
      && Stages(app, room, used, candidates, s0, stages) && !Panics(app, room, used, candidates, stages)
      && Good(app, room, used, stages[i], candidates[i])
    ensures var txs := Offered(app, latch, injection, MakeLimits(maxTxBytes, maxGas), candidates, s0);
      var place := |Injected(latch, injection, RoomOf(maxTxBytes, maxGas))| + |stages[i].chosen|;
      place < |txs| && txs[place] == app.encode(app.decode(candidates[i]).tx).bz
  {
    var room := RoomOf(maxTxBytes, maxGas);
    var used := SizeSum(Injected(latch, injection, room));
    OfferedExactly(app, latch, injection, maxTxBytes, maxGas, candidates, s0, stages);
    assert Follows(app, room, used, candidates[i], stages[i], stages[i + 1]);
    ChosenGrows(app, room, used, candidates, s0, stages, i + 1, |candidates|);
  }

  /** Every candidate decodes, re-encodes to the given bytes, and passes replay
      in the state the ones before it left. */
  ghost predicate Replays<S(!new), T(!new)>(app: App<S, T>, candidates: seq<Slice>, again: seq<Slice>, states: seq<S>) {
    && |again| == |candidates| && |states| == |candidates| + 1
    && forall k :: 0 <= k < |candidates| ==>
         && app.decode(candidates[k]).Decoded?
         && var tx := app.decode(candidates[k]).tx;
         && app.encode(tx) == Encoded(again[k]) && app.replay(states[k], again[k], tx) == (true, states[k + 1])
  }

  /** Before each candidate the block is not full, and there is room for it both
      as it came and re-encoded. */
  ghost predicate AllFit<S(!new), T(!new)>(app: App<S, T>, room: Room, used: nat, candidates: seq<Slice>, again: seq<Slice>, states: seq<S>)
    requires Replays(app, candidates, again, states)
  {
    forall k :: 0 <= k < |candidates| ==> Good(app, room, used, Stage(again[..k], states[k], false), candidates[k])
  }

  lemma {:induction false} AllChosen<S(!new), T(!new)>(
      app: App<S, T>, room: Room, used: nat, candidates: seq<Slice>, again: seq<Slice>, states: seq<S>, stages: seq<Stage<S>>, i: nat)
    requires Replays(app, candidates, again, states) && Stages(app, room, used, candidates, states[0], stages)
    requires i <= |candidates| && forall k :: 0 <= k <= i ==> |stages[k].chosen| == k
    ensures stages[i] == Stage(again[..i], states[i], false)
    ensures forall k :: 0 <= k < i ==> Good(app, room, used, Stage(again[..k], states[k], false), candidates[k])
    decreases i
  {
    if i > 0 {
      AllChosen(app, room, used, candidates, again, states, stages, i - 1);
      assert |stages[i].chosen| == i;
      assert Follows(app, room, used, candidates[i - 1], stages[i - 1], stages[i]);
      assert again[..i] == again[..i - 1] + [again[i - 1]];
    }
  }

  /** When every candidate replays, the block is the injection and all of them
      if and only if each fits in turn. */
  lemma {:induction false} AllOfferedExactly<S(!new), T(!new)>(
      app: App<S, T>, latch: bool, injection: Injection, maxTxBytes: int64, maxGas: Option<int64>,
      candidates: seq<Slice>, again: seq<Slice>, states: seq<S>)
    requires Sound(app) && Replays(app, candidates, again, states)
    ensures var room := RoomOf(maxTxBytes, maxGas); var first := Injected(latch, injection, room);
      Offered(app, latch, injection, MakeLimits(maxTxBytes, maxGas), candidates, states[0]) == first + again <==>
      AllFit(app, room, SizeSum(first), candidates, again, states)
  {
    var room, n := RoomOf(maxTxBytes, maxGas), |candidates|;
    var first := Injected(latch, injection, room);
    var used := SizeSum(first);
    var stages := StagesExist(app, room, used, candidates, states[0]);
    OfferedExactly(app, latch, injection, maxTxBytes, maxGas, candidates, states[0], stages);
    assert !Panics(app, room, used, candidates, stages);
    var block := first + stages[n].chosen;
    if AllFit(app, room, used, candidates, again, states) {
      AllFitChosen(app, room, used, candidates, again, states, stages, n);
      assert again[..n] == again;
    } else if block == first + again {
      assert |stages[n].chosen| == n;
      forall k | 0 <= k <= n
        ensures |stages[k].chosen| == k
      {
        ChosenGrows(app, room, used, candidates, states[0], stages, 0, k);
        ChosenGrows(app, room, used, candidates, states[0], stages, k, n);
      }
      AllChosen(app, room, used, candidates, again, states, stages, n);
      assert false;
    }
  }

  lemma {:induction false} AllFitChosen<S(!new), T(!new)>(
      app: App<S, T>, room: Room, used: nat, candidates: seq<Slice>, again: seq<Slice>, states: seq<S>, stages: seq<Stage<S>>, i: nat)
    requires Replays(app, candidates, again, states) && Stages(app, room, used, candidates, states[0], stages)
    requires AllFit(app, room, used, candidates, again, states) && i <= |candidates|
    ensures stages[i] == Stage(again[..i], states[i], false)
    decreases i
  {
    if i > 0 {
      AllFitChosen(app, room, used, candidates, again, states, stages, i - 1);
      assert Follows(app, room, used, candidates[i - 1], stages[i - 1], stages[i]);
      assert Good(app, room, used, Stage(again[..i - 1], states[i - 1], false), candidates[i - 1]);
      assert again[..i] == again[..i - 1] + [again[i - 1]];
    }
  }

  /** An application with two transactions: [1] declares gas 60, [2] none. */
  function GasApp(): App<bool, bool> {
    App((b: bytes) => if b == [1] then Decoded(true) else if b == [2] then Decoded(false) else Undecodable,
        (tx: bool) => if tx then Encoded([1]) else Encoded([2]),
        (tx: bool) => if tx then Some(60) else None,
        (s: bool, b: bytes, tx: bool) => (true, s),
        (b: bytes) => false)
  }

  lemma {:induction false} GasAppSums(both: seq<Slice>)
    requires both == [[1], [2]]
    ensures SizeSum(both) == 6 && GasSum(GasApp(), both) == 60
    ensures SizeSum(both[..1]) == 3 && GasSum(GasApp(), both[..1]) == 60
    ensures ProtoSize([1]) == 3 && ProtoSize([2]) == 3
  {
    var none: seq<Slice> := [];
    assert Uvarint(1) == [1];
    assert ProtoSize([1]) == 3 && ProtoSize([2]) == 3;
    SumsSnoc(GasApp(), none, [1]);
    SumsSnoc(GasApp(), both[..1], [2]);
    assert both[..1] == none + [[1]] && both == both[..1] + [[2]];
  }

  lemma {:induction false} GasAppFits(both: seq<Slice>, states: seq<bool>, limit: int64)
    requires both == [[1], [2]] && states == [true, true, true] && limit >= 60
    ensures Sound(GasApp()) && Replays(GasApp(), both, both, states)
    ensures AllFit(GasApp(), RoomOf(100, Some(limit)), 0, both, both, states) <==> limit > 60
  {
    GasAppSums(both);
    var app, room := GasApp(), RoomOf(100, Some(limit));
    assert both[..0] == [];
    assert Good(app, room, 0, Stage(both[..0], true, false), both[0]);
    assert Good(app, room, 0, Stage(both[..1], true, false), both[1]) <==> limit > 60;
  }

  /** Fitting both limits together is not enough: once the gas limit is reached
      exactly, a transaction that declares no gas is left out, and a limit of
      one unit more lets it in. */
  lemma {:induction false} FullOfGasLeavesOut()
    ensures var both: seq<Slice> := [[1], [2]]; var app := GasApp();
      && SizeSum(both) <= 100 && GasSum(app, both) <= 60
      && Offered(app, false, NoInjection, MakeLimits(100, Some(60)), both, true) != both
      && Offered(app, false, NoInjection, MakeLimits(100, Some(61)), both, true) == both
  {
    var both: seq<Slice>, none: seq<Slice>, states := [[1], [2]], [], [true, true, true];
    GasAppSums(both);
    GasAppFits(both, states, 60);
    GasAppFits(both, states, 61);
    assert none + both == both;
    AllOfferedExactly(GasApp(), false, NoInjection, 100, Some(60), both, both, states);
    AllOfferedExactly(GasApp(), false, NoInjection, 100, Some(61), both, both, states);
  }

  /** An application whose failing replay of the transaction [1] sets a flag
      that nothing reads. */
  function MarkingApp(): App<bool, bool> {
    App((b: bytes) => if b == [1] then Decoded(true) else if b == [2] then Decoded(false) else Undecodable,
        (tx: bool) => if tx then Encoded([1]) else Encoded([2]),
        (tx: bool) => None,
        (s: bool, b: bytes, tx: bool) => if tx then (false, true) else (s, s),
        (b: bytes) => false)
  }

  lemma {:induction false} MarkingAppConsiders(lim: Limits)
    requires lim == Limits(100, 0, false)
    ensures Consider(MarkingApp(), lim, [1], false, 0, 0) == Omit(true)
    ensures Consider(MarkingApp(), lim, [2], true, 0, 0) == Offer([2], 0, true)
    ensures Add64(0, ProtoSize([2])) == 3 && !Full(3, 0, lim)
  {
    assert Uvarint(1) == [1];
    assert ProtoSize([1]) == 3 && ProtoSize([2]) == 3;
  }

  lemma {:induction false} MarkingAppOffers(lim: Limits)
    requires lim == Limits(100, 0, false)
    ensures Offered(MarkingApp(), false, NoInjection, lim, [[1], [2]], false) == [[2]]
  {
    var app, none: seq<Slice>, rest: seq<Slice>, candidates: seq<Slice> := MarkingApp(), [], [[2]], [[1], [2]];
    MarkingAppConsiders(lim);
    assert candidates[1..] == rest && rest[1..] == none;
    assert Select(app, lim, none, true, 3, 0, false) == Some(none);
    assert [rest[0]] + none == rest;
    assert Select(app, lim, rest, true, 0, 0, false) == Some(rest);
    assert Select(app, lim, candidates, false, 0, 0, false) == Some(rest);
    assert none + rest == rest;
  }

  /** Coherence needs failed replays to write nothing: an application whose
      failing ante run leaves a mark offers a block it then refuses. */
  lemma {:induction false} CoherenceNeedsInertFailures()
    ensures exists app: App<bool, bool>, candidates: seq<Slice>, lim ::
      && LimitsFit(lim)
      && (forall tx :: app.encode(tx).Encoded? ==>
            app.decode(app.encode(tx).bz) == Decoded(tx) && !IsInjection(app.encode(tx).bz))
      && !Accepted(app, false, lim, Offered(app, false, NoInjection, lim, candidates, false), 0, false, 0)
  {
    var app, lim, candidates: seq<Slice> := MarkingApp(), Limits(100, 0, false), [[1], [2]];
    MarkingAppOffers(lim);
    assert !Accepted(app, false, lim, [[2]], 0, false, 0);
  }
}
