/** The chain of guards that gives every version step exactly one owning plan. */
module TransitionOwners {
  import opened Bytes

  datatype Module = Knowledge | VestingRewards | ClaimingPot | LiquidityPool | Staking | Gov | OtherModule(name: string)

  type VersionMap = map<Module, nat>

  /** Named plans; any other name is some other plan. */
  datatype PlanName =
    | AccountingAuthority
    | SurvivalRewardHandoff
    | RecordIntegrity
    | ReviewNeutrality
    | ClaimRecords
    | FundSettlement
    | ClaimIntegrity
    | OtherPlan(name: string)

  type Pair = (nat, nat)

  function ReadPair(vm: VersionMap): Option<Pair> {
    if Knowledge in vm && VestingRewards in vm then Some((vm[Knowledge], vm[VestingRewards])) else None
  }

  predicate KnownPair(p: Pair) {
    p == (6, 2) || p == (7, 3) || p == (8, 3) || p == (9, 3) || p == (10, 3) || p == (11, 3) || p == (12, 3)
  }

  predicate KnownKnowledge(from: VersionMap, target: VersionMap) {
    && Knowledge in from && Knowledge in target
    && 6 <= from[Knowledge] <= 12 && 6 <= target[Knowledge] <= 12
  }

  // ---- the guards, as the code delegates them ----

  predicate ClaimIntegrityGuard(name: PlanName, fromVM: VersionMap, targetVM: VersionMap) {
    && KnownKnowledge(fromVM, targetVM)
    && var from, target := fromVM[Knowledge], targetVM[Knowledge];
    if from == target || (from < 12 && target < 12) then true
    else name == ClaimIntegrity && from == 11 && target == 12
  }

  predicate FundSettlementGuard(name: PlanName, fromVM: VersionMap, targetVM: VersionMap) {
    && KnownKnowledge(fromVM, targetVM)
    && var from, target := fromVM[Knowledge], targetVM[Knowledge];
    if from == 11 && target == 12 then ClaimIntegrityGuard(name, fromVM, targetVM)
    else if from == target || (from < 11 && target < 11) then true
    else name == FundSettlement && from == 10 && target == 11
  }

  predicate ClaimRecordsGuard(name: PlanName, fromVM: VersionMap, targetVM: VersionMap) {
    && KnownKnowledge(fromVM, targetVM)
    && var from, target := fromVM[Knowledge], targetVM[Knowledge];
    if (from == 10 && target == 11) || (from == 11 && target == 12) then FundSettlementGuard(name, fromVM, targetVM)
    else if from == target || (from < 10 && target < 10) then true
    else name == ClaimRecords && from == 9 && target == 10
  }

  predicate ReviewNeutralityGuard(name: PlanName, fromVM: VersionMap, targetVM: VersionMap) {
    && KnownKnowledge(fromVM, targetVM)
    && var from, target := fromVM[Knowledge], targetVM[Knowledge];
    if (from == 9 && target == 10) || (from == 10 && target == 11) || (from == 11 && target == 12)
    then ClaimRecordsGuard(name, fromVM, targetVM)
    else if from == target || (from < 9 && target < 9) then true
    else name == ReviewNeutrality && from == 8 && target == 9
  }

  predicate RecordIntegrityGuard(name: PlanName, fromVM: VersionMap, targetVM: VersionMap) {
    && KnownKnowledge(fromVM, targetVM)
    && var from, target := fromVM[Knowledge], targetVM[Knowledge];
    if (from == 8 && target == 9) || (from == 9 && target == 10) || (from == 10 && target == 11) || (from == 11 && target == 12)
    then ReviewNeutralityGuard(name, fromVM, targetVM)
    else if from == target || (from < 8 && target < 8) then true
    else name == RecordIntegrity && from == 7 && target == 8
  }

  predicate SurvivalGuard(name: PlanName, fromVM: VersionMap, targetVM: VersionMap) {
    var from, target := ReadPair(fromVM), ReadPair(targetVM);
    && from.Some? && KnownPair(from.value) && target.Some? && KnownPair(target.value)
    && if from == target then true
       else if || (from.value == (7, 3) && target.value == (8, 3)) || (from.value == (8, 3) && target.value == (9, 3))
               || (from.value == (9, 3) && target.value == (10, 3)) || (from.value == (10, 3) && target.value == (11, 3))
               || (from.value == (11, 3) && target.value == (12, 3))
       then RecordIntegrityGuard(name, fromVM, targetVM)
       else name == SurvivalRewardHandoff && from.value == (6, 2) && target.value == (7, 3)
  }

  predicate AccountingGuard(name: PlanName, fromVM: VersionMap, targetVM: VersionMap) {
    && Staking in fromVM && Gov in fromVM && Staking in targetVM && Gov in targetVM
    && var from, target := (fromVM[Staking], fromVM[Gov]), (targetVM[Staking], targetVM[Gov]);
    && (from == (1, 2) || from == (2, 3)) && (target == (1, 2) || target == (2, 3))
    && (from == target || (from == (1, 2) && target == (2, 3) && name == AccountingAuthority))
  }

  predicate CompletedPreSDK(fromVM: VersionMap) {
    && Knowledge in fromVM && fromVM[Knowledge] == 6
    && ClaimingPot in fromVM && fromVM[ClaimingPot] == 2
    && LiquidityPool in fromVM && fromVM[LiquidityPool] == 5
    && VestingRewards in fromVM && fromVM[VestingRewards] == 2
  }

  /** Whether `runMigrationsForPlan` reaches the migrations at all. */
  predicate MayMigrate(name: PlanName, fromVM: VersionMap, targetVM: VersionMap) {
    && CompletedPreSDK(fromVM)
    && AccountingGuard(name, fromVM, targetVM)
    && SurvivalGuard(name, fromVM, targetVM)
    && RecordIntegrityGuard(name, fromVM, targetVM)
  }

  // ---- the specification: a line of versions, each step owned once ----

  /** Position of a known pair on the line from (6,2) to (12,3). */
  function Position(p: Pair): (r: nat)
    requires KnownPair(p)
    ensures r <= 6
  {
    p.0 - 6
  }

  const OWNERS: seq<PlanName> :=
    [SurvivalRewardHandoff, RecordIntegrity, ReviewNeutrality, ClaimRecords, FundSettlement, ClaimIntegrity]

  predicate OnLine(vm: VersionMap) {
    ReadPair(vm).Some? && KnownPair(ReadPair(vm).value)
  }

  function At(vm: VersionMap): nat
    requires OnLine(vm)
  {
    Position(ReadPair(vm).value)
  }

  /** The entry guard accepts a step exactly when both ends are on the line and
      it stays put, or moves one place under that place's owner. */
  lemma {:induction false} SurvivalGuardExact(name: PlanName, fromVM: VersionMap, targetVM: VersionMap)
    ensures SurvivalGuard(name, fromVM, targetVM) <==>
            && OnLine(fromVM) && OnLine(targetVM)
            && (At(fromVM) == At(targetVM) || (At(targetVM) == At(fromVM) + 1 && name == OWNERS[At(fromVM)]))
  {
  }

  /** The accounting step has one owner too: staking and governance stay at
      versions (1,2) or (2,3), or move from the first to the second under the
      accounting plan; there is no way back and no other version. */
  lemma {:induction false} AccountingGuardExact(name: PlanName, fromVM: VersionMap, targetVM: VersionMap)
    ensures AccountingGuard(name, fromVM, targetVM) <==>
            && Staking in fromVM && Gov in fromVM && Staking in targetVM && Gov in targetVM
            && fromVM[Staking] in {1, 2} && fromVM[Gov] == fromVM[Staking] + 1
            && targetVM[Staking] in {1, 2} && targetVM[Gov] == targetVM[Staking] + 1
            && fromVM[Staking] <= targetVM[Staking]
            && (fromVM[Staking] < targetVM[Staking] ==> name == AccountingAuthority)
  {
  }

  datatype Step = Step(plan: PlanName, target: VersionMap)

  /** Every step of the run passes the entry guard. */
  predicate Guarded(start: VersionMap, run: seq<Step>)
    decreases |run|
  {
    run == [] || (SurvivalGuard(run[0].plan, start, run[0].target) && Guarded(run[0].target, run[1..]))
  }

  function Final(start: VersionMap, run: seq<Step>): VersionMap
    decreases |run|
  {
    if run == [] then start else Final(run[0].target, run[1..])
  }

  /** The plans of the steps that changed the version pair, in order. */
  function Performed(start: VersionMap, run: seq<Step>): seq<PlanName>
    decreases |run|
  {
    if run == [] then [] else
    (if ReadPair(start) == ReadPair(run[0].target) then [] else [run[0].plan]) + Performed(run[0].target, run[1..])
  }

  /** Over any guarded run the effective plans are the owners of the places
      between start and end, each once and in order: no skip, no downgrade. */
  lemma {:induction false} RunPerformsOwners(start: VersionMap, run: seq<Step>)
    requires OnLine(start) && Guarded(start, run)
    ensures OnLine(Final(start, run)) && At(start) <= At(Final(start, run))
    ensures Performed(start, run) == OWNERS[At(start)..At(Final(start, run))]
    decreases |run|
  {
    if run != [] {
      var middle := run[0].target;
      SurvivalGuardExact(run[0].plan, start, middle);
      RunPerformsOwners(middle, run[1..]);
      SamePlace(start, middle);
      OwnersFrom(At(start), At(middle), At(Final(start, run)));
    }
  }

  /** Two known version pairs are equal exactly when their places are. */
  lemma {:induction false} SamePlace(a: VersionMap, b: VersionMap)
    requires OnLine(a) && OnLine(b)
    ensures ReadPair(a) == ReadPair(b) <==> At(a) == At(b)
  {
  }

  /** The owners of a stretch are the owner of its first step and the rest. */
  lemma {:induction false} OwnersFrom(from: nat, middle: nat, to: nat)
    requires middle == from || middle == from + 1
    requires middle <= to <= 6
    ensures OWNERS[from..to] == (if middle == from then [] else [OWNERS[from]]) + OWNERS[middle..to]
  {
  }

  /** In particular from the accounting release to the current one. */
  lemma {:induction false} FullRunPerformsAllOwners(start: VersionMap, run: seq<Step>)
    requires ReadPair(start) == Some((6, 2)) && Guarded(start, run)
    requires ReadPair(Final(start, run)) == Some((12, 3))
    ensures Performed(start, run) == OWNERS
  {
    RunPerformsOwners(start, run);
    assert OWNERS[0..6] == OWNERS;
  }

  // ---- the releases' own version maps ----

  /** Target map of the release at place `n`: each is its predecessor's target
      with the owned entries replaced. */
  function TargetMap(accounting: VersionMap, n: nat): VersionMap {
    if n == 0 then accounting
    else if n == 1 then accounting[Knowledge := 7][VestingRewards := 3]
    else TargetMap(accounting, n - 1)[Knowledge := 6 + n]
  }

  function ReleaseRun(accounting: VersionMap, from: nat): seq<Step>
    requires from <= 6
    decreases 6 - from
  {
    if from == 6 then [] else [Step(OWNERS[from], TargetMap(accounting, from + 1))] + ReleaseRun(accounting, from + 1)
  }

  lemma {:induction false} TargetMapOnLine(accounting: VersionMap, n: nat)
    requires ReadPair(accounting) == Some((6, 2)) && n <= 6
    ensures OnLine(TargetMap(accounting, n)) && At(TargetMap(accounting, n)) == n
    ensures forall m :: m in TargetMap(accounting, n) && m != Knowledge && m != VestingRewards ==>
                          m in accounting && TargetMap(accounting, n)[m] == accounting[m]
  {
    if n > 1 { TargetMapOnLine(accounting, n - 1); }
  }

  /** The guards do let the six releases through one after another, and no
      release changes a module it does not own. */
  lemma {:induction false} ReleaseRunGuarded(accounting: VersionMap, from: nat)
    requires ReadPair(accounting) == Some((6, 2)) && from <= 6
    ensures Guarded(TargetMap(accounting, from), ReleaseRun(accounting, from))
    ensures Final(TargetMap(accounting, from), ReleaseRun(accounting, from)) == TargetMap(accounting, 6)
    decreases 6 - from
  {
    if from < 6 {
      TargetMapOnLine(accounting, from);
      TargetMapOnLine(accounting, from + 1);
      SurvivalGuardExact(OWNERS[from], TargetMap(accounting, from), TargetMap(accounting, from + 1));
      ReleaseRunGuarded(accounting, from + 1);
    }
  }

  /** Broad migration calls get past the guards only in a binary whose pair is
      (6,2), or (7,3) under the handoff plan. */
  lemma {:induction false} BroadMigrationExact(name: PlanName, fromVM: VersionMap, targetVM: VersionMap)
    ensures MayMigrate(name, fromVM, targetVM) <==>
            && CompletedPreSDK(fromVM) && AccountingGuard(name, fromVM, targetVM)
            && (ReadPair(targetVM) == Some((6, 2)) || (ReadPair(targetVM) == Some((7, 3)) && name == SurvivalRewardHandoff))
  {
    SurvivalGuardExact(name, fromVM, targetVM);
  }

  /** So in the current binary no plan can migrate through that call. */
  lemma {:induction false} CurrentBinaryNeverMigrates(name: PlanName, fromVM: VersionMap, targetVM: VersionMap)
    requires ReadPair(targetVM) == Some((12, 3))
    ensures !MayMigrate(name, fromVM, targetVM)
  {
    BroadMigrationExact(name, fromVM, targetVM);
  }
}
