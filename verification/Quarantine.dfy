/** Transaction admission under emergency quarantine, and what may execute
    while it is active, message by message. */
module Quarantine {
  import opened Bytes
  import opened EmergencyScan

  /** The chain as admission and execution see it. `execute` runs one message,
      with or without the post-signature emergency marker in its context; None
      is a failed message. `restOfAnte` is every other decorator. */
  datatype Chain<!S(!new)> = Chain(
    halted: S -> bool,
    haltVoting: S -> bool,
    reviewHeld: S -> Option<bool>,
    authorizedSubmission: (S, Msg) -> bool,
    expeditedRecovery: (S, nat) -> bool,
    restOfAnte: (S, seq<Msg>) -> Option<S>,
    execute: (S, Msg, bool) -> Option<S>)

  /** Emergency effects need the marker: without it no message can switch
      quarantine on. The other decorators do not touch it at all. */
  ghost predicate MarkerGuards<S(!new)>(c: Chain<S>) {
    && (forall s, m :: c.execute(s, m, false).Some? ==>
          c.halted(c.execute(s, m, false).value) ==> c.halted(s))
    && (forall s, msgs :: c.restOfAnte(s, msgs).Some? ==>
          c.halted(c.restOfAnte(s, msgs).value) == c.halted(s))
  }

  datatype AnteFault = Inspection | UnsafeBatch | TransitionHold | ChainHalted | OtherDecorator

  predicate IsRecoveryGovernance<S(!new)>(c: Chain<S>, s: S, m: Msg) {
    match m.body
    case SubmitProposal(_) => c.authorizedSubmission(s, m)
    case Vote(id) => c.expeditedRecovery(s, id)
    case VoteWeighted(id) => c.expeditedRecovery(s, id)
    case Deposit(id) => c.expeditedRecovery(s, id)
    case _ => false
  }

  predicate AllEmergency(msgs: seq<Msg>) {
    forall m :: m in msgs ==> m.body.Emergency?
  }

  predicate SomeEmergency(msgs: seq<Msg>) {
    exists m :: m in msgs && m.body.Emergency?
  }

  function Present(msgs: seq<Msg>): (r: seq<Option<Msg>>)
    ensures |r| == |msgs|
    ensures forall i :: 0 <= i < |r| ==> r[i] == Some(msgs[i])
  {
    seq(|msgs|, i requires 0 <= i < |msgs| => Some(msgs[i]))
  }

  /** The post-incident hold blocks governance and interchain callbacks unless
      the chain is quarantined; an unreadable hold blocks them always. */
  predicate ReviewAllows<S(!new)>(c: Chain<S>, s: S, flags: Flags) {
    flags.govMutation || flags.icaHostReceive ==>
      c.reviewHeld(s).Some? && (c.reviewHeld(s).value ==> c.halted(s))
  }

  /** The transactions the halt decorator lets through outside simulation. */
  predicate Admitted<S(!new)>(c: Chain<S>, s: S, msgs: seq<Msg>) {
    && Acceptable(Present(msgs))
    && var flags := FlagsOf(Forest(Present(msgs)));
    && !flags.wrappedEmergency
    && ReviewAllows(c, s, flags)
    && (SomeEmergency(msgs) ==> AllEmergency(msgs))
    && (!c.halted(s) && c.haltVoting(s) ==> !flags.icaHostReceive)
    && (c.halted(s) ==> AllEmergency(msgs) || (|msgs| == 1 && IsRecoveryGovernance(c, s, msgs[0])))
  }

  /** One authorised recovery message: a submission the authorisation allows, or
      a vote or deposit on its expedited proposal. */
  ghost predicate SingleRecovery<S(!new)>(c: Chain<S>, s: S, msgs: seq<Msg>) {
    exists m :: msgs == [m] &&
      (match m.body
       case SubmitProposal(_) => c.authorizedSubmission(s, m)
       case Vote(id) => c.expeditedRecovery(s, id)
       case VoteWeighted(id) => c.expeditedRecovery(s, id)
       case Deposit(id) => c.expeditedRecovery(s, id)
       case _ => false)
  }

  lemma {:induction false} SingleRecoveryMeans<S(!new)>(c: Chain<S>, s: S, msgs: seq<Msg>)
    ensures SingleRecovery(c, s, msgs) <==> |msgs| == 1 && IsRecoveryGovernance(c, s, msgs[0])
  {
    if |msgs| == 1 {
      assert msgs == [msgs[0]];
    }
  }

  /** An emergency message inside another, or packed under its URL. */
  ghost predicate WrapsEmergency(msgs: seq<Msg>) {
    exists n :: Reached(Present(msgs), n) && ((n.depth > 0 && n.msg.body.Emergency?) || PacksEmergency(Children(n.msg)))
  }

  ghost predicate ReachesGovernance(msgs: seq<Msg>) {
    exists n :: Reached(Present(msgs), n) && IsGovMutation(n.msg)
  }

  ghost predicate ReachesIcaHost(msgs: seq<Msg>) {
    exists n :: Reached(Present(msgs), n) && IsIcaReceive(n.msg)
  }

  /** The scan's flags, by what can be reached in the transaction. */
  lemma {:induction false} FlagsByReach(msgs: seq<Msg>)
    ensures var f := FlagsOf(Forest(Present(msgs)));
      f.wrappedEmergency == WrapsEmergency(msgs) && f.govMutation == ReachesGovernance(msgs) && f.icaHostReceive == ReachesIcaHost(msgs)
  {
    var nodes := Forest(Present(msgs));
    FlagsAreDisjunctions(nodes);
    forall n
      ensures n in nodes <==> Reached(Present(msgs), n)
    {
      ForestIsReached(Present(msgs), n);
    }
  }

  /** What is admitted outside simulation, from every message that can be reached
      in the transaction: emergency messages only directly and unmixed; nothing
      of governance or the interchain host while review is held outside
      quarantine or the hold cannot be read; in quarantine only emergency
      messages or one recovery message; no interchain host during a halt vote. */
  lemma {:induction false} AdmittedExactly<S(!new)>(c: Chain<S>, s: S, msgs: seq<Msg>)
    ensures Admitted(c, s, msgs) <==>
            && Acceptable(Present(msgs)) && !WrapsEmergency(msgs)
            && (ReachesGovernance(msgs) || ReachesIcaHost(msgs) ==>
                  c.reviewHeld(s).Some? && (!c.reviewHeld(s).value || c.halted(s)))
            && ((forall m :: m in msgs ==> m.body.Emergency?) || (forall m :: m in msgs ==> !m.body.Emergency?))
            && (c.halted(s) ==> (forall m :: m in msgs ==> m.body.Emergency?) || SingleRecovery(c, s, msgs))
            && (!c.halted(s) && c.haltVoting(s) ==> !ReachesIcaHost(msgs))
  {
    FlagsByReach(msgs);
    SingleRecoveryMeans(c, s, msgs);
  }

  method FindEmergency(msgs: seq<Msg>) returns (found: bool)
    ensures found == SomeEmergency(msgs)
  {
    for i := 0 to |msgs|
      invariant !SomeEmergency(msgs[..i])
    {
      if msgs[i].body.Emergency? {
        assert msgs[i] in msgs;
        return true;
      }
      assert msgs[..i + 1] == msgs[..i] + [msgs[i]];
    }
    assert msgs[..|msgs|] == msgs;
    return false;
  }

  method OnlyEmergency(msgs: seq<Msg>) returns (only: bool)
    ensures only == AllEmergency(msgs)
  {
    for i := 0 to |msgs|
      invariant AllEmergency(msgs[..i])
    {
      if !msgs[i].body.Emergency? {
        assert msgs[i] in msgs;
        return false;
      }
      assert msgs[..i + 1] == msgs[..i] + [msgs[i]];
    }
    assert msgs[..|msgs|] == msgs;
    return true;
  }

  /** The loop over a transaction that arrives during quarantine. */
  method RestrictedAdmission<S(!new)>(c: Chain<S>, s: S, msgs: seq<Msg>) returns (fault: Option<AnteFault>)
    ensures fault.None? <==> AllEmergency(msgs) || (|msgs| == 1 && IsRecoveryGovernance(c, s, msgs[0]))
  {
    for i := 0 to |msgs|
      invariant AllEmergency(msgs[..i]) || (|msgs| == 1 && IsRecoveryGovernance(c, s, msgs[0]))
    {
      if msgs[i].body.Emergency? {
        assert msgs[..i + 1] == msgs[..i] + [msgs[i]];
        continue;
      }
      assert msgs[i] in msgs;
      if !IsRecoveryGovernance(c, s, msgs[i]) { return Some(ChainHalted); }
      if |msgs| != 1 { return Some(UnsafeBatch); }
    }
    assert msgs[..|msgs|] == msgs;
    return None;
  }

  method HaltAnteHandle<S(!new)>(c: Chain<S>, s: S, msgs: seq<Msg>, simulate: bool) returns (fault: Option<AnteFault>)
    ensures !simulate ==> (fault.None? <==> Admitted(c, s, msgs))
    ensures simulate ==> (fault.None? <==>
              && Acceptable(Present(msgs))
              && !FlagsOf(Forest(Present(msgs))).wrappedEmergency
              && ReviewAllows(c, s, FlagsOf(Forest(Present(msgs))))
              && (SomeEmergency(msgs) ==> AllEmergency(msgs)))
  {
    var scan := ScanExecutables(Present(msgs));
    if scan.Err? { return Some(Inspection); }
    if scan.value.wrappedEmergency { return Some(UnsafeBatch); }
    if scan.value.govMutation || scan.value.icaHostReceive {
      if c.reviewHeld(s).None? { return Some(TransitionHold); }
      if c.reviewHeld(s).value && !c.halted(s) { return Some(TransitionHold); }
    }
    var containsEmergency := FindEmergency(msgs);
    if containsEmergency {
      var isolated := OnlyEmergency(msgs);
      if !isolated { return Some(UnsafeBatch); }
    }
    if simulate { return None; }
    var restricted := c.halted(s);
    if !restricted && c.haltVoting(s) {
      return if scan.value.icaHostReceive then Some(ChainHalted) else None;
    }
    if !restricted { return None; }
    fault := RestrictedAdmission(c, s, msgs);
  }

  /** The marker set after signature verification. */
  predicate Marked(msgs: seq<Msg>) {
    msgs != [] && AllEmergency(msgs)
  }

  method AuthenticationAnteHandle(msgs: seq<Msg>) returns (marked: bool)
    ensures marked == Marked(msgs)
    ensures marked <==> msgs != [] && forall m :: m in msgs ==> m.body.Emergency?
  {
    if msgs == [] { return false; }
    marked := OnlyEmergency(msgs);
  }

  // ---- runs ----

  /** One executed message: the state it ran in, whether it is a message of the
      transaction itself or one run inside another, its transaction, and the
      state in which that transaction was admitted. */
  datatype Step<!S(!new)> = Step(before: S, msg: Msg, direct: bool, tx: seq<Msg>, admittedIn: S)

  /** Executes one message and, after it, the messages it wraps: those of an
      authorisation grant, whose failure fails it, or those in a packet for the
      interchain host, whose failure only undoes them. Submitted proposals wait
      for governance. */
  function ExecuteMsg<S(!new)>(c: Chain<S>, m: Msg, direct: bool, tx: seq<Msg>, admittedIn: S, s: S): (seq<Step<S>>, Option<S>)
    decreases m, 1
  {
    var step := Step(s, m, direct, tx, admittedIn);
    match c.execute(s, m, Marked(tx))
    case None => ([step], None)
    case Some(s') =>
      match m.body
      case Exec(msgs) =>
        var (steps, last) := ExecuteAnys(c, msgs, tx, admittedIn, s');
        ([step] + steps, last)
      case RecvPacket(port, payload) =>
        var (steps, last) := if port == ICA_HOST_PORT then ExecuteMsgs(c, payload, false, tx, admittedIn, s') else ([], Some(s'));
        ([step] + steps, Some(if last.Some? then last.value else s'))
      case _ => ([step], Some(s'))
  }

  function ExecuteAnys<S(!new)>(c: Chain<S>, children: seq<Any>, tx: seq<Msg>, admittedIn: S, s: S): (seq<Step<S>>, Option<S>)
    decreases children, 0
  {
    if children == [] then ([], Some(s))
    else if children[0].NilAny? || children[0].cached.None? then ([], None)
    else
      var (steps, last) := ExecuteMsg(c, children[0].cached.value, false, tx, admittedIn, s);
      if last.None? then (steps, None) else
      var (rest, end) := ExecuteAnys(c, children[1..], tx, admittedIn, last.value);
      (steps + rest, end)
  }

  /** Messages in order; a failure ends them. */
  function ExecuteMsgs<S(!new)>(c: Chain<S>, msgs: seq<Msg>, direct: bool, tx: seq<Msg>, admittedIn: S, s: S): (seq<Step<S>>, Option<S>)
    decreases msgs, 0
  {
    if msgs == [] then ([], Some(s))
    else
      var (steps, last) := ExecuteMsg(c, msgs[0], direct, tx, admittedIn, s);
      if last.None? then (steps, None) else
      var (rest, end) := ExecuteMsgs(c, msgs[1..], direct, tx, admittedIn, last.value);
      (steps + rest, end)
  }

  /** A failed transaction keeps its ante effects and nothing else. */
  function RunTx<S(!new)>(c: Chain<S>, s: S, tx: seq<Msg>): (seq<Step<S>>, S) {
    if !Admitted(c, s, tx) then ([], s) else
    match c.restOfAnte(s, tx)
    case None => ([], s)
    case Some(s') =>
      var (steps, last) := ExecuteMsgs(c, tx, true, tx, s, s');
      (steps, if last.Some? then last.value else s')
  }

  function Run<S(!new)>(c: Chain<S>, s: S, txs: seq<seq<Msg>>): seq<Step<S>> {
    if txs == [] then [] else
    var (steps, s') := RunTx(c, s, txs[0]);
    steps + Run(c, s', txs[1..])
  }

  /** What may run while quarantine is active: nothing inside another message. */
  ghost predicate Permitted<S(!new)>(c: Chain<S>, step: Step<S>) {
    c.halted(step.before) ==>
      && step.direct
      && (|| step.msg.body.Emergency?
          || (step.tx == [step.msg] && c.halted(step.admittedIn) && SingleRecovery(c, step.admittedIn, step.tx)))
  }

  ghost predicate Outside<S(!new)>(c: Chain<S>, ran: (seq<Step<S>>, Option<S>)) {
    && (forall step :: step in ran.0 ==> !c.halted(step.before))
    && (ran.1.Some? ==> !c.halted(ran.1.value))
  }

  /** An unmarked transaction that starts outside quarantine stays outside,
      whatever its messages wrap. */
  lemma {:induction false} MsgStaysOutside<S(!new)>(c: Chain<S>, m: Msg, direct: bool, tx: seq<Msg>, admittedIn: S, s: S)
    requires MarkerGuards(c) && !Marked(tx) && !c.halted(s)
    ensures Outside(c, ExecuteMsg(c, m, direct, tx, admittedIn, s))
    decreases m, 1
  {
    var out := c.execute(s, m, false);
    if out.Some? {
      match m.body
      case Exec(msgs) => AnysStayOutside(c, msgs, tx, admittedIn, out.value);
      case RecvPacket(port, payload) => UnmarkedStaysOutside(c, payload, false, tx, admittedIn, out.value);
      case _ =>
    }
  }

  lemma {:induction false} AnysStayOutside<S(!new)>(c: Chain<S>, children: seq<Any>, tx: seq<Msg>, admittedIn: S, s: S)
    requires MarkerGuards(c) && !Marked(tx) && !c.halted(s)
    ensures Outside(c, ExecuteAnys(c, children, tx, admittedIn, s))
    decreases children, 0
  {
    if children != [] && children[0].Any? && children[0].cached.Some? {
      MsgStaysOutside(c, children[0].cached.value, false, tx, admittedIn, s);
      var last := ExecuteMsg(c, children[0].cached.value, false, tx, admittedIn, s).1;
      if last.Some? {
        AnysStayOutside(c, children[1..], tx, admittedIn, last.value);
      }
    }
  }

  lemma {:induction false} UnmarkedStaysOutside<S(!new)>(c: Chain<S>, msgs: seq<Msg>, direct: bool, tx: seq<Msg>, admittedIn: S, s: S)
    requires MarkerGuards(c) && !Marked(tx) && !c.halted(s)
    ensures Outside(c, ExecuteMsgs(c, msgs, direct, tx, admittedIn, s))
    decreases msgs, 0
  {
    if msgs != [] {
      MsgStaysOutside(c, msgs[0], direct, tx, admittedIn, s);
      var last := ExecuteMsg(c, msgs[0], direct, tx, admittedIn, s).1;
      if last.Some? {
        UnmarkedStaysOutside(c, msgs[1..], direct, tx, admittedIn, last.value);
      }
    }
  }

  predicate Wraps(m: Msg) {
    m.body.Exec? || m.body.RecvPacket?
  }

  /** Messages that wrap nothing are all that run. */
  lemma {:induction false} PlainStepsBelong<S(!new)>(c: Chain<S>, msgs: seq<Msg>, tx: seq<Msg>, admittedIn: S, s: S)
    requires forall m :: m in msgs ==> !Wraps(m)
    ensures forall step :: step in ExecuteMsgs(c, msgs, true, tx, admittedIn, s).0 ==>
              step.direct && step.tx == tx && step.msg in msgs && step.admittedIn == admittedIn
    decreases |msgs|
  {
    if msgs != [] {
      var out := c.execute(s, msgs[0], Marked(tx));
      assert msgs[0] in msgs;
      assert ExecuteMsg(c, msgs[0], true, tx, admittedIn, s) == ([Step(s, msgs[0], true, tx, admittedIn)], out);
      if out.Some? {
        PlainStepsBelong(c, msgs[1..], tx, admittedIn, out.value);
      }
    }
  }

  lemma {:induction false} TxPermitted<S(!new)>(c: Chain<S>, s: S, tx: seq<Msg>)
    requires MarkerGuards(c)
    ensures forall step :: step in RunTx(c, s, tx).0 ==> Permitted(c, step)
  {
    if Admitted(c, s, tx) && c.restOfAnte(s, tx).Some? {
      var s' := c.restOfAnte(s, tx).value;
      if !Marked(tx) && !c.halted(s) {
        UnmarkedStaysOutside(c, tx, true, tx, s, s');
      } else {
        assert !AllEmergency(tx) ==> tx == [tx[0]] && IsRecoveryGovernance(c, s, tx[0]);
        PlainStepsBelong(c, tx, tx, s, s');
      }
    }
  }

  /** Quarantine at message granularity: over every run, any message that
      executes while quarantine is active, even if an earlier message of its
      own transaction switched it on, is a direct emergency message or the
      single message of an authorised recovery transaction; nothing runs inside
      another message. */
  lemma {:induction false} QuarantineHolds<S(!new)>(c: Chain<S>, s: S, txs: seq<seq<Msg>>)
    requires MarkerGuards(c)
    ensures forall step :: step in Run(c, s, txs) ==> Permitted(c, step)
    decreases |txs|
  {
    if txs != [] {
      TxPermitted(c, s, txs[0]);
      QuarantineHolds(c, RunTx(c, s, txs[0]).1, txs[1..]);
    }
  }
}
