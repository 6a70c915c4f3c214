/** The quarantined EndBlock's second half: after upstream governance ran, the
    recovery authorisation and its proposal are brought into agreement. */
module RecoveryReconcile {
  import opened Bytes
  import opened GovState
  import opened RecoveryAuthorization
  import opened GovQuarantine

  /** A live proposal can be closed when its status has its deadline. */
  predicate Closable(p: Proposal) {
    (p.status == DepositPeriod ==> p.depositEnd.Some?) && (p.status == VotingPeriod ==> p.votingEnd.Some?)
  }

  /** Governance after a proposal was closed: its queue entry and deposits gone,
      and a failed record under the record's own id. */
  function Closed(sn: Snapshot, p: Proposal, reason: Reason): Snapshot {
    Snapshot(sn.proposals[p.id := Encoded(p.(status := Failed, failedReason := reason))],
             if p.status == DepositPeriod && p.depositEnd.Some? then sn.inactive - {(p.depositEnd.value, p.id)} else sn.inactive,
             if p.status == VotingPeriod && p.votingEnd.Some? then sn.active - {(p.votingEnd.value, p.id)} else sn.active,
             DepositsWithout(sn.deposits, p.id))
  }

  /** Closing one proposal: the one queue entry of its status and deadline goes,
      its deposits go, its record becomes failed and keeps everything else, and
      nothing else changes. */
  lemma {:induction false} ClosedMeans(sn: Snapshot, p: Proposal, reason: Reason)
    ensures var after := Closed(sn, p, reason);
      && p.id in after.proposals
      && after.proposals[p.id] == Encoded(Proposal(p.id, Failed, p.expedited, p.proposer, p.messages, p.depositEnd, p.votingEnd, reason))
      && (forall id :: id != p.id ==> Unchanged(after.proposals, sn.proposals, id))
      && (forall k :: k in after.inactive <==> k in sn.inactive && !(p.status == DepositPeriod && p.depositEnd == Some(k.0) && p.id == k.1))
      && (forall k :: k in after.inactive ==> after.inactive[k] == sn.inactive[k])
      && (forall k :: k in after.active <==> k in sn.active && !(p.status == VotingPeriod && p.votingEnd == Some(k.0) && p.id == k.1))
      && (forall k :: k in after.active ==> after.active[k] == sn.active[k])
      && (forall d :: d in after.deposits <==> d in sn.deposits && d.0 != p.id)
      && (forall d :: d in after.deposits ==> after.deposits[d] == sn.deposits[d])
  {
    assert forall k: QueueKey :: k == (k.0, k.1);
  }

  /** Closes a live recovery proposal. The record's own id, not the key it was
      read under, decides which queue entry, deposits and record are written. */
  method TerminalizeRecoveryProposal(s: Store, p: Proposal, reason: Reason) returns (ok: bool)
    modifies s`proposals, s`inactive, s`active, s`deposits, s`balances
    ensures ok ==> Closable(p) && Snap(s) == Closed(old(Snap(s)), p, reason)
    ensures ok ==> Refunded(s.balances, old(s.balances), old(s.deposits), p.id)
    ensures ok ==> Conserved(s.balances, s.deposits, old(s.balances), old(s.deposits))
    ensures Closable(p) && Solvent(old(s.balances), old(s.deposits)) ==> ok
  {
    if p.status == DepositPeriod {
      if p.depositEnd.None? { return false; }
      s.inactive := s.inactive - {(p.depositEnd.value, p.id)};
    } else if p.status == VotingPeriod {
      if p.votingEnd.None? { return false; }
      s.active := s.active - {(p.votingEnd.value, p.id)};
    }
    ok := s.RefundAndDeleteDeposits(p.id);
    if ok {
      s.proposals := s.proposals[p.id := Encoded(p.(status := Failed, failedReason := reason))];
    }
  }

  /** What reconciliation decides from the state it finds. */
  datatype Verdict =
    | Abort
    | Nothing
    | Record(outcome: Outcome)
    | FailProposal(proposal: Proposal)
    | CloseRevoked(proposal: Proposal)

  function OutcomeOf(status: Status): Outcome
    requires Terminal(status)
  {
    match status
    case Passed => OutcomePassed
    case Rejected => OutcomeRejected
    case Failed => OutcomeFailed
  }

  /** `lane` judges whether a proposal is the authorised one. */
  function Judge(lane: Lane, authorization: Option<Authorization>, proposals: map<nat, Stored>, nextId: nat): Verdict {
    if authorization.None? then Nothing else
    var auth := authorization.value;
    var id := auth.proposalId;
    if auth.outcome == OutcomeRevoked then
      if id !in proposals then Nothing
      else if !proposals[id].Encoded? then Abort
      else
        var p := proposals[id].proposal;
        if Terminal(p.status) then Nothing
        else if p.status == Unspecified || !Closable(p) then Abort
        else CloseRevoked(p)
    else if auth.outcome != Open then Nothing
    else if id !in proposals then
      if nextId == id then Nothing else if nextId > id then Record(OutcomeFailed) else Abort
    else if !proposals[id].Encoded? then Abort
    else
      var p := proposals[id].proposal;
      if Terminal(p.status) then Record(OutcomeOf(p.status))
      else if p.status != Unspecified && lane(p) then Nothing
      else if !Closable(p) then Abort
      else FailProposal(p)
  }

  /** Proposals after a verdict was carried out. */
  function ProposalsAfter(verdict: Verdict, proposals: map<nat, Stored>, reason: Reason): map<nat, Stored> {
    match verdict
    case FailProposal(p) => proposals[p.id := Encoded(p.(status := Failed, failedReason := reason))]
    case CloseRevoked(p) => proposals[p.id := Encoded(p.(status := Failed, failedReason := reason))]
    case _ => proposals
  }

  function AuthorizationAfter(verdict: Verdict, authorization: Option<Authorization>): Option<Authorization> {
    match (verdict, authorization)
    case (Record(outcome), Some(auth)) => Some(auth.(outcome := outcome))
    case (FailProposal(_), Some(auth)) => Some(auth.(outcome := OutcomeFailed))
    case _ => authorization
  }

  function GovAfter(verdict: Verdict, sn: Snapshot, reason: Reason): Snapshot {
    match verdict
    case FailProposal(p) => Closed(sn, p, reason)
    case CloseRevoked(p) => Closed(sn, p, reason)
    case _ => sn
  }

  /** A closed proposal's depositors are paid; otherwise nobody is. */
  ghost predicate Paid(verdict: Verdict, now: map<string, nat>, before: map<string, nat>, deposits: map<(nat, string), nat>) {
    match verdict
    case FailProposal(p) => Refunded(now, before, deposits, p.id)
    case CloseRevoked(p) => Refunded(now, before, deposits, p.id)
    case _ => now == before
  }

  /** Recording an outcome needs a positive height and an open authorisation. */
  method MarkTerminal(blockHeight: int64, auth: Authorization, outcome: Outcome) returns (r: Option<Authorization>)
    ensures r == if auth.outcome == Open && blockHeight > 0 then Some(auth.(outcome := outcome)) else None
  {
    if auth.outcome != Open { return None; }
    if blockHeight <= 0 { return None; }
    return Some(auth.(outcome := outcome));
  }

  method FailRevokedRecoveryProposal(s: Store, auth: Authorization) returns (ok: bool)
    requires auth.outcome == OutcomeRevoked
    modifies s`proposals, s`inactive, s`active, s`deposits, s`balances
    ensures ok ==>
      forall lane ::
      var verdict := Judge(lane, Some(auth), old(s.proposals), s.nextProposalId);
      && verdict != Abort && AuthorizationAfter(verdict, Some(auth)) == Some(auth)
      && Snap(s) == GovAfter(verdict, old(Snap(s)), AuthorizationRevoked)
      && Paid(verdict, s.balances, old(s.balances), old(s.deposits))
    ensures ok ==> Conserved(s.balances, s.deposits, old(s.balances), old(s.deposits))
    ensures Solvent(old(s.balances), old(s.deposits)) ==>
      forall lane :: Judge(lane, Some(auth), old(s.proposals), s.nextProposalId) != Abort ==> ok
  {
    var id := auth.proposalId;
    if id !in s.proposals { return true; }
    if !s.proposals[id].Encoded? { return false; }
    var p := s.proposals[id].proposal;
    if Terminal(p.status) { return true; }
    if p.status == Unspecified { return false; }
    ok := TerminalizeRecoveryProposal(s, p, AuthorizationRevoked);
  }

  function FailureReason(p: Proposal): Reason {
    if p.status == Unspecified then UnsupportedStatus
    else if p.status == VotingPeriod && !p.expedited then ExpeditedNotConverted
    else NoLongerMatches
  }

  function ReasonFor(verdict: Verdict): Reason {
    match verdict
    case FailProposal(p) => FailureReason(p)
    case _ => AuthorizationRevoked
  }

  method ReconcileAuthorizedRecoveryProposal(s: Store, lane: Lane, blockHeight: int64, authorization: Option<Authorization>)
    returns (ok: bool, authorization': Option<Authorization>)
    modifies s`proposals, s`inactive, s`active, s`deposits, s`balances
    ensures ok ==>
      var verdict := Judge(lane, authorization, old(s.proposals), s.nextProposalId);
      && verdict != Abort
      && authorization' == AuthorizationAfter(verdict, authorization)
      && Snap(s) == GovAfter(verdict, old(Snap(s)), ReasonFor(verdict))
      && Paid(verdict, s.balances, old(s.balances), old(s.deposits))
    ensures ok ==> Conserved(s.balances, s.deposits, old(s.balances), old(s.deposits))
    ensures Solvent(old(s.balances), old(s.deposits)) && blockHeight > 0 ==>
      (ok <==> Judge(lane, authorization, old(s.proposals), s.nextProposalId) != Abort)
  {
    authorization' := authorization;
    if authorization.None? { return true, authorization'; }
    var auth := authorization.value;
    var id := auth.proposalId;
    if auth.outcome == OutcomeRevoked {
      ok := FailRevokedRecoveryProposal(s, auth);
      return ok, authorization';
    }
    if auth.outcome != Open { return true, authorization'; }
    if id !in s.proposals {
      if s.nextProposalId == id { return true, authorization'; }
      if s.nextProposalId < id { return false, authorization'; }
      authorization' := MarkTerminal(blockHeight, auth, OutcomeFailed);
      return authorization'.Some?, authorization';
    }
    if !s.proposals[id].Encoded? { return false, authorization'; }
    var p := s.proposals[id].proposal;
    if Terminal(p.status) {
      authorization' := MarkTerminal(blockHeight, auth, OutcomeOf(p.status));
      return authorization'.Some?, authorization';
    }
    if p.status != Unspecified && lane(p) { return true, authorization'; }
    ok := TerminalizeRecoveryProposal(s, p, FailureReason(p));
    if !ok { return false, authorization'; }
    authorization' := MarkTerminal(blockHeight, auth, OutcomeFailed);
    return authorization'.Some?, authorization';
  }

  // ---- what a successful quarantined EndBlock guarantees ----

  /** Not yet submitted with its id still next, or live and still authorised. */
  predicate PendingOrLive(lane: Lane, proposals: map<nat, Stored>, nextId: nat, id: nat) {
    || (id !in proposals && nextId == id)
    || (&& Target(proposals, id).Some?
        && !Terminal(Target(proposals, id).value.status) && lane(Target(proposals, id).value))
  }

  /** The recorded outcome is passed, rejected or failed exactly as the stored
      proposal is, or failed for an id that was skipped. */
  predicate OutcomeMatches(proposals: map<nat, Stored>, nextId: nat, id: nat, outcome: Outcome) {
    if id !in proposals then nextId > id && outcome == OutcomeFailed
    else
      proposals[id].Encoded? &&
      match proposals[id].proposal.status
      case Passed => outcome == OutcomePassed
      case Rejected => outcome == OutcomeRejected
      case Failed => outcome == OutcomeFailed
      case _ => false
  }

  predicate NoLiveProposal(proposals: map<nat, Stored>, id: nat) {
    id !in proposals || TerminalAt(proposals, id)
  }

  /** A newly recorded outcome matches, and a revoked authorisation has no live
      proposal. */
  predicate Promised(was: Authorization, now: Authorization, proposals: map<nat, Stored>, nextId: nat) {
    && (was.outcome == Open && now.outcome != Open ==> OutcomeMatches(proposals, nextId, now.proposalId, now.outcome))
    && (now.outcome == OutcomeRevoked ==> NoLiveProposal(proposals, now.proposalId))
  }

  /** The authorisation state machine after a successful block. What it promises
      about outcomes it keeps when the state before the block was settleable. */
  predicate Settled(lane: Lane, was: Option<Authorization>, now: Option<Authorization>,
                    proposals: map<nat, Stored>, nextId: nat, settleable: bool) {
    match (was, now)
    case (None, None) => true
    case (Some(before), Some(after)) =>
      && after == before.(outcome := after.outcome)
      && (before.outcome != Open ==> after.outcome == before.outcome)
      && (after.outcome == Open ==> PendingOrLive(lane, proposals, nextId, after.proposalId))
      && (settleable ==> Promised(before, after, proposals, nextId))
    case _ => false
  }

  predicate OwnOrTerminal(proposals: map<nat, Stored>, id: nat) {
    OwnId(proposals, id) || TerminalAt(proposals, id)
  }

  lemma {:induction false} VerdictSettles(lane: Lane, authorization: Option<Authorization>, proposals: map<nat, Stored>, nextId: nat, reason: Reason)
    ensures var verdict := Judge(lane, authorization, proposals, nextId);
      verdict != Abort ==>
      Settled(lane, authorization, AuthorizationAfter(verdict, authorization), ProposalsAfter(verdict, proposals, reason), nextId,
              authorization.Some? && OwnOrTerminal(proposals, authorization.value.proposalId))
  {
  }

  /** What is decided for an open authorisation, status by status. */
  lemma {:induction false} OpenVerdict(lane: Lane, auth: Authorization, proposals: map<nat, Stored>, nextId: nat)
    requires auth.outcome == Open
    ensures var verdict, id := Judge(lane, Some(auth), proposals, nextId), auth.proposalId;
      if id !in proposals then
        && (verdict == Nothing <==> nextId == id) && (verdict == Record(OutcomeFailed) <==> nextId > id) && (verdict == Abort <==> nextId < id)
      else if !proposals[id].Encoded? then verdict == Abort
      else
        var p := proposals[id].proposal;
        && (verdict == Record(OutcomePassed) <==> p.status == Passed)
        && (verdict == Record(OutcomeRejected) <==> p.status == Rejected)
        && (verdict == Record(OutcomeFailed) <==> p.status == Failed)
        && (verdict == Nothing <==> (p.status == DepositPeriod || p.status == VotingPeriod) && lane(p))
        && (verdict == Abort <==>
              !lane(p) && ((p.status == DepositPeriod && p.depositEnd == None) || (p.status == VotingPeriod && p.votingEnd == None)))
        && (verdict == FailProposal(p) <==>
              || p.status == Unspecified
              || (!lane(p) && ((p.status == DepositPeriod && p.depositEnd.Some?) || (p.status == VotingPeriod && p.votingEnd.Some?))))
  {
  }

  /** What is decided for a revoked authorisation, and for one already closed. */
  lemma {:induction false} ClosedVerdict(lane: Lane, auth: Authorization, proposals: map<nat, Stored>, nextId: nat)
    requires auth.outcome != Open
    ensures var verdict, id := Judge(lane, Some(auth), proposals, nextId), auth.proposalId;
      if auth.outcome != OutcomeRevoked || id !in proposals then verdict == Nothing
      else if !proposals[id].Encoded? then verdict == Abort
      else
        var p := proposals[id].proposal;
        && (verdict == Nothing <==> p.status == Passed || p.status == Rejected || p.status == Failed)
        && (verdict == CloseRevoked(p) <==>
              (p.status == DepositPeriod && p.depositEnd.Some?) || (p.status == VotingPeriod && p.votingEnd.Some?))
        && (verdict == Nothing || verdict == CloseRevoked(p) || verdict == Abort)
  {
  }

  /** A verdict that fails a proposal gives the reason that applies. */
  lemma {:induction false} FailureExplained(p: Proposal)
    ensures FailureReason(p) == UnsupportedStatus <==> p.status == Unspecified
    ensures FailureReason(p) == ExpeditedNotConverted <==> p.status == VotingPeriod && !p.expedited
    ensures p.status == DepositPeriod || (p.status == VotingPeriod && p.expedited) ==> FailureReason(p) == NoLongerMatches
  {
  }

  // ---- from the state before the block ----

  ghost predicate NamedByDue(sn: Snapshot, id: nat, now: Time) {
    exists e :: Due(sn, e, now) && e.key.1 == id
  }

  /** Reconciliation gives up on this record, so no block with it succeeds. */
  predicate Refused(p: Proposal, auth: Authorization) {
    !Closable(p) || (auth.outcome == OutcomeRevoked && p.status == Unspecified)
  }

  /** The record under the authorised id carries that id, or is terminal, or is
      named by a due queue entry, or would be refused. A due entry makes the
      quarantine pass rewrite a misfiled record under the id it is read by. */
  ghost predicate Settleable(before: Snapshot, auth: Authorization, now: Time) {
    var id := auth.proposalId;
    OwnOrTerminal(before.proposals, id) || NamedByDue(before, id, now) || Refused(Target(before.proposals, id).value, auth)
  }

  /** The quarantine pass leaves a record that carries its own id, or is
      terminal, exactly where one was or a due entry named it. */
  lemma {:induction false} PassFilesRecord(lane: Lane, before: Snapshot, after: Snapshot, now: Time, id: nat)
    requires Quarantined(lane, before, after, now)
    ensures OwnOrTerminal(after.proposals, id) <==> OwnOrTerminal(before.proposals, id) || NamedByDue(before, id, now)
    ensures !NamedByDue(before, id, now) ==> Unchanged(after.proposals, before.proposals, id)
  {
    EachProposal(lane, before, after, now, id);
    if NamedByDue(before, id, now) {
      var e :| Due(before, e, now) && e.key.1 == id;
      if !Kept(lane, before, e, now) {
        assert e in DueEntries(before, now);
        assert Fails(lane, before, now, DueEntries(before, now), id);
      }
    } else {
      assert forall e :: e in DueEntries(before, now) ==> Due(before, e, now);
    }
  }

  /** What upstream governance may find and leave: records under their own ids,
      or as they were. */
  lemma {:induction false} SettleableSuffices(lane0: Lane, before: Snapshot, drained: Snapshot, now: Time, found: map<nat, Stored>,
                                              lane: Lane, auth: Authorization, nextId: nat, reason: Reason)
    requires Quarantined(lane0, before, drained, now) && KeepsIds(found, drained.proposals)
    requires forall p :: lane(p) ==> p.id == auth.proposalId
    requires Judge(lane, Some(auth), found, nextId) != Abort && Settleable(before, auth, now)
    ensures var verdict := Judge(lane, Some(auth), found, nextId);
      Promised(auth, AuthorizationAfter(verdict, Some(auth)).value, ProposalsAfter(verdict, found, reason), nextId)
  {
    var id := auth.proposalId;
    PassFilesRecord(lane0, before, drained, now, id);
    VerdictSettles(lane, Some(auth), found, nextId, reason);
    if !OwnOrTerminal(found, id) {
      assert id in found && !OwnId(found, id);
      assert id in drained.proposals && found[id] == drained.proposals[id];
      assert !OwnOrTerminal(drained.proposals, id);
      assert Target(found, id) == Target(before.proposals, id);
    }
  }

  /** Without it, upstream governance that changes nothing is followed by a
      successful reconciliation that breaks the promise. */
  lemma {:induction false} SettleableNecessary(lane0: Lane, before: Snapshot, drained: Snapshot, now: Time,
                                               lane: Lane, auth: Authorization, nextId: nat, reason: Reason)
    requires Quarantined(lane0, before, drained, now)
    requires forall p :: lane(p) ==> p.id == auth.proposalId
    requires auth.outcome == Open || auth.outcome == OutcomeRevoked
    requires !Settleable(before, auth, now)
    ensures var verdict := Judge(lane, Some(auth), drained.proposals, nextId);
      && verdict != Abort
      && !Promised(auth, AuthorizationAfter(verdict, Some(auth)).value, ProposalsAfter(verdict, drained.proposals, reason), nextId)
  {
    var id := auth.proposalId;
    PassFilesRecord(lane0, before, drained, now, id);
    var p := Target(drained.proposals, id).value;
    var verdict := Judge(lane, Some(auth), drained.proposals, nextId);
    assert verdict == if auth.outcome == Open then FailProposal(p) else CloseRevoked(p);
    assert ProposalsAfter(verdict, drained.proposals, reason)[id] == drained.proposals[id];
  }

  /** The exact condition: from a state before the block, every upstream
      behaviour followed by a successful reconciliation keeps the promise if and
      only if the state is settleable. */
  lemma {:induction false} SettleableExactly(lane0: Lane, before: Snapshot, drained: Snapshot, now: Time,
                                             lane: Lane, auth: Authorization, nextId: nat, reason: Reason)
    requires Quarantined(lane0, before, drained, now)
    requires forall p :: lane(p) ==> p.id == auth.proposalId
    requires auth.outcome == Open || auth.outcome == OutcomeRevoked
    ensures Settleable(before, auth, now) <==>
            forall found :: KeepsIds(found, drained.proposals) ==>
              var verdict := Judge(lane, Some(auth), found, nextId);
              verdict != Abort ==>
                Promised(auth, AuthorizationAfter(verdict, Some(auth)).value, ProposalsAfter(verdict, found, reason), nextId)
  {
    if Settleable(before, auth, now) {
      forall found | KeepsIds(found, drained.proposals) && Judge(lane, Some(auth), found, nextId) != Abort
        ensures var verdict := Judge(lane, Some(auth), found, nextId);
          Promised(auth, AuthorizationAfter(verdict, Some(auth)).value, ProposalsAfter(verdict, found, reason), nextId)
      {
        SettleableSuffices(lane0, before, drained, now, found, lane, auth, nextId, reason);
      }
    } else {
      SettleableNecessary(lane0, before, drained, now, lane, auth, nextId, reason);
      assert KeepsIds(drained.proposals, drained.proposals);
    }
  }

  // ---- the end of a block ----

  /** Governance with the recovery authorisation beside it. */
  datatype Governance = Governance(gov: Snapshot, nextId: nat, authorization: Option<Authorization>)

  /** What a successful quarantined end of block guarantees. */
  ghost predicate Ended(lane: Lane, now: Time, before: Governance, after: Governance) {
    && KeepsIds(after.gov.proposals, before.gov.proposals)
    && Settled(lane, before.authorization, after.authorization, after.gov.proposals, after.nextId,
               before.authorization.Some? && Settleable(before.gov, before.authorization.value, now))
  }

  /** Upstream x/gov tallies, executes and prunes. It stores a proposal under
      the proposal's own id; nothing else is known about what it does to the
      governance state or to the scheduled plan. */
  method UpstreamEndBlock(s: Store, ctx: Context) returns (ok: bool, scheduled: Option<Plan>)
    modifies s
    ensures KeepsIds(s.proposals, old(s.proposals))
  {
    var proposals: map<nat, Stored> := *;
    if KeepsIds(proposals, s.proposals) {
      s.proposals := proposals;
    }
    s.inactive, s.active := *, *;
    s.deposits, s.balances, s.nextProposalId := *, *, *;
    ok, scheduled := *, *;
  }

  lemma {:induction false} VerdictKeepsIds(lane: Lane, authorization: Option<Authorization>, proposals: map<nat, Stored>, nextId: nat, reason: Reason)
    ensures KeepsIds(ProposalsAfter(Judge(lane, authorization, proposals, nextId), proposals, reason), proposals)
  {
  }

  lemma {:induction false} BlockSettles(lane0: Lane, before: Governance, drained: Snapshot, now: Time, found: map<nat, Stored>,
                                        lane: Lane, after: Governance, reason: Reason)
    requires Quarantined(lane0, before.gov, drained, now) && KeepsIds(found, drained.proposals)
    requires forall p :: lane(p) ==> before.authorization.Some? && p.id == before.authorization.value.proposalId
    requires var verdict := Judge(lane, before.authorization, found, after.nextId);
      && verdict != Abort && after.authorization == AuthorizationAfter(verdict, before.authorization)
      && after.gov.proposals == ProposalsAfter(verdict, found, reason)
    ensures Ended(lane, now, before, after)
  {
    VerdictKeepsIds(lane, before.authorization, found, after.nextId, reason);
    PassPromises(lane0, before.gov, drained, now);
    KeepsIdsTransitive(before.gov.proposals, drained.proposals, found);
    KeepsIdsTransitive(before.gov.proposals, found, after.gov.proposals);
    VerdictSettles(lane, before.authorization, found, after.nextId, reason);
    if before.authorization.Some? && Settleable(before.gov, before.authorization.value, now) {
      SettleableSuffices(lane0, before.gov, drained, now, found, lane, before.authorization.value, after.nextId, reason);
    }
  }

  /** x/gov's EndBlock. `held` is the post-incident review hold, None when it
      cannot be read. Under quarantine or a hold a success keeps every record
      under its id and settles the authorisation. */
  method EndBlock(s: Store, ctx: Context, held: Option<bool>) returns (ok: bool, ctx': Context)
    modifies s
    ensures held.None? ==> !ok
    ensures ok ==> KeepsIds(s.proposals, old(s.proposals))
    ensures ok && (ctx.halted || held.value) ==>
      && ctx' == ctx.(scheduled := ctx'.scheduled, authorization := ctx'.authorization)
      && Ended(p => Authorized(ctx'.(authorization := ctx.authorization), p), ctx.blockTime,
               Governance(old(Snap(s)), old(s.nextProposalId), ctx.authorization),
               Governance(Snap(s), s.nextProposalId, ctx'.authorization))
  {
    ctx' := ctx;
    var scheduled;
    if held.None? { return false, ctx'; }
    if !ctx.halted && !held.value {
      ok, scheduled := UpstreamEndBlock(s, ctx);
      ctx' := ctx.(scheduled := scheduled);
      return ok, ctx';
    }
    ok := FailDisallowedQueuedProposals(s, ctx);
    if !ok { return; }
    ghost var drained := Snap(s);
    ok, scheduled := UpstreamEndBlock(s, ctx);
    if !ok { return; }
    ghost var found := s.proposals;
    var seen := ctx.(scheduled := scheduled);
    var lane: Lane := p => Authorized(seen, p);
    var authorization;
    ok, authorization := ReconcileAuthorizedRecoveryProposal(s, lane, ctx.blockHeight, ctx.authorization);
    ctx' := seen.(authorization := authorization);
    if ok {
      assert ctx'.(authorization := ctx.authorization) == seen;
      BlockSettles(p => Authorized(ctx, p), Governance(old(Snap(s)), old(s.nextProposalId), ctx.authorization), drained, ctx.blockTime, found,
                   lane, Governance(Snap(s), s.nextProposalId, authorization),
                   ReasonFor(Judge(lane, ctx.authorization, found, s.nextProposalId)));
    }
  }

  // ---- runs of blocks ----

  /** Transactions and unquarantined blocks may do anything to governance and
      to the authorisation, except store a proposal under another's id. */
  datatype Step = Ordinary | QuarantinedBlock(lane: Lane, now: Time)

  ghost predicate Follows(step: Step, before: Governance, after: Governance) {
    match step
    case Ordinary => KeepsIds(after.gov.proposals, before.gov.proposals)
    case QuarantinedBlock(lane, now) => Ended(lane, now, before, after)
  }

  ghost predicate IsRun(states: seq<Governance>, steps: seq<Step>) {
    |states| == |steps| + 1 && forall i :: 0 <= i < |steps| ==> Follows(steps[i], states[i], states[i + 1])
  }

  ghost predicate AllOwnIds(proposals: map<nat, Stored>) {
    forall id :: OwnId(proposals, id)
  }

  lemma {:induction false} KeepsAllOwnIds(before: map<nat, Stored>, after: map<nat, Stored>)
    requires AllOwnIds(before) && KeepsIds(after, before)
    ensures AllOwnIds(after)
  {
    forall id
      ensures OwnId(after, id)
    {
      assert OwnId(before, id);
    }
  }

  /** From a state whose records carry their own ids, every successful
      quarantined block of every run settles the authorisation it finds without
      any condition. */
  lemma {:induction false} RunSettles(states: seq<Governance>, steps: seq<Step>, n: nat)
    requires IsRun(states, steps) && AllOwnIds(states[0].gov.proposals) && n <= |steps|
    ensures AllOwnIds(states[n].gov.proposals)
    ensures n < |steps| && steps[n].QuarantinedBlock? ==>
      Settled(steps[n].lane, states[n].authorization, states[n + 1].authorization,
              states[n + 1].gov.proposals, states[n + 1].nextId, states[n].authorization.Some?)
  {
    if n > 0 {
      RunSettles(states, steps, n - 1);
      assert Follows(steps[n - 1], states[n - 1], states[n]);
      KeepsAllOwnIds(states[n - 1].gov.proposals, states[n].gov.proposals);
    }
    if n < |steps| {
      assert Follows(steps[n], states[n], states[n + 1]);
      assert states[n].authorization.Some? ==> OwnId(states[n].gov.proposals, states[n].authorization.value.proposalId);
    }
  }

  /** A record filed under another proposal's id slips through: the revoked
      authorisation keeps its live proposal although reconciliation succeeds. */
  lemma {:induction false} MisfiledRecordStaysLive(lane: Lane, auth: Authorization, reason: Reason)
    requires auth.outcome == OutcomeRevoked
    ensures exists proposals: map<nat, Stored> ::
              var verdict := Judge(lane, Some(auth), proposals, 0);
              && verdict != Abort
              && !NoLiveProposal(ProposalsAfter(verdict, proposals, reason), auth.proposalId)
  {
    var p := Proposal(auth.proposalId + 1, VotingPeriod, true, "", [], None, Some(0), Text(""));
    var proposals: map<nat, Stored> := map[auth.proposalId := Encoded(p)];
    assert Judge(lane, Some(auth), proposals, 0) == CloseRevoked(p);
    assert Target(ProposalsAfter(CloseRevoked(p), proposals, reason), auth.proposalId) == Some(p);
  }

  /** The same record in a store that can pay: reconciliation does succeed, and
      the proposal of the revoked authorisation is still live. */
  method ReconcileMisfiledRecord(lane: Lane, auth: Authorization) returns (s: Store, ok: bool, kept: Option<Authorization>)
    requires auth.outcome == OutcomeRevoked
    ensures ok && kept == Some(auth) && !NoLiveProposal(s.proposals, auth.proposalId)
  {
    var p := Proposal(auth.proposalId + 1, VotingPeriod, true, "", [], None, Some(0), Text(""));
    s := new Store(map[auth.proposalId := Encoded(p)], 0);
    assert Judge(lane, Some(auth), s.proposals, 0) == CloseRevoked(p);
    ok, kept := ReconcileAuthorizedRecoveryProposal(s, lane, 1, Some(auth));
    assert Target(s.proposals, auth.proposalId) == Some(p);
  }
}
