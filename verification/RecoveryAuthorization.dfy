/** Guardian recovery authorisations: which single governance action they
    permit, and how that action is bound by digest. */
module RecoveryAuthorization {
  import opened Bytes
  import opened Encoding
  import opened GovState
  import opened Readers

  datatype ActionType = SoftwareUpgrade | CancelUpgrade | Revoke

  /** An empty outcome, or the terminal one. */
  datatype Outcome = Open | OutcomePassed | OutcomeFailed | OutcomeRejected | OutcomeRevoked

  datatype Authorization = Authorization(
    haltCeremony: string,
    proposalId: nat,
    actionDigest: Digest,
    planDigest: Digest,
    submitter: string,
    actionType: ActionType,
    outcome: Outcome)

  /** What a block's governance work reads besides x/gov's own state. Decoders
      return None on malformed bytes. */
  datatype Context = Context(
    h: Hasher,
    blockTime: Time,
    blockHeight: int64,
    halted: bool,
    activeCeremony: string,
    authority: string,
    decodeUpgrade: bytes -> Option<(string, Plan)>,
    decodeCancel: bytes -> Option<string>,
    planBasic: Plan -> bool,
    scheduled: Option<Plan>,
    authorization: Option<Authorization>)

  const ACTION_TAG: bytes := Ascii("zerone.emergency/recovery-action/v1\0")
  const PLAN_TAG: bytes := Ascii("zerone.emergency/upgrade-plan/v1\0")
  const UPGRADE_URL: bytes := Ascii("/cosmos.upgrade.v1beta1.MsgSoftwareUpgrade")
  const CANCEL_URL: bytes := Ascii("/cosmos.upgrade.v1beta1.MsgCancelUpgrade")

  /** `uint64(height)` of a signed height. */
  function Unsigned(n: int64): uint64 {
    if n < 0 then n + TWO_64 else n
  }

  function ActionPreimage(a: Action): bytes {
    ACTION_TAG + FrameAll([a.typeUrl, a.value])
  }

  function PlanPreimage(p: Plan): bytes {
    PLAN_TAG + (Frame(p.name) + (U64(Unsigned(p.height)) + Frame(p.info)))
  }

  /** What an action's digest is taken of: the tag, then type and value, each
      behind its eight-byte length. */
  lemma {:induction false} ActionReadBack(a: Action)
    ensures ACTION_TAG <= ActionPreimage(a)
    ensures ReadFrames(ActionPreimage(a)[|ACTION_TAG|..], 2) == Some(([a.typeUrl, a.value], []))
  {
    var fields: seq<bytes> := [a.typeUrl, a.value];
    assert ActionPreimage(a)[|ACTION_TAG|..] == FrameAll(fields) + [];
    FramesReadBack(fields, []);
  }

  /** What a plan's digest is taken of: the tag, the framed name, the height in
      eight bytes of two's complement, and the framed information. */
  lemma {:induction false} PlanReadBack(p: Plan)
    ensures PLAN_TAG <= PlanPreimage(p)
    ensures exists afterName, height, afterHeight ::
              && ReadFrame(PlanPreimage(p)[|PLAN_TAG|..]) == Some((p.name, afterName))
              && ReadU64(afterName) == Some((height, afterHeight)) && (height - p.height) % TWO_64 == 0
              && ReadFrame(afterHeight) == Some((p.info, []))
  {
    var afterHeight := Frame(p.info);
    var afterName := U64(Unsigned(p.height)) + afterHeight;
    assert PlanPreimage(p)[|PLAN_TAG|..] == Frame(p.name) + afterName;
    FrameReadBack(p.name, afterName);
    U64ReadBack(Unsigned(p.height), afterHeight);
    assert afterHeight + [] == afterHeight;
    FrameReadBack(p.info, []);
  }

  /** The digest binds the exact bytes governance will execute. */
  lemma {:induction false} ActionDigestBinds(h: Hasher, a: Action, b: Action)
    requires h(ActionPreimage(a)) == h(ActionPreimage(b))
    ensures a == b || Collide(h, {ActionPreimage(a)}, {ActionPreimage(b)})
  {
    var fa, fb: seq<bytes> := [a.typeUrl, a.value], [b.typeUrl, b.value];
    if ActionPreimage(a) == ActionPreimage(b) {
      SplitEqual(ACTION_TAG, ACTION_TAG, FrameAll(fa), FrameAll(fb));
      FrameAllInjective(fa, fb);
      assert fa[0] == fb[0] && fa[1] == fb[1];
    } else {
      assert ActionPreimage(a) in {ActionPreimage(a)} && ActionPreimage(b) in {ActionPreimage(b)};
    }
  }

  /** Likewise for an upgrade plan, field by field. */
  lemma {:induction false} PlanDigestBinds(h: Hasher, p: Plan, q: Plan)
    requires h(PlanPreimage(p)) == h(PlanPreimage(q))
    ensures p == q || Collide(h, {PlanPreimage(p)}, {PlanPreimage(q)})
  {
    if PlanPreimage(p) == PlanPreimage(q) {
      var rp, rq := U64(Unsigned(p.height)) + Frame(p.info), U64(Unsigned(q.height)) + Frame(q.info);
      SplitEqual(PLAN_TAG, PLAN_TAG, Frame(p.name) + rp, Frame(q.name) + rq);
      FramePrefixFree(p.name, q.name, rp, rq);
      U64PrefixFree(Unsigned(p.height), Unsigned(q.height), Frame(p.info), Frame(q.info));
      assert Frame(p.info) + [] == Frame(p.info) && Frame(q.info) + [] == Frame(q.info);
      FramePrefixFree(p.info, q.info, [], []);
    } else {
      assert PlanPreimage(p) in {PlanPreimage(p)} && PlanPreimage(q) in {PlanPreimage(q)};
    }
  }

  /** The authorisation in force: open, and of the ceremony now in quarantine. */
  function LiveAuthorization(ctx: Context): Option<Authorization> {
    if && ctx.authorization.Some?
       && ctx.authorization.value.outcome == Open
       && ctx.authorization.value.haltCeremony != ""
       && ctx.authorization.value.haltCeremony == ctx.activeCeremony
       && ctx.halted
    then ctx.authorization else None
  }

  predicate MatchesAuthorizedAction(ctx: Context, action: Option<Action>, auth: Authorization) {
    && action.Some?
    && ctx.h(ActionPreimage(action.value)) == auth.actionDigest
    && if action.value.typeUrl == UPGRADE_URL then
         && auth.actionType == SoftwareUpgrade
         && var msg := ctx.decodeUpgrade(action.value.value);
         && msg.Some? && msg.value.0 == ctx.authority
         && ctx.planBasic(msg.value.1) && msg.value.1.height > ctx.blockHeight
         && ctx.h(PlanPreimage(msg.value.1)) == auth.planDigest
       else if action.value.typeUrl == CANCEL_URL then
         && auth.actionType == CancelUpgrade
         && ctx.decodeCancel(action.value.value) == Some(ctx.authority)
         && ctx.scheduled.Some? && ctx.h(PlanPreimage(ctx.scheduled.value)) == auth.planDigest
       else false
  }

  /** The proposal the live authorisation names: expedited, from the authorised
      submitter, with the authorised action as its only message. */
  predicate Authorized(ctx: Context, p: Proposal) {
    var live := LiveAuthorization(ctx);
    && live.Some?
    && p.id == live.value.proposalId
    && p.expedited
    && p.proposer == live.value.submitter
    && |p.messages| == 1
    && MatchesAuthorizedAction(ctx, p.messages[0], live.value)
  }

  /** One authorisation permits one action: two proposals it authorises execute
      the same bytes, or their digests collide. */
  lemma {:induction false} AuthorizedActionUnique(ctx: Context, p: Proposal, q: Proposal)
    requires Authorized(ctx, p) && Authorized(ctx, q)
    ensures && p.messages[0].Some? && q.messages[0].Some?
            && (p.messages == q.messages
                || Collide(ctx.h, {ActionPreimage(p.messages[0].value)}, {ActionPreimage(q.messages[0].value)}))
  {
    ActionDigestBinds(ctx.h, p.messages[0].value, q.messages[0].value);
    assert p.messages == [p.messages[0]] && q.messages == [q.messages[0]];
  }

  /** A proposal is the authorised one only in the quarantine its authorisation
      was made for, while that is open, and only with one message: an upgrade of
      this authority to a plan still ahead, or the cancellation of the plan that
      is scheduled, with action and plan of the authorised digests. */
  lemma {:induction false} AuthorizedExactly(ctx: Context, p: Proposal)
    ensures Authorized(ctx, p) <==>
            && ctx.halted && ctx.authorization.Some?
            && var auth := ctx.authorization.value;
            && auth.outcome == Open && auth.haltCeremony == ctx.activeCeremony && ctx.activeCeremony != ""
            && p.id == auth.proposalId && p.expedited && p.proposer == auth.submitter
            && exists action, plan ::
                 && p.messages == [Some(action)]
                 && ctx.h(ActionPreimage(action)) == auth.actionDigest && ctx.h(PlanPreimage(plan)) == auth.planDigest
                 && (|| (&& action.typeUrl == UPGRADE_URL && auth.actionType == SoftwareUpgrade
                         && ctx.decodeUpgrade(action.value) == Some((ctx.authority, plan))
                         && ctx.planBasic(plan) && plan.height > ctx.blockHeight)
                     || (&& action.typeUrl == CANCEL_URL && auth.actionType == CancelUpgrade
                         && ctx.decodeCancel(action.value) == Some(ctx.authority) && ctx.scheduled == Some(plan)))
  {
    UrlsDiffer();
    if Authorized(ctx, p) {
      var action := p.messages[0].value;
      assert p.messages == [Some(action)];
      if action.typeUrl == UPGRADE_URL {
        var msg := ctx.decodeUpgrade(action.value).value;
        assert msg == (ctx.authority, msg.1);
      }
    }
  }

  lemma {:induction false} UrlsDiffer()
    ensures UPGRADE_URL != CANCEL_URL
  {
    assert |UPGRADE_URL| == 42 && |CANCEL_URL| == 40;
  }

  /** A proposal submission as a transaction carries it. */
  datatype Submission = Submission(proposer: string, expedited: bool, messages: seq<Option<Action>>)

  /** Submissions admitted during quarantine. `nextId` is the governance
      sequence, None when it cannot be read. */
  predicate AuthorizedSubmission(ctx: Context, nextId: Option<nat>, m: Submission) {
    && m.expedited && |m.messages| == 1 && m.proposer != ""
    && var live := LiveAuthorization(ctx);
    && live.Some? && m.proposer == live.value.submitter
    && nextId == Some(live.value.proposalId)
    && MatchesAuthorizedAction(ctx, m.messages[0], live.value)
  }

  /** x/gov stores a submission under the next id, in its deposit period or,
      when the deposit suffices, already in its voting period. */
  function Submitted(nextId: nat, m: Submission, depositEnd: Time, votingEnd: Option<Time>): Proposal {
    Proposal(nextId, if votingEnd == None then DepositPeriod else VotingPeriod, m.expedited, m.proposer, m.messages,
             Some(depositEnd), votingEnd, Text(""))
  }

  /** The admission rule for submissions and the rule for stored proposals are
      one: a submission by a named proposer is admitted exactly when the
      proposal it becomes is the authorised one. */
  lemma {:induction false} AdmittedBecomesAuthorized(ctx: Context, nextId: nat, m: Submission, depositEnd: Time, votingEnd: Option<Time>)
    requires m.proposer != ""
    ensures AuthorizedSubmission(ctx, Some(nextId), m) <==> Authorized(ctx, Submitted(nextId, m, depositEnd, votingEnd))
  {
  }
}
