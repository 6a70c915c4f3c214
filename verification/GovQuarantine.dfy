/** The quarantined EndBlock's first half: due queue entries are failed unless
    they are the one authorised recovery action. */
module GovQuarantine {
  import opened Bytes
  import opened GovState
  import opened RecoveryAuthorization

  datatype Queue = Inactive | Active

  datatype Entry = Entry(queue: Queue, key: QueueKey)

  function ExpectedStatus(q: Queue): Status {
    if q == Inactive then DepositPeriod else VotingPeriod
  }

  /** The proposal agrees with the entry's status and deadline. */
  predicate Coherent(p: Proposal, e: Entry) {
    p.status == ExpectedStatus(e.queue) && OnSchedule(p.status, p.depositEnd, p.votingEnd, e.key.0)
  }

  /** The proposal an entry points at, if it is there and decodes. */
  function Target(proposals: map<nat, Stored>, id: nat): Option<Proposal> {
    if id in proposals && proposals[id].Encoded? then Some(proposals[id].proposal) else None
  }

  /** The proposal stored under an id carries that id itself. */
  predicate OwnId(proposals: map<nat, Stored>, id: nat) {
    Target(proposals, id).Some? ==> Target(proposals, id).value.id == id
  }

  /** Whatever was written was written under the record's own id. */
  predicate KeepsIds(now: map<nat, Stored>, before: map<nat, Stored>) {
    forall id :: id in now ==> (id in before && now[id] == before[id]) || OwnId(now, id)
  }

  lemma {:induction false} KeepsIdsTransitive(a: map<nat, Stored>, b: map<nat, Stored>, c: map<nat, Stored>)
    requires KeepsIds(b, a) && KeepsIds(c, b)
    ensures KeepsIds(c, a)
  {
    forall id | id in c
      ensures (id in a && c[id] == a[id]) || OwnId(c, id)
    {
      assert id in b && c[id] == b[id] ==> OwnId(c, id) == OwnId(b, id);
    }
  }

  /** The recovery lane as this pass sees it: some judgement of proposals that
      does not depend on their status or failure reason. */
  type Lane = Proposal -> bool

  ghost predicate IgnoresStatus(lane: Lane) {
    forall p: Proposal, s: Status, reason: Reason :: lane(p.(status := s, failedReason := reason)) == lane(p)
  }

  predicate Allowed(lane: Lane, proposals: map<nat, Stored>, e: Entry, valueId: nat) {
    var target := Target(proposals, e.key.1);
    && target.Some? && e.key.1 == valueId && target.value.id == e.key.1
    && Coherent(target.value, e) && lane(target.value)
  }

  /** What failing an entry writes: nothing over a terminal record, otherwise a
      failed proposal that keeps every message that could be decoded. */
  function FailedProposals(proposals: map<nat, Stored>, id: nat): map<nat, Stored> {
    if TerminalAt(proposals, id) then proposals else
    match Target(proposals, id)
    case Some(p) => proposals[id := Encoded(p.(id := id, status := Failed, failedReason := QuarantinePermitsOneAction))]
    case None => proposals[id := Encoded(Proposal(id, Failed, false, "", [], None, None, QuarantinePermitsOneAction))]
  }

  datatype Snapshot = Snapshot(proposals: map<nat, Stored>, inactive: map<QueueKey, nat>, active: map<QueueKey, nat>,
                               deposits: map<(nat, string), nat>)

  function Snap(s: Store): Snapshot
    reads s
  {
    Snapshot(s.proposals, s.inactive, s.active, s.deposits)
  }

  function Entries(sn: Snapshot, q: Queue): map<QueueKey, nat> {
    if q == Inactive then sn.inactive else sn.active
  }

  /** What failing an entry does to governance. */
  function FailEntry(sn: Snapshot, e: Entry): Snapshot {
    Snapshot(FailedProposals(sn.proposals, e.key.1),
             if e.queue == Inactive then sn.inactive - {e.key} else sn.inactive,
             if e.queue == Active then sn.active - {e.key} else sn.active,
             DepositsWithout(sn.deposits, e.key.1))
  }

  predicate UnreadableAt(proposals: map<nat, Stored>, id: nat) {
    id in proposals && proposals[id].Unreadable?
  }

  /** One queue entry: kept untouched if it is allowed, failed otherwise. Only
      an unreadable proposal or a refund the module cannot pay aborts. */
  method FailDisallowedQueuedProposal(s: Store, lane: Lane, e: Entry, valueId: nat) returns (r: Option<bool>)
    modifies s`proposals, s`inactive, s`active, s`deposits, s`balances
    ensures r.Some? ==> r.value == !Allowed(lane, old(s.proposals), e, valueId)
    ensures r.Some? ==> Snap(s) == if r.value then FailEntry(old(Snap(s)), e) else old(Snap(s))
    ensures r.Some? ==> Conserved(s.balances, s.deposits, old(s.balances), old(s.deposits))
    ensures r == Some(true) ==> Refunded(s.balances, old(s.balances), old(s.deposits), e.key.1)
    ensures r == Some(false) ==> s.balances == old(s.balances)
    ensures Solvent(old(s.balances), old(s.deposits)) && !UnreadableAt(old(s.proposals), e.key.1) ==> r.Some?
  {
    var id := e.key.1;
    if id in s.proposals && s.proposals[id].Unreadable? { return None; }
    var target := Target(s.proposals, id);
    var decodable := target.Some?;
    var proposal := if decodable then target.value else Proposal(id, Unspecified, false, "", [], None, None, Text(""));
    var allowed := decodable && id == valueId && proposal.id == id
      && proposal.status == ExpectedStatus(e.queue) && OnSchedule(proposal.status, proposal.depositEnd, proposal.votingEnd, e.key.0)
      && lane(proposal);
    if allowed { return Some(false); }
    if e.queue == Inactive {
      s.inactive := s.inactive - {e.key};
    } else {
      s.active := s.active - {e.key};
    }
    var refunded := s.RefundAndDeleteDeposits(id);
    if !refunded { return None; }
    if decodable && Terminal(proposal.status) { return Some(true); }
    proposal := proposal.(id := id);
    if !decodable { proposal := proposal.(messages := []); }
    proposal := proposal.(status := Failed, failedReason := QuarantinePermitsOneAction);
    s.proposals := s.proposals[id := Encoded(proposal)];
    return Some(true);
  }

  // ---- due entries, in order ----

  ghost predicate Due(sn: Snapshot, e: Entry, now: Time) {
    e.key in Entries(sn, e.queue) && e.key.0 <= now
  }

  predicate KeyLess(a: QueueKey, b: QueueKey) {
    a.0 < b.0 || (a.0 == b.0 && a.1 < b.1)
  }

  /** The order of the pass: the inactive queue first, each by deadline and id. */
  predicate Before(f: Entry, e: Entry) {
    (f.queue == Inactive && e.queue == Active) || (f.queue == e.queue && KeyLess(f.key, e.key))
  }

  ghost predicate Ordered(keys: seq<QueueKey>) {
    forall i, j :: 0 <= i < j < |keys| ==> KeyLess(keys[i], keys[j])
  }

  lemma {:induction false} LeastKey(keys: set<QueueKey>) returns (least: QueueKey)
    requires keys != {}
    ensures least in keys && forall k :: k in keys ==> !KeyLess(k, least)
    decreases |keys|
  {
    least :| least in keys;
    var rest := keys - {least};
    if rest != {} {
      var other := LeastKey(rest);
      assert forall k :: k in keys ==> k == least || k in rest;
      if KeyLess(other, least) {
        least := other;
      }
    }
  }

  lemma {:induction false} KeysComparable(a: QueueKey, b: QueueKey)
    ensures KeyLess(a, b) || a == b || KeyLess(b, a)
  {
    assert a == (a.0, a.1) && b == (b.0, b.1);
  }

  /** The due keys of a queue as its iterator lists them. */
  method DueKeys(queue: map<QueueKey, nat>, now: Time) returns (keys: seq<QueueKey>)
    ensures Ordered(keys)
    ensures forall k :: k in keys <==> k in queue && k.0 <= now
  {
    keys := [];
    var pending := set k | k in queue && k.0 <= now;
    while pending != {}
      invariant Ordered(keys)
      invariant forall k :: k in queue && k.0 <= now <==> k in keys || k in pending
      invariant forall k, j :: k in keys && j in pending ==> KeyLess(k, j)
      decreases pending
    {
      ghost var least := LeastKey(pending);
      var k :| k in pending && forall j :: j in pending ==> !KeyLess(j, k);
      forall j | j in pending && j != k
        ensures KeyLess(k, j)
      {
        KeysComparable(k, j);
      }
      keys := keys + [k];
      pending := pending - {k};
    }
  }

  // ---- the whole pass ----

  ghost predicate Unchanged(now: map<nat, Stored>, before: map<nat, Stored>, id: nat) {
    (id in now <==> id in before) && (id in now ==> now[id] == before[id])
  }

  /** No earlier due entry names the same proposal. */
  ghost predicate First(sn: Snapshot, e: Entry, now: Time) {
    forall f :: Due(sn, f, now) && f.key.1 == e.key.1 ==> !Before(f, e)
  }

  /** An entry is allowed by the state the pass starts from. */
  ghost predicate AllowedIn(lane: Lane, sn: Snapshot, e: Entry)
    requires e.key in Entries(sn, e.queue)
  {
    Allowed(lane, sn.proposals, e, Entries(sn, e.queue)[e.key])
  }

  /** The entries the pass leaves: allowed at the start, and the first due one
      of their proposal. */
  ghost predicate Kept(lane: Lane, sn: Snapshot, e: Entry, now: Time) {
    Due(sn, e, now) && AllowedIn(lane, sn, e) && First(sn, e, now)
  }

  /** Some entry in `done` fails the proposal. */
  ghost predicate Fails(lane: Lane, sn: Snapshot, now: Time, done: set<Entry>, id: nat) {
    exists e :: e in done && e.key.1 == id && !Kept(lane, sn, e, now)
  }

  ghost predicate RecordAfter(lane: Lane, before: Snapshot, after: Snapshot, now: Time, done: set<Entry>, id: nat) {
    Unchanged(after.proposals, if Fails(lane, before, now, done, id) then FailedProposals(before.proposals, id) else before.proposals, id)
  }

  ghost predicate QueueAfter(lane: Lane, before: Snapshot, after: Snapshot, now: Time, done: set<Entry>, q: Queue) {
    && (forall k :: k in Entries(after, q) <==> k in Entries(before, q) && (Entry(q, k) in done ==> Kept(lane, before, Entry(q, k), now)))
    && (forall k :: k in Entries(after, q) ==> Entries(after, q)[k] == Entries(before, q)[k])
  }

  ghost predicate DepositsLeft(lane: Lane, before: Snapshot, after: Snapshot, now: Time, done: set<Entry>) {
    && (forall d :: d in after.deposits <==> d in before.deposits && !Fails(lane, before, now, done, d.0))
    && (forall d :: d in after.deposits ==> after.deposits[d] == before.deposits[d])
  }

  /** The whole state of governance after the entries in `done`: records,
      queues and deposits are determined by the state the pass started from. */
  ghost predicate Progress(lane: Lane, before: Snapshot, after: Snapshot, now: Time, done: set<Entry>) {
    && (forall id :: RecordAfter(lane, before, after, now, done, id))
    && QueueAfter(lane, before, after, now, done, Inactive) && QueueAfter(lane, before, after, now, done, Active)
    && DepositsLeft(lane, before, after, now, done)
  }

  ghost function DueEntries(sn: Snapshot, now: Time): (r: set<Entry>)
    ensures forall e :: e in r <==> Due(sn, e, now)
  {
    assert forall e: Entry :: e == Entry(e.queue, e.key);
    (set k | k in sn.inactive && k.0 <= now :: Entry(Inactive, k)) + (set k | k in sn.active && k.0 <= now :: Entry(Active, k))
  }

  /** What a finished pass has done. */
  ghost predicate Quarantined(lane: Lane, before: Snapshot, after: Snapshot, now: Time) {
    Progress(lane, before, after, now, DueEntries(before, now))
  }

  /** One status and one deadline agree with one entry only. */
  lemma {:induction false} OneAllowed(lane: Lane, proposals: map<nat, Stored>, e: Entry, f: Entry, v: nat, w: nat)
    requires Allowed(lane, proposals, e, v) && Allowed(lane, proposals, f, w) && e.key.1 == f.key.1
    ensures e == f
  {
  }

  /** The entries before `e` and no others are done. */
  ghost predicate UpTo(sn: Snapshot, now: Time, done: set<Entry>, e: Entry) {
    forall f :: f in done <==> Due(sn, f, now) && Before(f, e)
  }

  /** When its turn comes an entry is allowed exactly if it is one to keep. */
  lemma {:induction false} TurnDecides(lane: Lane, before: Snapshot, cur: Snapshot, now: Time, done: set<Entry>, e: Entry)
    requires Progress(lane, before, cur, now, done) && UpTo(before, now, done, e) && Due(before, e, now)
    ensures Allowed(lane, cur.proposals, e, Entries(before, e.queue)[e.key]) <==> Kept(lane, before, e, now)
  {
    var id := e.key.1;
    assert RecordAfter(lane, before, cur, now, done, id);
    if Fails(lane, before, now, done, id) {
      var f :| f in done && f.key.1 == id && !Kept(lane, before, f, now);
      assert TerminalAt(FailedProposals(before.proposals, id), id);
      assert Due(before, f, now) && Before(f, e);
    } else if !First(before, e, now) {
      var f :| Due(before, f, now) && f.key.1 == id && Before(f, e);
      assert f in done && Kept(lane, before, f, now);
      if AllowedIn(lane, before, e) {
        OneAllowed(lane, before.proposals, e, f, Entries(before, e.queue)[e.key], Entries(before, f.queue)[f.key]);
      }
    }
  }

  lemma {:induction false} FailsStep(lane: Lane, before: Snapshot, now: Time, done: set<Entry>, e: Entry, id: nat)
    ensures Fails(lane, before, now, done + {e}, id) <==>
            Fails(lane, before, now, done, id) || (id == e.key.1 && !Kept(lane, before, e, now))
  {
    if Fails(lane, before, now, done, id) {
      var f :| f in done && f.key.1 == id && !Kept(lane, before, f, now);
      assert f in done + {e};
    }
    assert e in done + {e};
  }

  /** Failing the same proposal again writes nothing. */
  lemma {:induction false} FailedAgain(proposals: map<nat, Stored>, now: map<nat, Stored>, id: nat)
    requires Unchanged(now, proposals, id) || Unchanged(now, FailedProposals(proposals, id), id)
    ensures Unchanged(FailedProposals(now, id), FailedProposals(proposals, id), id)
    ensures forall other :: other != id ==> Unchanged(FailedProposals(now, id), now, other)
  {
  }

  lemma {:induction false} PassStep(lane: Lane, before: Snapshot, cur: Snapshot, now: Time, done: set<Entry>, e: Entry)
    requires Progress(lane, before, cur, now, done) && e !in done
    ensures Progress(lane, before, if Kept(lane, before, e, now) then cur else FailEntry(cur, e), now, done + {e})
  {
    var next := if Kept(lane, before, e, now) then cur else FailEntry(cur, e);
    forall id
      ensures RecordAfter(lane, before, next, now, done + {e}, id)
    {
      FailsStep(lane, before, now, done, e, id);
      assert RecordAfter(lane, before, cur, now, done, id);
      FailedAgain(before.proposals, cur.proposals, e.key.1) by {
        assert RecordAfter(lane, before, cur, now, done, e.key.1);
      }
    }
    QueueStep(lane, before, cur, now, done, e, Inactive);
    QueueStep(lane, before, cur, now, done, e, Active);
    DepositsStep(lane, before, cur, now, done, e);
  }

  lemma {:induction false} QueueStep(lane: Lane, before: Snapshot, cur: Snapshot, now: Time, done: set<Entry>, e: Entry, q: Queue)
    requires QueueAfter(lane, before, cur, now, done, q) && e !in done
    ensures QueueAfter(lane, before, if Kept(lane, before, e, now) then cur else FailEntry(cur, e), now, done + {e}, q)
  {
    var next := if Kept(lane, before, e, now) then cur else FailEntry(cur, e);
    forall k
      ensures k in Entries(next, q) <==> k in Entries(before, q) && (Entry(q, k) in done + {e} ==> Kept(lane, before, Entry(q, k), now))
    {
      assert Entry(q, k) == e <==> q == e.queue && k == e.key;
    }
  }

  lemma {:induction false} DepositsStep(lane: Lane, before: Snapshot, cur: Snapshot, now: Time, done: set<Entry>, e: Entry)
    requires DepositsLeft(lane, before, cur, now, done)
    ensures DepositsLeft(lane, before, if Kept(lane, before, e, now) then cur else FailEntry(cur, e), now, done + {e})
  {
    var next := if Kept(lane, before, e, now) then cur else FailEntry(cur, e);
    forall d
      ensures d in next.deposits <==> d in before.deposits && !Fails(lane, before, now, done + {e}, d.0)
    {
      FailsStep(lane, before, now, done, e, d.0);
    }
  }

  ghost function EntriesOf(q: Queue, keys: seq<QueueKey>): (r: set<Entry>)
    ensures forall e :: e in r <==> e.queue == q && e.key in keys
  {
    assert forall e: Entry :: e == Entry(e.queue, e.key);
    set k | k in keys :: Entry(q, k)
  }

  /** No due entry names a record that cannot be read. */
  ghost predicate Readable(sn: Snapshot, now: Time) {
    forall e :: Due(sn, e, now) ==> !UnreadableAt(sn.proposals, e.key.1)
  }

  /** A record the pass has touched or left can still be read. */
  lemma {:induction false} StaysReadable(lane: Lane, before: Snapshot, cur: Snapshot, now: Time, done: set<Entry>, e: Entry)
    requires Progress(lane, before, cur, now, done) && Readable(before, now) && Due(before, e, now)
    ensures !UnreadableAt(cur.proposals, e.key.1)
  {
    assert RecordAfter(lane, before, cur, now, done, e.key.1);
  }

  /** The due keys of a queue in order, with the inactive queue's entries done
      before an active one is listed. */
  ghost predicate Listing(sn: Snapshot, now: Time, q: Queue, keys: seq<QueueKey>, done: set<Entry>) {
    && Ordered(keys) && (forall k :: k in keys <==> Due(sn, Entry(q, k), now))
    && (forall f :: f in done <==> Due(sn, f, now) && f.queue == Inactive && q == Active)
  }

  /** The entries one queue's drain has done when `i` of its keys are done. */
  ghost function DoneSoFar(done: set<Entry>, q: Queue, keys: seq<QueueKey>, i: nat): set<Entry>
    requires i <= |keys|
  {
    done + EntriesOf(q, keys[..i])
  }

  /** In an ordered listing the entries done so far are those before the next. */
  lemma {:induction false} ListedUpTo(sn: Snapshot, now: Time, done: set<Entry>, q: Queue, keys: seq<QueueKey>, i: nat)
    requires Listing(sn, now, q, keys, done) && i < |keys|
    ensures var e := Entry(q, keys[i]);
      Due(sn, e, now) && e !in done + EntriesOf(q, keys[..i]) && UpTo(sn, now, done + EntriesOf(q, keys[..i]), e)
  {
    var e := Entry(q, keys[i]);
    assert keys[i] in keys;
    forall f
      ensures f in done + EntriesOf(q, keys[..i]) <==> Due(sn, f, now) && Before(f, e)
    {
      assert f == Entry(f.queue, f.key);
      if f.queue == q {
        if f.key in keys[..i] {
          var j :| 0 <= j < i && keys[j] == f.key;
          assert f.key in keys;
        } else if Due(sn, f, now) {
          var j :| 0 <= j < |keys| && keys[j] == f.key;
          assert j >= i;
        }
      }
    }
    assert forall j :: 0 <= j < i ==> KeyLess(keys[j], keys[i]);
    assert keys[i] !in keys[..i];
  }

  /** One turn of the drain: whatever the test on the current state decides is
      what the pass is to do. */
  lemma {:induction false} Turn(lane: Lane, before: Snapshot, cur: Snapshot, now: Time, done: set<Entry>, q: Queue, keys: seq<QueueKey>, i: nat)
    requires Listing(before, now, q, keys, done) && i < |keys|
    requires Progress(lane, before, cur, now, DoneSoFar(done, q, keys, i))
    ensures var e := Entry(q, keys[i]);
      && Due(before, e, now)
      && Progress(lane, before, if Allowed(lane, cur.proposals, e, Entries(before, q)[keys[i]]) then cur else FailEntry(cur, e),
                  now, DoneSoFar(done, q, keys, i + 1))
    ensures Readable(before, now) ==> !UnreadableAt(cur.proposals, keys[i].1)
  {
    var e, soFar := Entry(q, keys[i]), DoneSoFar(done, q, keys, i);
    ListedUpTo(before, now, done, q, keys, i);
    TurnDecides(lane, before, cur, now, soFar, e);
    PassStep(lane, before, cur, now, soFar, e);
    if Readable(before, now) {
      StaysReadable(lane, before, cur, now, soFar, e);
    }
    assert soFar + {e} == DoneSoFar(done, q, keys, i + 1);
  }

  /** One turn as the program takes it. */
  method DrainNext(s: Store, lane: Lane, q: Queue, listed: map<QueueKey, nat>, keys: seq<QueueKey>, i: nat, now: Time,
                   ghost before: Snapshot, ghost done: set<Entry>)
    returns (ok: bool)
    requires listed == Entries(before, q) && Listing(before, now, q, keys, done) && i < |keys|
    requires Progress(lane, before, Snap(s), now, DoneSoFar(done, q, keys, i))
    modifies s`proposals, s`inactive, s`active, s`deposits, s`balances
    ensures ok ==> Progress(lane, before, Snap(s), now, DoneSoFar(done, q, keys, i + 1))
    ensures ok ==> Conserved(s.balances, s.deposits, old(s.balances), old(s.deposits))
    ensures Solvent(old(s.balances), old(s.deposits)) && Readable(before, now) ==> ok
  {
    Turn(lane, before, Snap(s), now, done, q, keys, i);
    var failed := FailDisallowedQueuedProposal(s, lane, Entry(q, keys[i]), listed[keys[i]]);
    return failed.Some?;
  }

  /** Drains the listed due entries of one queue in order. */
  method DrainQueue(s: Store, lane: Lane, q: Queue, listed: map<QueueKey, nat>, keys: seq<QueueKey>, now: Time,
                    ghost before: Snapshot, ghost done: set<Entry>)
    returns (ok: bool)
    requires listed == Entries(before, q) && Listing(before, now, q, keys, done)
    requires Progress(lane, before, Snap(s), now, done)
    modifies s`proposals, s`inactive, s`active, s`deposits, s`balances
    ensures ok ==> Progress(lane, before, Snap(s), now, done + EntriesOf(q, keys))
    ensures ok ==> Conserved(s.balances, s.deposits, old(s.balances), old(s.deposits))
    ensures Solvent(old(s.balances), old(s.deposits)) && Readable(before, now) ==> ok
  {
    assert DoneSoFar(done, q, keys, 0) == done;
    for i := 0 to |keys|
      invariant Progress(lane, before, Snap(s), now, DoneSoFar(done, q, keys, i))
      invariant Conserved(s.balances, s.deposits, old(s.balances), old(s.deposits))
    {
      ok := DrainNext(s, lane, q, listed, keys, i, now, before, done);
      if !ok { return; }
    }
    assert keys[..|keys|] == keys;
    return true;
  }

  lemma {:induction false} NothingDone(lane: Lane, sn: Snapshot, now: Time)
    ensures Progress(lane, sn, sn, now, {})
  {
    forall id
      ensures RecordAfter(lane, sn, sn, now, {}, id)
    {
    }
  }

  /** Both listings together are the due entries. */
  lemma {:induction false} ListedBoth(sn: Snapshot, now: Time, inactive: seq<QueueKey>, active: seq<QueueKey>)
    requires Ordered(inactive) && forall k :: k in inactive <==> k in sn.inactive && k.0 <= now
    requires Ordered(active) && forall k :: k in active <==> k in sn.active && k.0 <= now
    ensures Listing(sn, now, Inactive, inactive, {})
    ensures Listing(sn, now, Active, active, {} + EntriesOf(Inactive, inactive))
    ensures {} + EntriesOf(Inactive, inactive) + EntriesOf(Active, active) == DueEntries(sn, now)
  {
  }

  /** Both queues: listed first, then drained in order. */
  method DrainBoth(s: Store, lane: Lane, now: Time) returns (ok: bool)
    modifies s`proposals, s`inactive, s`active, s`deposits, s`balances
    ensures ok ==> Quarantined(lane, old(Snap(s)), Snap(s), now)
    ensures ok ==> Conserved(s.balances, s.deposits, old(s.balances), old(s.deposits))
    ensures Solvent(old(s.balances), old(s.deposits)) && Readable(old(Snap(s)), now) ==> ok
  {
    ghost var before := Snap(s);
    var inactive, active := s.inactive, s.active;
    var inactiveKeys := DueKeys(inactive, now);
    var activeKeys := DueKeys(active, now);
    NothingDone(lane, before, now);
    ListedBoth(before, now, inactiveKeys, activeKeys);
    ok := DrainQueue(s, lane, Inactive, inactive, inactiveKeys, now, before, {});
    if !ok { return; }
    ok := DrainQueue(s, lane, Active, active, activeKeys, now, before, {} + EntriesOf(Inactive, inactiveKeys));
  }

  lemma {:induction false} AuthorizedIgnoresStatus(ctx: Context)
    ensures IgnoresStatus(p => Authorized(ctx, p))
  {
    forall p: Proposal, st: Status, reason: Reason
      ensures Authorized(ctx, p.(status := st, failedReason := reason)) == Authorized(ctx, p)
    {
    }
  }

  /** Fails every due entry of both queues that is not the authorised recovery
      action, and keeps that one. Gives up only when a record cannot be read or
      the module cannot pay. */
  method FailDisallowedQueuedProposals(s: Store, ctx: Context) returns (ok: bool)
    modifies s`proposals, s`inactive, s`active, s`deposits, s`balances
    ensures ok ==> Quarantined(p => Authorized(ctx, p), old(Snap(s)), Snap(s), ctx.blockTime)
    ensures ok ==> Conserved(s.balances, s.deposits, old(s.balances), old(s.deposits))
    ensures Solvent(old(s.balances), old(s.deposits)) && Readable(old(Snap(s)), ctx.blockTime) ==> ok
  {
    ok := DrainBoth(s, p => Authorized(ctx, p), ctx.blockTime);
  }

  // ---- what the pass leaves behind ----

  /** The outcome is the only one: the relation is a function of the start. */
  lemma {:induction false} OutcomeUnique(lane: Lane, before: Snapshot, a: Snapshot, b: Snapshot, now: Time)
    requires Quarantined(lane, before, a, now) && Quarantined(lane, before, b, now)
    ensures a == b
  {
    var done := DueEntries(before, now);
    forall id
      ensures Unchanged(a.proposals, b.proposals, id)
    {
      assert RecordAfter(lane, before, a, now, done, id) && RecordAfter(lane, before, b, now, done, id);
    }
    assert forall id :: Unchanged(a.proposals, b.proposals, id) ==> (id in a.proposals <==> id in b.proposals);
    assert forall id :: id in a.proposals ==> Unchanged(a.proposals, b.proposals, id) && id in b.proposals;
    assert forall id :: id in b.proposals ==> Unchanged(a.proposals, b.proposals, id) && id in a.proposals;
    assert a.proposals == b.proposals;
    assert Entries(a, Inactive) == Entries(b, Inactive) && Entries(a, Active) == Entries(b, Active);
    assert a.deposits == b.deposits;
  }

  ghost predicate SoleEntry(before: Snapshot, e: Entry, now: Time) {
    forall f :: Due(before, f, now) && f.key.1 == e.key.1 ==> f == e
  }

  /** The due entries left are exactly those to keep. */
  lemma {:induction false} LeftExactly(lane: Lane, before: Snapshot, after: Snapshot, now: Time, e: Entry)
    requires Quarantined(lane, before, after, now)
    ensures Due(after, e, now) <==> Kept(lane, before, e, now)
  {
    assert e == Entry(e.queue, e.key);
    assert QueueAfter(lane, before, after, now, DueEntries(before, now), e.queue);
  }

  /** A due entry is left if and only if its value is its own id, the record
      under that id carries it, is in the lane and has the queue's status with
      exactly the entry's deadline, and any other due entry of the proposal comes
      later: in the active queue after one in the inactive queue, or in the same
      queue at a later deadline. */
  lemma {:induction false} LeftMeans(lane: Lane, before: Snapshot, after: Snapshot, now: Time, e: Entry)
    requires Quarantined(lane, before, after, now) && Due(before, e, now)
    ensures var id := e.key.1;
      Due(after, e, now) <==>
        && Entries(before, e.queue)[e.key] == id
        && id in before.proposals && before.proposals[id].Encoded?
        && var p := before.proposals[id].proposal;
        && p.id == id && lane(p)
        && (e.queue == Inactive ==> p.status == DepositPeriod && p.depositEnd == Some(e.key.0))
        && (e.queue == Active ==> p.status == VotingPeriod && p.votingEnd == Some(e.key.0))
        && forall f :: Due(before, f, now) && f.key.1 == id && f != e ==>
             (e.queue == Inactive && f.queue == Active) || (e.queue == f.queue && e.key.0 < f.key.0)
  {
    LeftExactly(lane, before, after, now, e);
    assert e.queue == Inactive || e.queue == Active;
    forall f | Due(before, f, now) && f.key.1 == e.key.1 && f != e
      ensures !Before(f, e) <==> (e.queue == Inactive && f.queue == Active) || (e.queue == f.queue && e.key.0 < f.key.0)
    {
      assert f.key == (f.key.0, f.key.1);
      assert f == Entry(f.queue, f.key) && e == Entry(e.queue, e.key);
      assert f.queue == Inactive || f.queue == Active;
    }
    assert !Before(e, e);
  }

  /** What failing an entry leaves under its id: a terminal record as it was, a
      decoded one failed under that id with everything else kept, and a bare
      failed record where nothing could be decoded. */
  lemma {:induction false} FailedRecordMeans(proposals: map<nat, Stored>, id: nat)
    ensures var after := FailedProposals(proposals, id);
      && (forall other :: other != id ==> Unchanged(after, proposals, other))
      && id in after
      && if id in proposals && proposals[id].Encoded? then
           var p := proposals[id].proposal;
           after[id] == if p.status == Passed || p.status == Rejected || p.status == Failed then proposals[id]
                        else Encoded(Proposal(id, Failed, p.expedited, p.proposer, p.messages, p.depositEnd, p.votingEnd, QuarantinePermitsOneAction))
         else after[id] == Encoded(Proposal(id, Failed, false, "", [], None, None, QuarantinePermitsOneAction))
  {
  }

  /** No record and no amount of a proposal has changed. */
  ghost predicate Untouched(before: Snapshot, after: Snapshot, id: nat) {
    && Unchanged(after.proposals, before.proposals, id)
    && (forall a :: (id, a) in after.deposits <==> (id, a) in before.deposits)
    && (forall a :: (id, a) in after.deposits ==> after.deposits[(id, a)] == before.deposits[(id, a)])
  }

  ghost predicate Cleared(after: Snapshot, id: nat) {
    TerminalAt(after.proposals, id) && forall a :: (id, a) !in after.deposits
  }

  /** A proposal is failed exactly when some due entry of it has been removed:
      then its record is the failed one and it is terminal and without deposits;
      every other proposal keeps its record and its deposits. */
  lemma {:induction false} EachProposal(lane: Lane, before: Snapshot, after: Snapshot, now: Time, id: nat)
    requires Quarantined(lane, before, after, now)
    ensures if Fails(lane, before, now, DueEntries(before, now), id) then Cleared(after, id) else Untouched(before, after, id)
    ensures Fails(lane, before, now, DueEntries(before, now), id) <==> exists e :: Due(before, e, now) && e.key.1 == id && !Due(after, e, now)
    ensures Fails(lane, before, now, DueEntries(before, now), id) ==> Unchanged(after.proposals, FailedProposals(before.proposals, id), id)
    ensures TerminalAt(before.proposals, id) ==> Unchanged(after.proposals, before.proposals, id)
    ensures OwnId(before.proposals, id) ==> OwnId(after.proposals, id)
  {
    var done := DueEntries(before, now);
    assert RecordAfter(lane, before, after, now, done, id);
    if Fails(lane, before, now, done, id) {
      var e :| e in done && e.key.1 == id && !Kept(lane, before, e, now);
      LeftExactly(lane, before, after, now, e);
    }
    forall e | Due(before, e, now) && e.key.1 == id && !Due(after, e, now)
      ensures Fails(lane, before, now, done, id)
    {
      LeftExactly(lane, before, after, now, e);
      assert e in done;
    }
  }

  /** The sole due entry of a proposal is left if and only if it is allowed as
      found, and then nothing of its proposal has changed. */
  lemma {:induction false} SoleEntryDecided(lane: Lane, before: Snapshot, after: Snapshot, now: Time, e: Entry)
    requires Quarantined(lane, before, after, now) && Due(before, e, now) && SoleEntry(before, e, now)
    ensures Due(after, e, now) <==> AllowedIn(lane, before, e)
    ensures Due(after, e, now) ==> Untouched(before, after, e.key.1)
    ensures !Due(after, e, now) ==> Cleared(after, e.key.1)
  {
    LeftExactly(lane, before, after, now, e);
    EachProposal(lane, before, after, now, e.key.1);
    assert First(before, e, now) by {
      assert !Before(e, e);
    }
    assert e in DueEntries(before, now);
  }

  /** An entry left in its queue still agrees with its proposal's status and
      deadline if and only if no other due entry named the same proposal. */
  lemma {:induction false} KeptCoherence(lane: Lane, before: Snapshot, after: Snapshot, now: Time, e: Entry)
    requires Quarantined(lane, before, after, now) && Due(after, e, now)
    ensures Target(after.proposals, e.key.1).Some?
    ensures Coherent(Target(after.proposals, e.key.1).value, e) <==> SoleEntry(before, e, now)
  {
    var id, done := e.key.1, DueEntries(before, now);
    LeftExactly(lane, before, after, now, e);
    EachProposal(lane, before, after, now, id);
    if SoleEntry(before, e, now) {
      SoleEntryDecided(lane, before, after, now, e);
    } else {
      var f :| Due(before, f, now) && f.key.1 == id && f != e;
      if Kept(lane, before, f, now) {
        OneAllowed(lane, before.proposals, e, f, Entries(before, e.queue)[e.key], Entries(before, f.queue)[f.key]);
      }
      assert f in done;
      assert Fails(lane, before, now, done, id);
    }
  }

  /** Every due entry left names the authorised proposal, still under its id. */
  lemma {:induction false} LeftAuthorized(lane: Lane, before: Snapshot, after: Snapshot, now: Time, e: Entry)
    requires IgnoresStatus(lane) && Quarantined(lane, before, after, now) && Due(after, e, now)
    ensures var p := Target(after.proposals, e.key.1); p.Some? && p.value.id == e.key.1 && lane(p.value)
  {
    LeftExactly(lane, before, after, now, e);
    assert RecordAfter(lane, before, after, now, DueEntries(before, now), e.key.1);
  }

  /** The queue entry x/gov makes for a submission. */
  function SubmittedEntry(id: nat, depositEnd: Time, votingEnd: Option<Time>): Entry {
    match votingEnd
    case None => Entry(Inactive, (depositEnd, id))
    case Some(deadline) => Entry(Active, (deadline, id))
  }

  /** Admission and the pass agree: the entry of a stored submission, when it is
      the only one of its proposal, is left with proposal and deposits untouched
      if admission would let the submission in now, and is failed otherwise. */
  lemma {:induction false} PassAgreesWithAdmission(ctx: Context, before: Snapshot, after: Snapshot,
                                                   id: nat, m: Submission, depositEnd: Time, votingEnd: Option<Time>)
    requires m.proposer != "" && Quarantined(p => Authorized(ctx, p), before, after, ctx.blockTime)
    requires Target(before.proposals, id) == Some(Submitted(id, m, depositEnd, votingEnd))
    requires var e := SubmittedEntry(id, depositEnd, votingEnd);
      Due(before, e, ctx.blockTime) && Entries(before, e.queue)[e.key] == id && SoleEntry(before, e, ctx.blockTime)
    ensures var e := SubmittedEntry(id, depositEnd, votingEnd);
      if AuthorizedSubmission(ctx, Some(id), m) then Due(after, e, ctx.blockTime) && Untouched(before, after, id)
      else !Due(after, e, ctx.blockTime) && Cleared(after, id)
  {
    AdmittedBecomesAuthorized(ctx, id, m, depositEnd, votingEnd);
    SoleEntryDecided(p => Authorized(ctx, p), before, after, ctx.blockTime, SubmittedEntry(id, depositEnd, votingEnd));
  }

  /** The rest of what the pass promises: a queue only loses due entries, a
      removed entry leaves its proposal terminal and refunded, proposals no due
      entry names are untouched, and records are written under their own ids. */
  lemma {:induction false} PassPromises(lane: Lane, before: Snapshot, after: Snapshot, now: Time)
    requires Quarantined(lane, before, after, now)
    ensures forall q, k :: k in Entries(after, q) ==> k in Entries(before, q) && Entries(after, q)[k] == Entries(before, q)[k]
    ensures forall q, k :: k in Entries(before, q) && k.0 > now ==> k in Entries(after, q)
    ensures forall e :: Due(before, e, now) && !Due(after, e, now) ==> Cleared(after, e.key.1)
    ensures forall id :: (forall e :: Due(before, e, now) ==> e.key.1 != id) ==> Untouched(before, after, id)
    ensures KeepsIds(after.proposals, before.proposals)
  {
    var done := DueEntries(before, now);
    forall q: Queue
      ensures QueueAfter(lane, before, after, now, done, q)
    {
      if q != Inactive { assert q == Active; }
    }
    forall q, k | k in Entries(before, q) && k.0 > now
      ensures k in Entries(after, q)
    {
      assert QueueAfter(lane, before, after, now, done, q);
      assert Entry(q, k) !in done;
    }
    forall e | Due(before, e, now) && !Due(after, e, now)
      ensures Cleared(after, e.key.1)
    {
      LeftExactly(lane, before, after, now, e);
      EachProposal(lane, before, after, now, e.key.1);
      assert e in done;
    }
    forall id | forall e :: Due(before, e, now) ==> e.key.1 != id
      ensures Untouched(before, after, id)
    {
      EachProposal(lane, before, after, now, id);
      assert forall e :: e in done ==> Due(before, e, now);
    }
    forall id | id in after.proposals
      ensures (id in before.proposals && after.proposals[id] == before.proposals[id]) || OwnId(after.proposals, id)
    {
      assert RecordAfter(lane, before, after, now, done, id);
    }
  }

  // ---- an alias ----

  function VotingProposal(id: nat, deadline: Time, proposer: string, messages: seq<Option<Action>>): Proposal {
    Proposal(id, VotingPeriod, true, proposer, messages, None, Some(deadline), Text(""))
  }

  /** One authorised proposal with its own entry, at time 3, and another at 4. */
  function AliasedQueue(p: Proposal): Snapshot {
    Snapshot(map[1 := Encoded(p)], map[], map[(3, 1) := 1, (4, 1) := 1], map[])
  }

  /** The pass over it ends in one state: it keeps the entry at time 3, fails
      the one at 4, and thereby fails the proposal the kept entry names. */
  lemma {:induction false} AliasLosesCoherence(lane: Lane, proposer: string, messages: seq<Option<Action>>, after: Snapshot)
    requires lane(VotingProposal(1, 3, proposer, messages))
    ensures var p, e := VotingProposal(1, 3, proposer, messages), Entry(Active, (3, 1));
      Quarantined(lane, AliasedQueue(p), after, 5) <==>
        after == Snapshot(map[1 := Encoded(p.(status := Failed, failedReason := QuarantinePermitsOneAction))], map[], map[(3, 1) := 1], map[])
    ensures var p, e := VotingProposal(1, 3, proposer, messages), Entry(Active, (3, 1));
      Quarantined(lane, AliasedQueue(p), after, 5) ==>
        Due(after, e, 5) && Target(after.proposals, 1).Some? && !Coherent(Target(after.proposals, 1).value, e)
  {
    var p := VotingProposal(1, 3, proposer, messages);
    var before := AliasedQueue(p);
    var outcome := Snapshot(map[1 := Encoded(p.(status := Failed, failedReason := QuarantinePermitsOneAction))], map[], map[(3, 1) := 1], map[]);
    AliasedOutcome(lane, p, before, outcome);
    if Quarantined(lane, before, after, 5) {
      OutcomeUnique(lane, before, after, outcome, 5);
    }
  }

  lemma {:induction false} AliasedOutcome(lane: Lane, p: Proposal, before: Snapshot, outcome: Snapshot)
    requires before == AliasedQueue(p) && lane(p) && p.id == 1 && p.status == VotingPeriod && p.votingEnd == Some(3)
    requires outcome == Snapshot(map[1 := Encoded(p.(status := Failed, failedReason := QuarantinePermitsOneAction))], map[], map[(3, 1) := 1], map[])
    ensures Quarantined(lane, before, outcome, 5)
  {
    var kept, alias, done := Entry(Active, (3, 1)), Entry(Active, (4, 1)), DueEntries(before, 5);
    assert Due(before, kept, 5) && Due(before, alias, 5);
    forall e
      ensures Due(before, e, 5) <==> e == kept || e == alias
    {
      assert e == Entry(e.queue, e.key);
    }
    assert Kept(lane, before, kept, 5) && !Kept(lane, before, alias, 5);
    forall id
      ensures Fails(lane, before, 5, done, id) <==> id == 1
    {
      assert alias in done;
    }
    forall id
      ensures RecordAfter(lane, before, outcome, 5, done, id)
    {
    }
    forall k
      ensures k in outcome.active <==> k in before.active && (Entry(Active, k) in done ==> Kept(lane, before, Entry(Active, k), 5))
    {
    }
  }
}
