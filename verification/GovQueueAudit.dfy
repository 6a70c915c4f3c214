/** The audit of committed x/gov queue records before an activation: every
    queue entry must name one executable proposal with that exact deadline. */
module GovQueueAudit {
  import opened Bytes
  import opened CommittedPrestate
  import opened Encoding
  import opened GovState
  import opened IavlExport
  import opened IavlTree
  import opened Readers

  const PROPOSALS_PREFIX: bytes := [0]
  const ACTIVE_PREFIX: bytes := [1]
  const INACTIVE_PREFIX: bytes := [2]

  /** What the audit reads of a stored proposal. */
  datatype ProposalView = ProposalView(id: uint64, status: Status, depositEnd: Option<Time>, votingEnd: Option<Time>)

  /** The library decoders: a queue key suffix, a queue value, a proposal. */
  datatype Codec = Codec(
    queueKey: bytes -> Option<(Time, uint64)>,
    queueValue: bytes -> Option<uint64>,
    proposal: bytes -> Option<ProposalView>)

  datatype Reference = Reference(deadline: Time, status: Status)

  datatype AuditFault =
    | OutOfDomain | QueueKey | QueueValue | IdMismatch | DuplicateId | BadProposal | Incoherent | MissingProposal | Uncollected

  predicate HasPrefix(key: bytes, prefix: bytes) {
    prefix <= key
  }

  predicate InQueue(key: bytes) {
    HasPrefix(key, ACTIVE_PREFIX) || HasPrefix(key, INACTIVE_PREFIX)
  }

  function ProposalKey(id: uint64): bytes {
    PROPOSALS_PREFIX + U64(id)
  }

  /** A proposal record is usable when its key and its encoded id agree. */
  function DecodeProposal(codec: Codec, record: Record): Option<ProposalView> {
    if !HasPrefix(record.key, PROPOSALS_PREFIX) || |record.key| != |PROPOSALS_PREFIX| + 8 then None else
    match codec.proposal(record.value)
    case None => None
    case Some(p) => if p.id == BigEndianValue(record.key[|PROPOSALS_PREFIX|..]) then Some(p) else None
  }

  predicate Executable(p: ProposalView) {
    p.status == DepositPeriod || p.status == VotingPeriod
  }

  /** Which leaves of the x/gov store the collector keeps. */
  function SelectGov(codec: Codec): Selector {
    (record: Record) =>
      if InQueue(record.key) then Take
      else if !HasPrefix(record.key, PROPOSALS_PREFIX) then Skip
      else match DecodeProposal(codec, record)
           case None => Reject
           case Some(p) => if Executable(p) then Take else Skip
  }

  /** The single proposal a queue record refers to, if it is well formed. */
  function Referenced(codec: Codec, record: Record): Option<(uint64, Reference)> {
    if !InQueue(record.key) then None else
    match (codec.queueKey(record.key[1..]), codec.queueValue(record.value))
    case (Some(key), Some(value)) =>
      if key.1 == 0 || key.1 != value then None
      else Some((value, Reference(key.0, if HasPrefix(record.key, ACTIVE_PREFIX) then VotingPeriod else DepositPeriod)))
    case _ => None
  }

  ghost predicate AllReferenced(codec: Codec, records: seq<Record>) {
    forall i :: 0 <= i < |records| ==> Referenced(codec, records[i]).Some?
  }

  /** No proposal id occurs in two queue records, within or across queues. */
  ghost predicate OneEntryPerProposal(codec: Codec, records: seq<Record>)
    requires AllReferenced(codec, records)
  {
    forall i, j :: 0 <= i < j < |records| ==>
      Referenced(codec, records[i]).value.0 != Referenced(codec, records[j]).value.0
  }

  /** One queue record. */
  method ReadReference(codec: Codec, record: Record) returns (r: Result<(uint64, Reference), AuditFault>)
    ensures r.Ok? <==> Referenced(codec, record).Some?
    ensures r.Ok? ==> r.value == Referenced(codec, record).value
  {
    var status;
    if HasPrefix(record.key, ACTIVE_PREFIX) {
      status := VotingPeriod;
    } else if HasPrefix(record.key, INACTIVE_PREFIX) {
      status := DepositPeriod;
    } else {
      return Err(OutOfDomain);
    }
    var queueKey := codec.queueKey(record.key[1..]);
    if queueKey.None? { return Err(QueueKey); }
    var valueId := codec.queueValue(record.value);
    if valueId.None? { return Err(QueueValue); }
    var keyId := queueKey.value.1;
    if keyId == 0 || keyId != valueId.value { return Err(IdMismatch); }
    return Ok((valueId.value, Reference(queueKey.value.0, status)));
  }

  /** One more record keeps both conditions exactly when it is well formed and
      its id is new. */
  lemma {:induction false} OneMoreReference(codec: Codec, records: seq<Record>, n: nat)
    requires n < |records| && AllReferenced(codec, records[..n])
    ensures AllReferenced(codec, records[..n + 1]) <==> Referenced(codec, records[n]).Some?
    ensures AllReferenced(codec, records[..n + 1]) ==>
      (OneEntryPerProposal(codec, records[..n + 1]) <==>
        && OneEntryPerProposal(codec, records[..n])
        && forall i :: 0 <= i < n ==> Referenced(codec, records[i]).value.0 != Referenced(codec, records[n]).value.0)
    ensures !AllReferenced(codec, records[..n + 1]) ==> !AllReferenced(codec, records)
    ensures AllReferenced(codec, records) && OneEntryPerProposal(codec, records) ==> OneEntryPerProposal(codec, records[..n + 1])
  {
    var before, after := records[..n], records[..n + 1];
    assert after[n] == records[n];
    assert forall i :: 0 <= i < n ==> before[i] == after[i] == records[i];
    if AllReferenced(codec, after) && OneEntryPerProposal(codec, after) {
      forall i | 0 <= i < n
        ensures Referenced(codec, records[i]).value.0 != Referenced(codec, records[n]).value.0
      {
        assert after[i] == records[i];
      }
    }
  }

  method QueueReferences(codec: Codec, records: seq<Record>)
    returns (r: Result<map<uint64, Reference>, AuditFault>)
    ensures r.Ok? <==> AllReferenced(codec, records) && OneEntryPerProposal(codec, records)
    ensures r.Ok? ==> forall i :: 0 <= i < |records| ==>
                        var ref := Referenced(codec, records[i]).value;
                        ref.0 in r.value && r.value[ref.0] == ref.1
    ensures r.Ok? ==> forall id :: id in r.value ==>
                        exists i :: 0 <= i < |records| && Referenced(codec, records[i]) == Some((id, r.value[id]))
  {
    var references: map<uint64, Reference> := map[];
    ghost var place: map<uint64, nat> := map[];
    for n := 0 to |records|
      invariant AllReferenced(codec, records[..n]) && OneEntryPerProposal(codec, records[..n])
      invariant forall i :: 0 <= i < n ==>
                  var ref := Referenced(codec, records[i]).value;
                  ref.0 in references && references[ref.0] == ref.1
      invariant forall id :: id in references ==>
                  id in place && place[id] < n && Referenced(codec, records[place[id]]) == Some((id, references[id]))
    {
      OneMoreReference(codec, records, n);
      var read := ReadReference(codec, records[n]);
      if read.Err? { return Err(read.error); }
      var (id, reference) := read.value;
      if id in references { return Err(DuplicateId); }
      references := references[id := reference];
      place := place[id := n];
    }
    assert records[..|records|] == records;
    return Ok(references);
  }

  predicate AgreesWith(p: ProposalView, ref: Reference) {
    p.status == ref.status && OnSchedule(p.status, p.depositEnd, p.votingEnd, ref.deadline)
  }

  function QueueRecords(selected: seq<Record>): (r: seq<Record>) {
    if selected == [] then [] else
    var last := selected[|selected| - 1];
    QueueRecords(selected[..|selected| - 1]) + if InQueue(last.key) then [last] else []
  }

  function ProposalRecords(selected: seq<Record>): seq<Record> {
    if selected == [] then [] else
    var last := selected[|selected| - 1];
    ProposalRecords(selected[..|selected| - 1]) + if InQueue(last.key) then [] else [last]
  }

  lemma {:induction false} SplitMembers(selected: seq<Record>, record: Record)
    ensures record in QueueRecords(selected) <==> record in selected && InQueue(record.key)
    ensures record in ProposalRecords(selected) <==> record in selected && !InQueue(record.key)
  {
    if selected != [] {
      assert selected == selected[..|selected| - 1] + [selected[|selected| - 1]];
      SplitMembers(selected[..|selected| - 1], record);
    }
  }

  ghost predicate Backed(codec: Codec, executable: seq<Record>, ref: (uint64, Reference)) {
    exists record :: record in executable && record.key == ProposalKey(ref.0)
      && DecodeProposal(codec, record).Some? && AgreesWith(DecodeProposal(codec, record).value, ref.1)
  }

  /** What the audit promises: the queues name each proposal at most once, and
      every named proposal is among the executable ones returned, with the
      queue's status and exactly the queue's deadline. */
  ghost predicate Audited(codec: Codec, selected: seq<Record>) {
    var queue := QueueRecords(selected);
    && AllReferenced(codec, queue) && OneEntryPerProposal(codec, queue)
    && forall i :: 0 <= i < |queue| ==> Backed(codec, ProposalRecords(selected), Referenced(codec, queue[i]).value)
  }

  // ---- the same, record by record ----

  /** A record of the active queue, 1, or the inactive one, 2. */
  ghost predicate Queued(r: Record) {
    r.key != [] && (r.key[0] == 1 || r.key[0] == 2)
  }

  /** A queue record spells a deadline and, in key and value alike, an id. */
  ghost predicate Names(codec: Codec, r: Record, deadline: Time, id: uint64) {
    && Queued(r) && id != 0
    && codec.queueKey(r.key[1..]).Some? && codec.queueKey(r.key[1..]).value == (deadline, id)
    && codec.queueValue(r.value).Some? && codec.queueValue(r.value).value == id
  }

  /** A proposal record under an id that answers a queue record: its own id, the
      queue's status, and exactly the deadline. */
  ghost predicate Answers(codec: Codec, r: Record, deadline: Time, id: uint64, p: Record)
    requires Queued(r)
  {
    && |p.key| == 9 && p.key[0] == 0 && BigEndianValue(p.key[1..]) == id && codec.proposal(p.value).Some?
    && var view := codec.proposal(p.value).value;
    && view.id == id
    && (if r.key[0] == 1 then view.status == VotingPeriod && view.votingEnd == Some(deadline)
        else view.status == DepositPeriod && view.depositEnd == Some(deadline))
  }

  ghost predicate Answered(codec: Codec, selected: seq<Record>, r: Record) {
    exists deadline, id, p :: Names(codec, r, deadline, id) && p in selected && Answers(codec, r, deadline, id, p)
  }

  lemma {:induction false} ReferencedMeans(codec: Codec, r: Record, deadline: Time, id: uint64)
    ensures InQueue(r.key) <==> Queued(r)
    ensures Queued(r) ==>
      (Referenced(codec, r) == Some((id, Reference(deadline, if r.key[0] == 1 then VotingPeriod else DepositPeriod))) <==>
       Names(codec, r, deadline, id))
    ensures Referenced(codec, r).Some? ==>
      var ref := Referenced(codec, r).value; Names(codec, r, ref.1.deadline, ref.0) && ref.1.status == if r.key[0] == 1 then VotingPeriod else DepositPeriod
  {
    assert HasPrefix(r.key, ACTIVE_PREFIX) <==> r.key != [] && r.key[0] == 1;
    assert HasPrefix(r.key, INACTIVE_PREFIX) <==> r.key != [] && r.key[0] == 2;
    if Queued(r) && codec.queueKey(r.key[1..]).Some? {
      var key := codec.queueKey(r.key[1..]).value;
      assert key == (key.0, key.1);
    }
  }

  lemma {:induction false} AnswersMeans(codec: Codec, selected: seq<Record>, r: Record, deadline: Time, id: uint64, p: Record)
    requires Queued(r)
    ensures Answers(codec, r, deadline, id, p) <==>
            && p.key == ProposalKey(id) && DecodeProposal(codec, p).Some?
            && AgreesWith(DecodeProposal(codec, p).value, Reference(deadline, if r.key[0] == 1 then VotingPeriod else DepositPeriod))
    ensures Answers(codec, r, deadline, id, p) ==> !InQueue(p.key)
  {
    if p.key == ProposalKey(id) {
      assert p.key[1..] == U64(id);
      U64Value(id);
    }
    if Answers(codec, r, deadline, id, p) {
      BigEndianOfValue(p.key[1..]);
      assert p.key == [0] + p.key[1..];
    }
    assert HasPrefix(p.key, PROPOSALS_PREFIX) <==> p.key != [] && p.key[0] == 0;
    ReferencedMeans(codec, p, deadline, id);
  }

  lemma {:induction false} AnsweredMeans(codec: Codec, selected: seq<Record>, r: Record)
    requires Queued(r)
    ensures Answered(codec, selected, r) <==>
            Referenced(codec, r).Some? && Backed(codec, ProposalRecords(selected), Referenced(codec, r).value)
  {
    if Answered(codec, selected, r) {
      var deadline, id, p :| Names(codec, r, deadline, id) && p in selected && Answers(codec, r, deadline, id, p);
      ReferencedMeans(codec, r, deadline, id);
      AnswersMeans(codec, selected, r, deadline, id, p);
      SplitMembers(selected, p);
    } else if Referenced(codec, r).Some? && Backed(codec, ProposalRecords(selected), Referenced(codec, r).value) {
      var ref := Referenced(codec, r).value;
      ReferencedMeans(codec, r, ref.1.deadline, ref.0);
      var p :| p in ProposalRecords(selected) && p.key == ProposalKey(ref.0)
        && DecodeProposal(codec, p).Some? && AgreesWith(DecodeProposal(codec, p).value, ref.1);
      AnswersMeans(codec, selected, r, ref.1.deadline, ref.0, p);
      SplitMembers(selected, p);
      assert false;
    }
  }

  /** No two queue records, at different places, spell one id. */
  ghost predicate IdsApart(codec: Codec, selected: seq<Record>) {
    forall i, j, d, d', id :: 0 <= i < j < |selected| && Names(codec, selected[i], d, id) ==> !Names(codec, selected[j], d', id)
  }

  lemma {:induction false} IdsApartSnoc(codec: Codec, selected: seq<Record>, last: Record)
    ensures IdsApart(codec, selected + [last]) <==>
            && IdsApart(codec, selected)
            && forall i, d, d', id :: 0 <= i < |selected| && Names(codec, selected[i], d, id) ==> !Names(codec, last, d', id)
  {
    var all := selected + [last];
    assert all[|selected|] == last;
    assert forall i :: 0 <= i < |selected| ==> all[i] == selected[i];
    if IdsApart(codec, all) {
      forall i, j, d, d', id | 0 <= i < j < |selected| && Names(codec, selected[i], d, id)
        ensures !Names(codec, selected[j], d', id)
      {
        assert Names(codec, all[i], d, id);
      }
      forall i, d, d', id | 0 <= i < |selected| && Names(codec, selected[i], d, id)
        ensures !Names(codec, last, d', id)
      {
        assert Names(codec, all[i], d, id) && !Names(codec, all[|selected|], d', id);
      }
    }
  }

  lemma {:induction false} IdsApartMeans(codec: Codec, selected: seq<Record>)
    requires AllReferenced(codec, QueueRecords(selected))
    ensures OneEntryPerProposal(codec, QueueRecords(selected)) <==> IdsApart(codec, selected)
  {
    if selected != [] {
      var init, last := selected[..|selected| - 1], selected[|selected| - 1];
      var queue := QueueRecords(init);
      assert selected == init + [last];
      IdsApartSnoc(codec, init, last);
      ReferencedMeans(codec, last, 0, 0);
      forall i | 0 <= i < |queue|
        ensures Referenced(codec, queue[i]).Some?
      {
        assert QueueRecords(selected)[i] == queue[i];
      }
      IdsApartMeans(codec, init);
      if InQueue(last.key) {
        assert QueueRecords(selected)[..|queue|] == queue && QueueRecords(selected)[|queue|] == last;
        LastIdNew(codec, init, last);
        OneMoreReference(codec, QueueRecords(selected), |queue|);
        assert QueueRecords(selected)[..|queue| + 1] == QueueRecords(selected);
      } else {
        assert QueueRecords(selected) == queue;
      }
    }
  }

  lemma {:induction false} LastIdNew(codec: Codec, init: seq<Record>, last: Record)
    requires AllReferenced(codec, QueueRecords(init)) && Referenced(codec, last).Some?
    ensures (forall i :: 0 <= i < |QueueRecords(init)| ==> Referenced(codec, QueueRecords(init)[i]).value.0 != Referenced(codec, last).value.0) <==>
            (forall i, d, d', id :: 0 <= i < |init| && Names(codec, init[i], d, id) ==> !Names(codec, last, d', id))
  {
    var queue, ref := QueueRecords(init), Referenced(codec, last).value;
    ReferencedMeans(codec, last, ref.1.deadline, ref.0);
    if i :| 0 <= i < |queue| && Referenced(codec, queue[i]).value.0 == ref.0 {
      var r := queue[i];
      SplitMembers(init, r);
      var j :| 0 <= j < |init| && init[j] == r;
      ReferencedMeans(codec, r, 0, 0);
      assert Names(codec, init[j], Referenced(codec, r).value.1.deadline, ref.0) && Names(codec, last, ref.1.deadline, ref.0);
    }
    forall i, d, d', id | 0 <= i < |init| && Names(codec, init[i], d, id) && Names(codec, last, d', id)
      ensures exists k :: 0 <= k < |queue| && Referenced(codec, queue[k]).value.0 == ref.0
    {
      ReferencedMeans(codec, init[i], d, id);
      ReferencedMeans(codec, last, d', id);
      SplitMembers(init, init[i]);
      var k :| 0 <= k < |queue| && queue[k] == init[i];
    }
  }

  /** The audit's promise, record by record: every queue record spells one id in
      key and value and is answered by a selected proposal with that id, the
      queue's status and exactly its deadline, and no two spell the same id. */
  lemma {:induction false} AuditedExactly(codec: Codec, selected: seq<Record>)
    ensures Audited(codec, selected) <==>
            (forall r :: r in selected && Queued(r) ==> Answered(codec, selected, r)) && IdsApart(codec, selected)
  {
    var queue := QueueRecords(selected);
    forall r
      ensures r in queue <==> r in selected && Queued(r)
    {
      SplitMembers(selected, r);
      ReferencedMeans(codec, r, 0, 0);
    }
    forall r | Queued(r)
      ensures Answered(codec, selected, r) <==>
              Referenced(codec, r).Some? && Backed(codec, ProposalRecords(selected), Referenced(codec, r).value)
    {
      AnsweredMeans(codec, selected, r);
    }
    if AllReferenced(codec, queue) {
      IdsApartMeans(codec, selected);
    }
    if forall r :: r in selected && Queued(r) ==> Answered(codec, selected, r) {
      forall i | 0 <= i < |queue|
        ensures Referenced(codec, queue[i]).Some? && Backed(codec, ProposalRecords(selected), Referenced(codec, queue[i]).value)
      {
        assert queue[i] in queue;
      }
    }
  }

  /** A proposal record is well formed: nine bytes of key, and a value that
      decodes to the id the key spells. */
  ghost predicate WellFormed(codec: Codec, r: Record) {
    && |r.key| == 9 && r.key[0] == 0
    && codec.proposal(r.value).Some? && codec.proposal(r.value).value.id == BigEndianValue(r.key[1..])
  }

  /** The collector takes queue records and proposals in deposit or voting,
      rejects malformed proposal records, and skips everything else. */
  lemma {:induction false} SelectGovMeans(codec: Codec, r: Record)
    ensures SelectGov(codec)(r) == Take <==>
            Queued(r) || (WellFormed(codec, r) && codec.proposal(r.value).value.status in {DepositPeriod, VotingPeriod})
    ensures SelectGov(codec)(r) == Reject <==> r.key != [] && r.key[0] == 0 && !WellFormed(codec, r)
  {
    ReferencedMeans(codec, r, 0, 0);
    assert HasPrefix(r.key, PROPOSALS_PREFIX) <==> r.key != [] && r.key[0] == 0;
  }

  /** Point reads and the verified export see one store. */
  ghost predicate ReadsAgree(pointRead: bytes -> Option<bytes>, leaves: seq<Record>) {
    && StrictlyIncreasing(Keys(leaves))
    && forall k, v :: pointRead(k) == Some(v) <==> Record(k, v) in leaves
  }

  lemma {:induction false} KeysDistinct(leaves: seq<Record>, a: Record, b: Record)
    requires StrictlyIncreasing(Keys(leaves))
    requires a in leaves && b in leaves && a.key == b.key
    ensures a == b
  {
    var i :| 0 <= i < |leaves| && leaves[i] == a;
    var j :| 0 <= j < |leaves| && leaves[j] == b;
    LessIrreflexive(a.key);
    assert Keys(leaves)[i] == Keys(leaves)[j];
  }

  lemma {:induction false} ProposalKeyId(codec: Codec, record: Record)
    requires DecodeProposal(codec, record).Some?
    ensures record.key == ProposalKey(DecodeProposal(codec, record).value.id)
  {
    var id := DecodeProposal(codec, record).value.id;
    var suffix := record.key[1..];
    BigEndianOfValue(suffix);
    assert BigEndian(BigEndianValue(suffix), 8) == suffix;
    assert record.key == PROPOSALS_PREFIX + suffix;
  }

  lemma {:induction false} ProposalKeyDecodes(codec: Codec, record: Record, id: uint64)
    requires record.key == ProposalKey(id) && DecodeProposal(codec, record).Some?
    ensures DecodeProposal(codec, record).value.id == id
  {
    assert record.key[1..] == U64(id);
    assert Pow256(8) == TWO_64 by { assert Pow256(4) == 0x1_0000_0000; }
    BigEndianRoundTrip(id, 8);
  }

  method SplitSelected(selected: seq<Record>) returns (queueRecords: seq<Record>, proposalRecords: seq<Record>)
    ensures queueRecords == QueueRecords(selected) && proposalRecords == ProposalRecords(selected)
  {
    queueRecords, proposalRecords := [], [];
    for i := 0 to |selected|
      invariant queueRecords == QueueRecords(selected[..i])
      invariant proposalRecords == ProposalRecords(selected[..i])
    {
      assert selected[..i + 1][..i] == selected[..i];
      if InQueue(selected[i].key) {
        queueRecords := queueRecords + [selected[i]];
      } else {
        proposalRecords := proposalRecords + [selected[i]];
      }
    }
    assert selected[..|selected|] == selected;
  }

  /** Every record's proposal is in `found` if some queue names it. */
  ghost predicate Covers(codec: Codec, records: seq<Record>, references: map<uint64, Reference>, found: set<uint64>) {
    forall j :: 0 <= j < |records| && DecodeProposal(codec, records[j]).Some? &&
                  DecodeProposal(codec, records[j]).value.id in references ==>
                  DecodeProposal(codec, records[j]).value.id in found
  }

  /** A record decodes and agrees with the queue entry that names it, if any. */
  predicate Matches(codec: Codec, record: Record, references: map<uint64, Reference>) {
    var p := DecodeProposal(codec, record);
    p.Some? && (p.value.id in references ==> AgreesWith(p.value, references[p.value.id]))
  }

  /** Compares every selected proposal that a queue names with its entry. */
  method MatchProposals(codec: Codec, proposalRecords: seq<Record>, references: map<uint64, Reference>)
    returns (r: Result<set<uint64>, AuditFault>)
    ensures r.Ok? <==> forall record :: record in proposalRecords ==> Matches(codec, record, references)
    ensures r.Ok? ==> Covers(codec, proposalRecords, references, r.value)
    ensures r.Ok? ==> forall id :: id in r.value ==> id in references && Backed(codec, proposalRecords, (id, references[id]))
  {
    var found: set<uint64> := {};
    for i := 0 to |proposalRecords|
      invariant forall id :: id in found ==> id in references && Backed(codec, proposalRecords, (id, references[id]))
      invariant Covers(codec, proposalRecords[..i], references, found)
      invariant forall j :: 0 <= j < i ==> Matches(codec, proposalRecords[j], references)
    {
      var record := proposalRecords[i];
      assert record in proposalRecords;
      var proposal := DecodeProposal(codec, record);
      if proposal.None? { return Err(BadProposal); }
      ProposalKeyId(codec, record);
      var id := proposal.value.id;
      if id in references {
        if !AgreesWith(proposal.value, references[id]) { return Err(Incoherent); }
        found := found + {id};
      }
    }
    assert proposalRecords[..|proposalRecords|] == proposalRecords;
    return Ok(found);
  }

  /** Point-reads the proposals no selected record covered. */
  method CheckUncovered(codec: Codec, references: map<uint64, Reference>, found: set<uint64>,
                        pointRead: bytes -> Option<bytes>)
    returns (r: Result<(), AuditFault>)
    ensures r.Ok? <==> forall id :: id in references && id !in found ==> PointBacked(codec, pointRead, id, references[id])
  {
    var pending := references.Keys - found;
    while pending != {}
      invariant pending <= references.Keys - found
      invariant forall id :: id in references && id !in found && id !in pending ==>
                               PointBacked(codec, pointRead, id, references[id])
    {
      var id :| id in pending;
      var value := pointRead(ProposalKey(id));
      if value.None? { return Err(MissingProposal); }
      var proposal := DecodeProposal(codec, Record(ProposalKey(id), value.value));
      if proposal.None? { return Err(BadProposal); }
      if !AgreesWith(proposal.value, references[id]) { return Err(Incoherent); }
      pending := pending - {id};
    }
    return Ok(());
  }

  predicate PointBacked(codec: Codec, pointRead: bytes -> Option<bytes>, id: uint64, ref: Reference) {
    var value := pointRead(ProposalKey(id));
    && value.Some?
    && DecodeProposal(codec, Record(ProposalKey(id), value.value)).Some?
    && AgreesWith(DecodeProposal(codec, Record(ProposalKey(id), value.value)).value, ref)
  }

  /** The selected records are those of a store that the point reads show. */
  ghost predicate OneStore(codec: Codec, selected: seq<Record>, pointRead: bytes -> Option<bytes>, leaves: seq<Record>) {
    selected == Selected(SelectGov(codec), leaves) && ReadsAgree(pointRead, leaves)
  }

  /** The x/gov part of the prestate collector, from the selected records on.
      Its verdict is the audit's whenever selection and point reads are of one
      store, the ghost `leaves`. */
  method AuditGovQueues(codec: Codec, selected: seq<Record>, pointRead: bytes -> Option<bytes>, ghost leaves: seq<Record>)
    returns (r: Result<seq<Record>, AuditFault>)
    ensures OneStore(codec, selected, pointRead, leaves) ==> (r.Ok? <==> Audited(codec, selected))
    ensures r.Ok? ==> r.value == ProposalRecords(selected)
  {
    var queueRecords, proposalRecords := SplitSelected(selected);
    var queued := QueueReferences(codec, queueRecords);
    if queued.Err? { return Err(queued.error); }
    var references := queued.value;
    ghost var queue := queueRecords;
    assert forall i :: 0 <= i < |queue| ==> Referenced(codec, queue[i]).value.0 in references;
    AuditedByReference(codec, selected, references);
    var found := MatchProposals(codec, proposalRecords, references);
    if found.Err? {
      if OneStore(codec, selected, pointRead, leaves) {
        MismatchNotAudited(codec, leaves, references);
      }
      return Err(found.error);
    }
    var unmatched := CheckUncovered(codec, references, found.value, pointRead);
    if OneStore(codec, selected, pointRead, leaves) {
      UncoveredDecides(codec, leaves, references, found.value, pointRead);
    }
    if unmatched.Err? { return Err(unmatched.error); }
    return Ok(proposalRecords);
  }

  /** What the point reads of the uncovered ids decide. */
  lemma {:induction false} UncoveredDecides(codec: Codec, leaves: seq<Record>, references: map<uint64, Reference>,
                                            found: set<uint64>, pointRead: bytes -> Option<bytes>)
    requires ReadsAgree(pointRead, leaves)
    requires var executable := ProposalRecords(Selected(SelectGov(codec), leaves));
      && Covers(codec, executable, references, found)
      && (forall id :: id in found ==> id in references && Backed(codec, executable, (id, references[id])))
    ensures AllBacked(codec, ProposalRecords(Selected(SelectGov(codec), leaves)), references) <==>
            forall id :: id in references && id !in found ==> PointBacked(codec, pointRead, id, references[id])
  {
    var executable := ProposalRecords(Selected(SelectGov(codec), leaves));
    forall id | id in references && id !in found
      ensures !Backed(codec, executable, (id, references[id])) && !PointBacked(codec, pointRead, id, references[id])
    {
      UncoveredNotBacked(codec, executable, references, found, id);
      if PointBacked(codec, pointRead, id, references[id]) {
        PointBackedSelected(codec, leaves, pointRead, id, references[id]);
      }
    }
  }

  lemma {:induction false} MismatchNotAudited(codec: Codec, leaves: seq<Record>, references: map<uint64, Reference>)
    requires StrictlyIncreasing(Keys(leaves))
    requires exists record :: record in ProposalRecords(Selected(SelectGov(codec), leaves)) && !Matches(codec, record, references)
    ensures !AllBacked(codec, ProposalRecords(Selected(SelectGov(codec), leaves)), references)
  {
    SelectedDecode(codec, leaves);
    IncoherentNotAudited(codec, leaves, references);
  }

  /** The store this export spells out collides with the committed one. */
  ghost predicate Misexported(h: Hasher, hash: bytes, exported: Option<seq<Event>>, select: Selector, committed: Option<Tree>) {
    exists records, store ::
      Reconstructs(h, hash, exported, select, records, store) && Collide(h, CommittedHashed(h, store), CommittedHashed(h, committed))
  }

  /** The collector on one store, end to end: whatever the export reader did, a
      success has audited the queues of the store really committed and returns
      its executable proposals, or two stores' hashed bytes collide. */
  method CollectAndAudit(h: Hasher, codec: Codec, commitId: CommitId, expected: CommitId, exported: Option<seq<Event>>,
                         pointRead: bytes -> Option<bytes>, ghost committed: Option<Tree>)
    returns (r: Result<seq<Record>, AuditFault>)
    requires committed.Some? ==> Valid(committed.value)
    requires CommittedRoot(h, committed) == commitId.hash
    requires ReadsAgree(pointRead, CommittedLeaves(committed))
    ensures r.Ok? ==>
      var selected := Selected(SelectGov(codec), CommittedLeaves(committed));
      || (Audited(codec, selected) && r.value == ProposalRecords(selected))
      || Misexported(h, commitId.hash, exported, SelectGov(codec), committed)
  {
    var collected := CollectVerifiedCommittedRecords(h, commitId, expected, exported, SelectGov(codec));
    if collected.Err? { return Err(Uncollected); }
    ghost var store :| Reconstructs(h, commitId.hash, exported, SelectGov(codec), collected.value, store);
    CollectedRecordsAreCommitted(h, commitId.hash, exported, SelectGov(codec), collected.value, store, committed);
    if Collide(h, CommittedHashed(h, store), CommittedHashed(h, committed)) {
      assert Misexported(h, commitId.hash, exported, SelectGov(codec), committed);
    }
    r := AuditGovQueues(codec, collected.value, pointRead, CommittedLeaves(committed));
  }

  ghost predicate AllBacked(codec: Codec, executable: seq<Record>, references: map<uint64, Reference>) {
    forall id :: id in references ==> Backed(codec, executable, (id, references[id]))
  }

  lemma {:induction false} AuditedByReference(codec: Codec, selected: seq<Record>, references: map<uint64, Reference>)
    requires var queue := QueueRecords(selected);
      && AllReferenced(codec, queue) && OneEntryPerProposal(codec, queue)
      && (forall i :: 0 <= i < |queue| ==>
            var ref := Referenced(codec, queue[i]).value;
            ref.0 in references && references[ref.0] == ref.1)
      && (forall id :: id in references ==>
            exists i :: 0 <= i < |queue| && Referenced(codec, queue[i]) == Some((id, references[id])))
    ensures Audited(codec, selected) <==> AllBacked(codec, ProposalRecords(selected), references)
  {
    var queue := QueueRecords(selected);
    if AllBacked(codec, ProposalRecords(selected), references) {
      forall i | 0 <= i < |queue|
        ensures Backed(codec, ProposalRecords(selected), Referenced(codec, queue[i]).value)
      {
        var ref := Referenced(codec, queue[i]).value;
        assert ref == (ref.0, references[ref.0]);
      }
    }
    if Audited(codec, selected) {
      forall id | id in references
        ensures Backed(codec, ProposalRecords(selected), (id, references[id]))
      {
        var i :| 0 <= i < |queue| && Referenced(codec, queue[i]) == Some((id, references[id]));
      }
    }
  }

  lemma {:induction false} SelectedDecode(codec: Codec, leaves: seq<Record>)
    ensures forall record :: record in ProposalRecords(Selected(SelectGov(codec), leaves)) ==>
                               DecodeProposal(codec, record).Some? && record in leaves
  {
    forall record | record in ProposalRecords(Selected(SelectGov(codec), leaves))
      ensures DecodeProposal(codec, record).Some? && record in leaves
    {
      SplitMembers(Selected(SelectGov(codec), leaves), record);
      SelectedMembers(SelectGov(codec), leaves, record);
    }
  }

  /** A selected proposal that disagrees with its entry is the only one with
      its id, so nothing backs the entry. */
  lemma {:induction false} IncoherentNotAudited(codec: Codec, leaves: seq<Record>, references: map<uint64, Reference>)
    requires StrictlyIncreasing(Keys(leaves))
    requires var executable := ProposalRecords(Selected(SelectGov(codec), leaves));
      exists record :: record in executable && DecodeProposal(codec, record).Some? &&
        var p := DecodeProposal(codec, record).value;
        p.id in references && !AgreesWith(p, references[p.id])
    ensures !AllBacked(codec, ProposalRecords(Selected(SelectGov(codec), leaves)), references)
  {
    var executable := ProposalRecords(Selected(SelectGov(codec), leaves));
    var record :| record in executable && DecodeProposal(codec, record).Some? &&
      var p := DecodeProposal(codec, record).value;
      p.id in references && !AgreesWith(p, references[p.id]);
    SelectedDecode(codec, leaves);
    ProposalKeyId(codec, record);
    var id := DecodeProposal(codec, record).value.id;
    if Backed(codec, executable, (id, references[id])) {
      var other :| other in executable && other.key == ProposalKey(id)
        && DecodeProposal(codec, other).Some? && AgreesWith(DecodeProposal(codec, other).value, references[id]);
      KeysDistinct(leaves, record, other);
    }
  }

  lemma {:induction false} UncoveredNotBacked(codec: Codec, executable: seq<Record>, references: map<uint64, Reference>,
                                              found: set<uint64>, id: uint64)
    requires id in references && id !in found && Covers(codec, executable, references, found)
    ensures !Backed(codec, executable, (id, references[id]))
  {
    forall record | record in executable && DecodeProposal(codec, record).Some?
      ensures record.key != ProposalKey(id)
    {
      if record.key == ProposalKey(id) {
        ProposalKeyDecodes(codec, record, id);
      }
    }
  }

  /** Since point reads agree with the export, an executable proposal they
      find had been selected. */
  lemma {:induction false} PointBackedSelected(codec: Codec, leaves: seq<Record>, pointRead: bytes -> Option<bytes>,
                                               id: uint64, ref: Reference)
    requires ReadsAgree(pointRead, leaves) && PointBacked(codec, pointRead, id, ref)
    ensures Backed(codec, ProposalRecords(Selected(SelectGov(codec), leaves)), (id, ref))
  {
    var record := Record(ProposalKey(id), pointRead(ProposalKey(id)).value);
    assert record.key[0] == 0;
    SelectedMembers(SelectGov(codec), leaves, record);
    SplitMembers(Selected(SelectGov(codec), leaves), record);
  }
}
