/** A validator's local commitments: the write-through store, the commit and
    reveal phases that use it, and the check of a reveal against its commitment. */
module CommitReveal {
  import opened Bytes
  import opened Text

  /** SHA-256 of UTF-8 text: any total function into 32 bytes. */
  type TextHasher = string -> Digest

  datatype LocalCommitment = LocalCommitment(roundId: string, verdict: string, confidence: uint64, salt: string, height: uint64)

  type Commitments = map<string, LocalCommitment>

  const MAX_AGE: uint64 := 100

  // ---- commitment hashes ----

  function Preimage(round: string, verdict: string, confidence: uint64, salt: bytes): string {
    "ZRN.commit.v1:" + round + ":" + verdict + ":" + Decimal(confidence) + ":" + ToHex(salt)
  }

  /** Hex of the digest, or empty text when the salt is not hexadecimal. */
  function ComputeCommitmentHash(h: TextHasher, round: string, verdict: string, confidence: uint64, salt: string): string {
    match FromHex(salt)
    case None => ""
    case Some(raw) => ToHex(h(Preimage(round, verdict, confidence, raw)))
  }

  predicate VerifyCommitmentHash(h: TextHasher, commitmentHash: string, round: string, verdict: string, confidence: uint64, salt: string) {
    && FromHex(commitmentHash).Some? && FromHex(salt).Some?
    && FromHex(commitmentHash).value == h(Preimage(round, verdict, confidence, FromHex(salt).value))
  }

  /** With colon-free verdicts the preimage is read back in one way, from its end. */
  lemma {:induction false} PreimageInjective(r: string, v: string, c: uint64, s: bytes, r': string, v': string, c': uint64, s': bytes)
    requires ':' !in v && ':' !in v'
    requires Preimage(r, v, c, s) == Preimage(r', v', c', s')
    ensures r == r' && v == v' && c == c' && s == s'
  {
    var tag := "ZRN.commit.v1:";
    SplitAtLast(tag + r + ":" + v + ":" + Decimal(c), tag + r' + ":" + v' + ":" + Decimal(c'), ':', ToHex(s), ToHex(s'));
    SplitAtLast(tag + r + ":" + v, tag + r' + ":" + v', ':', Decimal(c), Decimal(c'));
    SplitAtLast(tag + r, tag + r', ':', v, v');
    assert r == (tag + r)[|tag|..] && r' == (tag + r')[|tag|..];
    DecimalInjective(c, c');
    ToHexInjective(s, s');
  }

  lemma {:induction false} HexHasNoColon(b: bytes)
    ensures ':' !in ToHex(b)
  {
    assert HexValue(':').None?;
  }

  lemma {:induction false} PreimageGrouped(round: string, verdict: string, number: string, hex: string)
    ensures "ZRN.commit.v1:" + round + ":" + verdict + ":" + number + ":" + hex ==
            "ZRN.commit.v1" + [':'] + (round + [':'] + (verdict + [':'] + (number + [':'] + hex)))
  {
    assert "ZRN.commit.v1:" == "ZRN.commit.v1" + [':'];
  }

  /** Split at its colons, the preimage is the tag, the round, the verdict, the
      confidence in decimal and the salt in hexadecimal. */
  lemma {:induction false} PreimageParts(round: string, verdict: string, confidence: uint64, salt: bytes)
    requires ':' !in round && ':' !in verdict
    ensures exists number, hex ::
              && Parts(Preimage(round, verdict, confidence, salt), ':') == ["ZRN.commit.v1", round, verdict, number, hex]
              && DecimalValue(number) == confidence && FromHex(hex) == Some(salt)
  {
    var number, hex := Decimal(confidence), ToHex(salt);
    DecimalReadBack(confidence);
    HexRoundTrip(salt);
    HexHasNoColon(salt);
    FiveParts("ZRN.commit.v1", round, verdict, number, hex, ':');
    PreimageGrouped(round, verdict, number, hex);
  }

  // ---- the store ----

  /** The persistence file; None stands for a missing or unreadable one. */
  class Disk {
    var file: Option<Commitments>

    constructor ()
      ensures file == None
    {
      file := None;
    }
  }

  function Loaded(file: Option<Commitments>): Commitments {
    if file.None? then map[] else file.value
  }

  /** What a clean-up at a height keeps: entries at most `maxAge` old. */
  function Unexpired(c: Commitments, height: uint64, maxAge: uint64): Commitments {
    map id | id in c && !(c[id].height + maxAge < height) :: c[id]
  }

  class LocalCommitmentStore {
    var commitments: Commitments
    const disk: Disk?

    /** Memory is what a restart would load, or there is no file at all. */
    ghost predicate Synced()
      reads this, disk
    {
      disk != null ==> Loaded(disk.file) == commitments
    }

    constructor (disk: Disk?)
      ensures this.disk == disk && Synced()
      ensures commitments == if disk == null then map[] else Loaded(disk.file)
    {
      this.disk := disk;
      commitments := map[];
      if disk != null && disk.file.Some? {
        commitments := disk.file.value;
      }
    }

    method Flush()
      modifies disk
      ensures disk != null ==> disk.file == Some(commitments)
    {
      if disk != null {
        disk.file := Some(commitments);
      }
    }

    method Store(c: LocalCommitment)
      modifies this, disk
      ensures commitments == old(commitments)[c.roundId := c]
      ensures disk != null ==> disk.file == Some(commitments)
    {
      commitments := commitments[c.roundId := c];
      Flush();
    }

    method Get(round: string) returns (r: Option<LocalCommitment>)
      ensures r == if round in commitments then Some(commitments[round]) else None
    {
      return if round in commitments then Some(commitments[round]) else None;
    }

    method Delete(round: string)
      modifies this, disk
      ensures commitments == old(commitments) - {round}
      ensures disk != null ==> disk.file == Some(commitments)
    {
      commitments := commitments - {round};
      Flush();
    }

    /** Removes exactly the entries older than `maxAge`, in whatever order the
        map yields them, and writes the file when anything was removed. */
    method CleanupExpired(currentHeight: uint64, maxAge: uint64)
      requires Synced()
      modifies this, disk
      ensures commitments == Unexpired(old(commitments), currentHeight, maxAge)
      ensures Synced()
      ensures commitments == old(commitments) ==> disk == null || disk.file == old(disk.file)
    {
      if currentHeight < maxAge { return; }
      var cutoff := currentHeight - maxAge;
      var changed := false;
      var rest := commitments.Keys;
      while rest != {}
        invariant rest <= old(commitments).Keys
        invariant commitments == map id | id in old(commitments) && (id in rest || cutoff <= old(commitments)[id].height) :: old(commitments)[id]
        invariant changed <==> commitments != old(commitments)
        invariant disk != null ==> disk.file == old(disk.file)
      {
        ghost var was := commitments;
        var id :| id in rest;
        if commitments[id].height < cutoff {
          commitments := commitments - {id};
          changed := true;
          assert id in old(commitments) && id !in commitments;
        }
        rest := rest - {id};
      }
      if changed {
        Flush();
      }
    }

    method Count() returns (n: nat)
      ensures n == |commitments|
    {
      return |commitments|;
    }
  }

  // ---- commit and reveal phases ----

  predicate Votable(verdict: string) {
    verdict == "accept" || verdict == "reject" || verdict == "abstain"
  }

  /** The oracle's raw answer, its confidence already scaled to an integer. */
  type OracleReply = Option<(string, uint64)>

  /** Verdict and confidence used for a claim: defaults without an answer,
      "uncertain" read as acceptance, confidence capped. */
  function EvaluateWithOracle(reply: OracleReply): (r: (string, uint64))
    ensures r.1 <= 1_000_000 && r.0 != "uncertain"
    ensures reply == None ==> r == ("accept", 600_000)
    ensures reply.Some? && reply.value.0 != "uncertain" ==> r.0 == reply.value.0
    ensures reply.Some? && reply.value.0 == "uncertain" ==> r.0 == "accept" && Votable(r.0)
    ensures reply.Some? && reply.value.1 <= 1_000_000 ==> r.1 == reply.value.1
  {
    if reply.None? then ("accept", 600_000)
    else (if reply.value.0 == "uncertain" then "accept" else reply.value.0,
          if reply.value.1 > 1_000_000 then 1_000_000 else reply.value.1)
  }

  /** What one commit call reads from outside: the VRF output and proof unless
      that fails, both stakes, whether parameters load and the validator is
      selected, whether the claim exists, the oracle and the random salt. */
  datatype Surroundings = Surroundings(
    vrf: Option<(bytes, bytes)>, effectiveStake: Option<uint64>, totalStake: Option<uint64>, params: bool,
    selected: bool, claimFound: bool, oracle: OracleReply, salt: Option<bytes>)

  datatype VoteCommitment = VoteCommitment(roundId: string, hash: string, vrfOutput: string, vrfProof: string, height: uint64)

  datatype VoteReveal = VoteReveal(roundId: string, verdict: string, confidence: uint64, salt: string)

  predicate Eligible(w: Surroundings) {
    w.vrf.Some? && w.effectiveStake.Some? && w.effectiveStake.value != 0 && w.totalStake.Some? && w.params && w.selected
  }

  /** The entry a commit call works with: the stored one, else a fresh one. */
  function Chosen(c: Commitments, round: string, height: uint64, w: Surroundings): Option<LocalCommitment> {
    if !Eligible(w) then None
    else if round in c then Some(c[round])
    else if w.salt.None? then None
    else
      var (verdict, confidence) := if w.claimFound then EvaluateWithOracle(w.oracle) else ("accept", 600_000);
      Some(LocalCommitment(round, verdict, confidence, ToHex(w.salt.value), height))
  }

  function HashOf(h: TextHasher, round: string, e: LocalCommitment): string {
    ComputeCommitmentHash(h, round, e.verdict, e.confidence, e.salt)
  }

  function AfterCommit(c: Commitments, round: string, height: uint64, w: Surroundings): Commitments {
    var e := Chosen(c, round, height, w);
    if e.None? || round in c then c else c[round := e.value]
  }

  function Committed(h: TextHasher, c: Commitments, round: string, height: uint64, w: Surroundings): Option<VoteCommitment> {
    var e := Chosen(c, round, height, w);
    if e.None? then None
    else Some(VoteCommitment(round, HashOf(h, round, e.value), ToHex(w.vrf.value.0), ToHex(w.vrf.value.1), height))
  }

  function Revealed(c: Commitments, round: string): Option<VoteReveal> {
    if round !in c then None else Some(VoteReveal(round, c[round].verdict, c[round].confidence, c[round].salt))
  }

  /** The verdict and confidence of a fresh commitment. */
  ghost predicate FromOracle(w: Surroundings, verdict: string, confidence: uint64) {
    if !w.claimFound || w.oracle.None? then verdict == "accept" && confidence == 600_000
    else
      && verdict == (if w.oracle.value.0 == "uncertain" then "accept" else w.oracle.value.0)
      && confidence <= w.oracle.value.1 && confidence <= 1_000_000
      && (confidence == w.oracle.value.1 || confidence == 1_000_000)
  }

  /** A commit call, by what it sends and what it stores. */
  lemma {:induction false} CommitExactly(h: TextHasher, c: Commitments, round: string, height: uint64, w: Surroundings)
    ensures var r, after := Committed(h, c, round, height, w), AfterCommit(c, round, height, w);
      && (r.Some? <==>
            && w.vrf.Some? && w.effectiveStake.Some? && w.effectiveStake.value > 0 && w.totalStake.Some? && w.params && w.selected
            && (round in c || w.salt.Some?))
      && (r.None? || round in c ==> after == c)
      && (r.Some? ==>
            && r.value.roundId == round && r.value.height == height
            && FromHex(r.value.vrfOutput) == Some(w.vrf.value.0) && FromHex(r.value.vrfProof) == Some(w.vrf.value.1)
            && round in after
            && (FromHex(after[round].salt).Some? ==>
                  VerifyCommitmentHash(h, r.value.hash, round, after[round].verdict, after[round].confidence, after[round].salt)))
      && (r.Some? && round !in c ==>
            && after.Keys == c.Keys + {round} && (forall id :: id in c ==> after[id] == c[id])
            && after[round].roundId == round && after[round].height == height && FromHex(after[round].salt) == w.salt
            && FromOracle(w, after[round].verdict, after[round].confidence))
  {
    if Committed(h, c, round, height, w).Some? {
      HexRoundTrip(w.vrf.value.0);
      HexRoundTrip(w.vrf.value.1);
      if w.salt.Some? {
        HexRoundTrip(w.salt.value);
      }
      var e := AfterCommit(c, round, height, w)[round];
      if FromHex(e.salt).Some? {
        OwnRevealVerifies(h, round, e);
      }
    }
  }

  /** Re-uses a stored commitment; otherwise asks the oracle, draws a salt and
      stores before answering. */
  method HandleCommitPhase(h: TextHasher, store: LocalCommitmentStore, round: string, height: uint64, w: Surroundings)
    returns (r: Option<VoteCommitment>)
    requires store.Synced()
    modifies store, store.disk
    ensures store.Synced()
    ensures store.commitments == AfterCommit(old(store.commitments), round, height, w)
    ensures r == Committed(h, old(store.commitments), round, height, w)
  {
    if w.vrf.None? { return None; }
    if w.effectiveStake.None? || w.effectiveStake.value == 0 { return None; }
    if w.totalStake.None? { return None; }
    if !w.params { return None; }
    if !w.selected { return None; }
    var (output, proof) := w.vrf.value;
    var existing := store.Get(round);
    if existing.Some? {
      var e := existing.value;
      var reused := ComputeCommitmentHash(h, round, e.verdict, e.confidence, e.salt);
      return Some(VoteCommitment(round, reused, ToHex(output), ToHex(proof), height));
    }
    var verdict, confidence := "accept", 600_000;
    if w.claimFound {
      var answer := EvaluateWithOracle(w.oracle);
      verdict, confidence := answer.0, answer.1;
    }
    if w.salt.None? { return None; }
    var salt := ToHex(w.salt.value);
    var hash := ComputeCommitmentHash(h, round, verdict, confidence, salt);
    store.Store(LocalCommitment(round, verdict, confidence, salt, height));
    return Some(VoteCommitment(round, hash, ToHex(output), ToHex(proof), height));
  }

  method HandleRevealPhase(store: LocalCommitmentStore, round: string) returns (r: Option<VoteReveal>)
    ensures r == Revealed(store.commitments, round)
    ensures r.Some? <==> round in store.commitments
    ensures r.Some? ==>
      var e := store.commitments[round];
      r.value.roundId == round && r.value.verdict == e.verdict && r.value.confidence == e.confidence && r.value.salt == e.salt
  {
    var local := store.Get(round);
    if local.None? { return None; }
    return Some(VoteReveal(round, local.value.verdict, local.value.confidence, local.value.salt));
  }

  // ---- runs ----

  /** A validator: memory, file, and whether it has a file at all. */
  datatype Validator = Validator(memory: Commitments, file: Option<Commitments>, persistent: bool)

  datatype Event =
    | Commit(round: string, height: uint64, w: Surroundings)
    | Reveal(round: string)
    | Cleanup(height: uint64)
    | Restart

  datatype Output = Silent | SentCommitment(c: VoteCommitment) | SentReveal(r: VoteReveal)

  predicate InSync(v: Validator) {
    v.persistent ==> Loaded(v.file) == v.memory
  }

  /** A mutation writes the whole map through. */
  function Written(v: Validator, c: Commitments): Validator {
    if c == v.memory then v
    else Validator(c, if v.persistent then Some(c) else v.file, v.persistent)
  }

  function Next(v: Validator, e: Event, maxAge: uint64): Validator {
    match e
    case Commit(round, height, w) => Written(v, AfterCommit(v.memory, round, height, w))
    case Reveal(_) => v
    case Cleanup(height) => Written(v, Unexpired(v.memory, height, maxAge))
    case Restart => v.(memory := if v.persistent then Loaded(v.file) else map[])
  }

  function Sent(h: TextHasher, v: Validator, e: Event): Output {
    match e
    case Commit(round, height, w) =>
      (match Committed(h, v.memory, round, height, w)
       case None => Silent
       case Some(c) => SentCommitment(c))
    case Reveal(round) =>
      (match Revealed(v.memory, round)
       case None => Silent
       case Some(r) => SentReveal(r))
    case Cleanup(_) => Silent
    case Restart => Silent
  }

  function Run(v: Validator, events: seq<Event>, maxAge: uint64): Validator {
    if events == [] then v else Next(Run(v, events[..|events| - 1], maxAge), events[|events| - 1], maxAge)
  }

  /** No clean-up past the window of an entry, and no restart without a file. */
  ghost predicate Within(v: Validator, events: seq<Event>, last: int) {
    forall i :: 0 <= i < |events| ==>
      && (events[i].Cleanup? ==> events[i].height <= last)
      && (events[i].Restart? ==> v.persistent)
  }

  lemma {:induction false} NextInSync(v: Validator, e: Event, maxAge: uint64)
    requires InSync(v)
    ensures InSync(Next(v, e, maxAge)) && Next(v, e, maxAge).persistent == v.persistent
    ensures e.Restart? && v.persistent ==> Next(v, e, maxAge) == v
  {
  }

  /** Disk equals memory after every run. */
  lemma {:induction false} RunInSync(v: Validator, events: seq<Event>, maxAge: uint64)
    requires InSync(v)
    ensures InSync(Run(v, events, maxAge)) && Run(v, events, maxAge).persistent == v.persistent
  {
    if events != [] {
      RunInSync(v, events[..|events| - 1], maxAge);
      NextInSync(Run(v, events[..|events| - 1], maxAge), events[|events| - 1], maxAge);
    }
  }

  /** A stored commitment is neither changed nor dropped inside its window. */
  lemma {:induction false} EntrySurvives(v: Validator, events: seq<Event>, maxAge: uint64, round: string)
    requires InSync(v) && round in v.memory
    requires Within(v, events, v.memory[round].height + maxAge)
    ensures round in Run(v, events, maxAge).memory && Run(v, events, maxAge).memory[round] == v.memory[round]
  {
    if events != [] {
      var before := events[..|events| - 1];
      assert forall i :: 0 <= i < |before| ==> before[i] == events[i];
      EntrySurvives(v, before, maxAge, round);
      RunInSync(v, before, maxAge);
      NextInSync(Run(v, before, maxAge), events[|events| - 1], maxAge);
    }
  }

  /** A reveal of an entry verifies against the commitment computed from it. */
  lemma {:induction false} OwnRevealVerifies(h: TextHasher, round: string, e: LocalCommitment)
    requires FromHex(e.salt).Some?
    ensures VerifyCommitmentHash(h, HashOf(h, round, e), round, e.verdict, e.confidence, e.salt)
  {
    HexRoundTrip(h(Preimage(round, e.verdict, e.confidence, FromHex(e.salt).value)));
  }

  /** Salts are written by the commit phase only, always as hexadecimal. */
  ghost predicate HexSalts(c: Commitments) {
    forall id :: id in c ==> FromHex(c[id].salt).Some?
  }

  lemma {:induction false} RunKeepsHexSalts(v: Validator, events: seq<Event>, maxAge: uint64)
    requires InSync(v) && HexSalts(v.memory)
    ensures HexSalts(Run(v, events, maxAge).memory)
  {
    if events != [] {
      var before, e := Run(v, events[..|events| - 1], maxAge), events[|events| - 1];
      RunInSync(v, events[..|events| - 1], maxAge);
      RunKeepsHexSalts(v, events[..|events| - 1], maxAge);
      if e.Commit? && e.w.salt.Some? {
        HexRoundTrip(e.w.salt.value);
      }
    }
  }

  /** Commitment stability. Once a commitment for a round has been sent, then
      until a clean-up passes the entry's height plus `maxAge`, whatever the
      oracle, the salt source and the restarts do, every further commitment
      for that round carries the same hash, and every reveal verifies against it. */
  lemma {:induction false} CommitmentStability(h: TextHasher, v: Validator, first: Event, events: seq<Event>, maxAge: uint64, next: Event)
    requires InSync(v) && HexSalts(v.memory)
    requires first.Commit? && Sent(h, v, first).SentCommitment?
    requires var after := Next(v, first, maxAge); Within(after, events, after.memory[first.round].height + maxAge)
    ensures var after := Next(v, first, maxAge);
      var hash, sent := Sent(h, v, first).c.hash, Sent(h, Run(after, events, maxAge), next);
      && (next.Commit? && next.round == first.round && sent.SentCommitment? ==> sent.c.hash == hash)
      && (next.Reveal? && next.round == first.round ==>
            && sent.SentReveal?
            && VerifyCommitmentHash(h, hash, sent.r.roundId, sent.r.verdict, sent.r.confidence, sent.r.salt))
  {
    var after := Next(v, first, maxAge);
    NextInSync(v, first, maxAge);
    EntrySurvives(after, events, maxAge, first.round);
    assert Run(v, [first][..0], maxAge) == v;
    assert Run(v, [first], maxAge) == after;
    RunKeepsHexSalts(v, [first], maxAge);
    OwnRevealVerifies(h, first.round, after.memory[first.round]);
  }

  /** The window is exact: without a fresh commit for the round, its entry is
      still there precisely when no clean-up passed height plus `maxAge`. */
  lemma {:induction false} WindowIsExact(v: Validator, events: seq<Event>, maxAge: uint64, round: string)
    requires InSync(v) && v.persistent && round in v.memory
    requires forall i :: 0 <= i < |events| && events[i].Commit? ==> events[i].round != round
    ensures round in Run(v, events, maxAge).memory <==>
            forall i :: 0 <= i < |events| && events[i].Cleanup? ==> events[i].height <= v.memory[round].height + maxAge
    ensures round in Run(v, events, maxAge).memory ==> Run(v, events, maxAge).memory[round] == v.memory[round]
  {
    if events != [] {
      var before := events[..|events| - 1];
      assert forall i :: 0 <= i < |before| ==> before[i] == events[i];
      assert forall i :: 0 <= i < |events| - 1 ==> events[i] == before[i];
      WindowIsExact(v, before, maxAge, round);
      RunInSync(v, before, maxAge);
      NextInSync(Run(v, before, maxAge), events[|events| - 1], maxAge);
    }
  }

  // ---- a vote extension ----

  datatype Phase = CommitPhase | RevealPhase | OtherPhase

  datatype Round = Round(id: string, phase: Phase, w: Surroundings)

  datatype Extension = Extension(commitments: seq<VoteCommitment>, shown: seq<VoteReveal>)

  /** One event per round in order, then one clean-up. */
  function EventOf(r: Round, height: uint64): Option<Event> {
    match r.phase
    case CommitPhase => Some(Commit(r.id, height, r.w))
    case RevealPhase => Some(Reveal(r.id))
    case OtherPhase => None
  }

  function Events(rounds: seq<Round>, height: uint64): seq<Event> {
    if rounds == [] then []
    else
      var e := EventOf(rounds[|rounds| - 1], height);
      Events(rounds[..|rounds| - 1], height) + if e.None? then [] else [e.value]
  }

  function Noted(ext: Extension, sent: Output): Extension {
    match sent
    case Silent => ext
    case SentCommitment(c) => ext.(commitments := ext.commitments + [c])
    case SentReveal(r) => ext.(shown := ext.shown + [r])
  }

  /** Everything a list of events sends, in order. */
  function Collected(h: TextHasher, v: Validator, events: seq<Event>): Extension {
    if events == [] then Extension([], [])
    else
      var n := |events| - 1;
      Noted(Collected(h, v, events[..n]), Sent(h, Run(v, events[..n], MAX_AGE), events[n]))
  }

  lemma {:induction false} OneMoreEvent(h: TextHasher, v: Validator, events: seq<Event>, e: Event)
    ensures Run(v, events + [e], MAX_AGE) == Next(Run(v, events, MAX_AGE), e, MAX_AGE)
    ensures Collected(h, v, events + [e]) == Noted(Collected(h, v, events), Sent(h, Run(v, events, MAX_AGE), e))
  {
    assert (events + [e])[..|events|] == events;
  }

  /** A validator's memory alone, for calls between restarts. */
  function InMemory(c: Commitments): Validator {
    Validator(c, None, false)
  }

  method ServeRound(h: TextHasher, store: LocalCommitmentStore, round: Round, height: uint64, ext: Extension) returns (r: Extension)
    requires store.Synced()
    modifies store, store.disk
    ensures store.Synced()
    ensures var e := EventOf(round, height); var v := InMemory(old(store.commitments));
      && InMemory(store.commitments) == (if e.None? then v else Next(v, e.value, MAX_AGE))
      && r == (if e.None? then ext else Noted(ext, Sent(h, v, e.value)))
  {
    r := ext;
    if round.phase == CommitPhase {
      var c := HandleCommitPhase(h, store, round.id, height, round.w);
      if c.Some? {
        r := r.(commitments := r.commitments + [c.value]);
      }
    } else if round.phase == RevealPhase {
      var shown := HandleRevealPhase(store, round.id);
      if shown.Some? {
        r := r.(shown := r.shown + [shown.value]);
      }
    }
  }

  lemma {:induction false} OneMoreRound(h: TextHasher, v: Validator, rounds: seq<Round>, n: nat, height: uint64)
    requires n < |rounds|
    ensures var e := EventOf(rounds[n], height);
      var before, after := Events(rounds[..n], height), Events(rounds[..n + 1], height);
      && Run(v, after, MAX_AGE) == (if e.None? then Run(v, before, MAX_AGE) else Next(Run(v, before, MAX_AGE), e.value, MAX_AGE))
      && Collected(h, v, after) ==
           (if e.None? then Collected(h, v, before) else Noted(Collected(h, v, before), Sent(h, Run(v, before, MAX_AGE), e.value)))
  {
    var e, before := EventOf(rounds[n], height), Events(rounds[..n], height);
    assert rounds[..n + 1][..n] == rounds[..n];
    if e.Some? {
      OneMoreEvent(h, v, before, e.value);
    } else {
      assert before + [] == before;
    }
  }

  /** The memory a validator has after some rounds of a block. */
  function MemoryAfter(c: Commitments, rounds: seq<Round>, height: uint64): Commitments {
    Run(InMemory(c), Events(rounds, height), MAX_AGE).memory
  }

  /** What a validator has sent after some rounds of a block. */
  function SentBy(h: TextHasher, c: Commitments, rounds: seq<Round>, height: uint64): Extension {
    Collected(h, InMemory(c), Events(rounds, height))
  }

  lemma {:induction false} RunInMemory(c: Commitments, events: seq<Event>)
    requires forall i :: 0 <= i < |events| ==> !events[i].Restart?
    ensures Run(InMemory(c), events, MAX_AGE) == InMemory(Run(InMemory(c), events, MAX_AGE).memory)
  {
    if events != [] {
      RunInMemory(c, events[..|events| - 1]);
    }
  }

  lemma {:induction false} NoRestarts(rounds: seq<Round>, height: uint64)
    ensures forall i :: 0 <= i < |Events(rounds, height)| ==> !Events(rounds, height)[i].Restart?
  {
    if rounds != [] {
      NoRestarts(rounds[..|rounds| - 1], height);
    }
  }

  /** An extension round by round: a round to commit adds what the commit call
      sends and stores, a round to reveal adds the stored entry, any other round
      adds nothing. */
  lemma {:induction false} RoundByRound(h: TextHasher, c: Commitments, rounds: seq<Round>, n: nat, height: uint64)
    requires n < |rounds|
    ensures var r := rounds[n];
      var was, now := MemoryAfter(c, rounds[..n], height), MemoryAfter(c, rounds[..n + 1], height);
      var ext, ext' := SentBy(h, c, rounds[..n], height), SentBy(h, c, rounds[..n + 1], height);
      match r.phase
      case CommitPhase =>
        var sent := Committed(h, was, r.id, height, r.w);
        && now == AfterCommit(was, r.id, height, r.w) && ext'.shown == ext.shown
        && ext'.commitments == (if sent.None? then ext.commitments else ext.commitments + [sent.value])
      case RevealPhase =>
        var sent := Revealed(was, r.id);
        && now == was && ext'.commitments == ext.commitments
        && ext'.shown == (if sent.None? then ext.shown else ext.shown + [sent.value])
      case OtherPhase => now == was && ext' == ext
  {
    OneMoreRound(h, InMemory(c), rounds, n, height);
    NoRestarts(rounds[..n], height);
    RunInMemory(c, Events(rounds[..n], height));
  }

  /** It starts with nothing, and at the end entries more than a hundred blocks
      old are dropped. */
  lemma {:induction false} RoundsEnd(h: TextHasher, c: Commitments, rounds: seq<Round>, height: uint64)
    ensures MemoryAfter(c, [], height) == c && SentBy(h, c, [], height) == Extension([], [])
    ensures var before, after := MemoryAfter(c, rounds, height), Run(InMemory(c), Events(rounds, height) + [Cleanup(height)], MAX_AGE).memory;
      && (forall id :: id in after <==> id in before && before[id].height + 100 >= height)
      && (forall id :: id in after ==> after[id] == before[id])
  {
    OneMoreEvent(h, InMemory(c), Events(rounds, height), Cleanup(height));
  }

  /** The vote extension of a block: with the release latch closed, or on a node
      without validator address and key, nothing is sent and nothing changes;
      otherwise the store goes through exactly the
      events of the active rounds, then the clean-up, and sends what they send. */
  method ExtendVote(h: TextHasher, released: bool, configured: bool, store: LocalCommitmentStore, rounds: seq<Round>, height: uint64) returns (ext: Extension)
    requires store.Synced()
    modifies store, store.disk
    ensures store.Synced()
    ensures !released || !configured ==> ext == Extension([], []) && store.commitments == old(store.commitments)
    ensures released && configured ==>
      var v := InMemory(old(store.commitments));
      && ext == SentBy(h, old(store.commitments), rounds, height)
      && InMemory(store.commitments) == Run(v, Events(rounds, height) + [Cleanup(height)], MAX_AGE)
  {
    ext := Extension([], []);
    if !released { return; }
    if !configured { return; }
    ghost var v := InMemory(store.commitments);
    for n := 0 to |rounds|
      invariant store.Synced()
      invariant ext == Collected(h, v, Events(rounds[..n], height))
      invariant Run(v, Events(rounds[..n], height), MAX_AGE) == InMemory(store.commitments)
    {
      OneMoreRound(h, v, rounds, n, height);
      ext := ServeRound(h, store, rounds[n], height, ext);
    }
    assert rounds[..|rounds|] == rounds;
    OneMoreEvent(h, v, Events(rounds, height), Cleanup(height));
    store.CleanupExpired(height, MAX_AGE);
  }

  // ---- checking reveals of others ----

  datatype CommitEntry = CommitEntry(verifier: string, hash: bytes)

  function FirstBy(commits: seq<CommitEntry>, verifier: string): Option<CommitEntry> {
    if commits == [] then None
    else if commits[0].verifier == verifier then Some(commits[0])
    else FirstBy(commits[1..], verifier)
  }

  method FindCommitByVerifier(commits: seq<CommitEntry>, verifier: string) returns (r: Option<CommitEntry>)
    ensures r == FirstBy(commits, verifier)
    ensures r.None? <==> forall c :: c in commits ==> c.verifier != verifier
  {
    for n := 0 to |commits|
      invariant FirstBy(commits[n..], verifier) == FirstBy(commits, verifier)
      invariant forall c :: c in commits[..n] ==> c.verifier != verifier
    {
      if commits[n].verifier == verifier {
        assert commits[n] in commits;
        return Some(commits[n]);
      }
    }
    return None;
  }

  /** What a validator demands of another's reveal, given the rounds on chain. */
  predicate RevealAcceptable(h: TextHasher, chain: map<string, seq<CommitEntry>>, validator: string, r: VoteReveal) {
    && r.roundId != "" && r.salt != "" && Votable(r.verdict) && r.confidence <= 1_000_000
    && (r.roundId in chain ==>
          var c := FirstBy(chain[r.roundId], validator);
          c.Some? ==> VerifyCommitmentHash(h, ToHex(c.value.hash), r.roundId, r.verdict, r.confidence, r.salt))
  }

  method VerifyReveals(h: TextHasher, chain: map<string, seq<CommitEntry>>, validator: string, shown: seq<VoteReveal>) returns (accept: bool)
    ensures accept <==> forall r :: r in shown ==> RevealAcceptable(h, chain, validator, r)
  {
    for n := 0 to |shown|
      invariant forall r :: r in shown[..n] ==> RevealAcceptable(h, chain, validator, r)
    {
      var r := shown[n];
      assert r in shown;
      if r.roundId == "" || r.salt == "" { return false; }
      if !Votable(r.verdict) { return false; }
      if r.confidence > 1_000_000 { return false; }
      if r.roundId in chain {
        var commit := FindCommitByVerifier(chain[r.roundId], validator);
        if commit.Some? && !VerifyCommitmentHash(h, ToHex(commit.value.hash), r.roundId, r.verdict, r.confidence, r.salt) {
          return false;
        }
      }
    }
    return true;
  }

  /** A recorded commitment binds: two acceptable reveals of it agree on
      verdict, confidence and salt bytes, or exhibit a digest collision. */
  lemma {:induction false} CommitmentBinds(h: TextHasher, chain: map<string, seq<CommitEntry>>, validator: string, a: VoteReveal, b: VoteReveal)
    requires RevealAcceptable(h, chain, validator, a) && RevealAcceptable(h, chain, validator, b)
    requires a.roundId == b.roundId && a.roundId in chain && FirstBy(chain[a.roundId], validator).Some?
    ensures || (a.verdict == b.verdict && a.confidence == b.confidence && FromHex(a.salt) == FromHex(b.salt))
            || (&& FromHex(a.salt).Some? && FromHex(b.salt).Some?
                && var p := Preimage(a.roundId, a.verdict, a.confidence, FromHex(a.salt).value);
                   var q := Preimage(b.roundId, b.verdict, b.confidence, FromHex(b.salt).value);
                   p != q && h(p) == h(q))
  {
    var p := Preimage(a.roundId, a.verdict, a.confidence, FromHex(a.salt).value);
    var q := Preimage(b.roundId, b.verdict, b.confidence, FromHex(b.salt).value);
    if p == q {
      PreimageInjective(a.roundId, a.verdict, a.confidence, FromHex(a.salt).value,
                        b.roundId, b.verdict, b.confidence, FromHex(b.salt).value);
    }
  }

  /** A validator's own reveal of a stored entry, once its commitment is on
      chain, is acceptable to others exactly when the oracle's verdict was one
      of the three: an unknown verdict is committed but can never be revealed. */
  lemma {:induction false} OwnRevealAcceptable(h: TextHasher, round: string, height: uint64, w: Surroundings, chain: map<string, seq<CommitEntry>>, validator: string)
    requires Eligible(w) && w.salt.Some? && |w.salt.value| == 16 && round != ""
    requires round in chain && FirstBy(chain[round], validator).Some?
    requires ToHex(FirstBy(chain[round], validator).value.hash) == Committed(h, map[], round, height, w).value.hash
    ensures Revealed(AfterCommit(map[], round, height, w), round).Some?
    ensures RevealAcceptable(h, chain, validator, Revealed(AfterCommit(map[], round, height, w), round).value) <==>
            (w.claimFound ==> Votable(EvaluateWithOracle(w.oracle).0))
  {
    HexRoundTrip(w.salt.value);
    OwnRevealVerifies(h, round, Chosen(map[], round, height, w).value);
  }

  /** An oracle that answers "maybe" gets a commitment sent whose reveal no
      validator accepts, whatever is on chain. */
  lemma {:induction false} UnvotableVerdictWitness(h: TextHasher, salt: bytes, height: uint64)
    ensures var w := Surroundings(Some(([1], [2])), Some(1), Some(1), true, true, true, Some(("maybe", 5)), Some(salt));
      var shown := Revealed(AfterCommit(map[], "r", height, w), "r");
      && Committed(h, map[], "r", height, w).Some? && shown.Some?
      && (forall chain, validator :: !RevealAcceptable(h, chain, validator, shown.value))
  {
  }

  // ---- whole extensions ----

  const MAX_PER_EXTENSION: int := 50

  /** What the keeper says of a VRF output and proof for a round: an error, or
      whether the sender is selected. */
  type VrfCheck = (string, bytes, bytes) -> Option<bool>

  predicate CommitmentAcceptable(selects: VrfCheck, c: VoteCommitment) {
    && c.roundId != "" && |c.hash| == 64 && c.vrfOutput != "" && c.vrfProof != ""
    && FromHex(c.vrfOutput).Some? && FromHex(c.vrfProof).Some?
    && selects(c.roundId, FromHex(c.vrfOutput).value, FromHex(c.vrfProof).value) == Some(true)
  }

  predicate ExtensionAcceptable(h: TextHasher, chain: map<string, seq<CommitEntry>>, validator: string, selects: VrfCheck, ext: Extension) {
    && |ext.commitments| <= MAX_PER_EXTENSION && |ext.shown| <= MAX_PER_EXTENSION
    && (forall c :: c in ext.commitments ==> CommitmentAcceptable(selects, c))
    && (forall r :: r in ext.shown ==> RevealAcceptable(h, chain, validator, r))
  }

  method VerifyCommitments(selects: VrfCheck, commitments: seq<VoteCommitment>) returns (accept: bool)
    ensures accept <==> forall c :: c in commitments ==> CommitmentAcceptable(selects, c)
  {
    for n := 0 to |commitments|
      invariant forall c :: c in commitments[..n] ==> CommitmentAcceptable(selects, c)
    {
      var c := commitments[n];
      assert c in commitments;
      if c.roundId == "" || c.hash == "" { return false; }
      if |c.hash| != 64 { return false; }
      if c.vrfOutput == "" || c.vrfProof == "" { return false; }
      var output, proof := FromHex(c.vrfOutput), FromHex(c.vrfProof);
      if output.None? || proof.None? { return false; }
      var selected := selects(c.roundId, output.value, proof.value);
      if selected.None? || !selected.value { return false; }
    }
    return true;
  }

  /** An extension as received: no bytes, bytes that do not decode, or one. */
  datatype Received = NoBytes | Undecodable | Decoded(ext: Extension)

  method VerifyVoteExtension(h: TextHasher, released: bool, chain: map<string, seq<CommitEntry>>, validator: string, selects: VrfCheck, request: Received)
    returns (accept: bool)
    ensures accept <==> request == NoBytes || (released && request.Decoded? && ExtensionAcceptable(h, chain, validator, selects, request.ext))
  {
    if request == NoBytes { return true; }
    if !released { return false; }
    if request == Undecodable { return false; }
    var ext := request.ext;
    if |ext.commitments| > MAX_PER_EXTENSION { return false; }
    if |ext.shown| > MAX_PER_EXTENSION { return false; }
    accept := VerifyCommitments(selects, ext.commitments);
    if accept {
      accept := VerifyReveals(h, chain, validator, ext.shown);
    }
  }

  /** The bytes recorded for a verifier are the digest of what is revealed. */
  ghost predicate OpensRecord(h: TextHasher, commits: seq<CommitEntry>, validator: string, r: VoteReveal) {
    forall i :: 0 <= i < |commits| && commits[i].verifier == validator && (forall j :: 0 <= j < i ==> commits[j].verifier != validator) ==>
      && FromHex(r.salt).Some?
      && commits[i].hash == h("ZRN.commit.v1:" + r.roundId + ":" + r.verdict + ":" + Decimal(r.confidence) + ":" + ToHex(FromHex(r.salt).value))
  }

  lemma {:induction false} FirstByMeans(commits: seq<CommitEntry>, validator: string, i: nat)
    requires i < |commits| && commits[i].verifier == validator && (forall j :: 0 <= j < i ==> commits[j].verifier != validator)
    ensures FirstBy(commits, validator) == Some(commits[i])
  {
    if i > 0 {
      assert commits[0].verifier != validator;
      forall j | 0 <= j < i - 1
        ensures commits[1..][j].verifier != validator
      {
        assert commits[1..][j] == commits[j + 1];
      }
      FirstByMeans(commits[1..], validator, i - 1);
    }
  }

  lemma {:induction false} FirstByPlace(commits: seq<CommitEntry>, validator: string) returns (i: nat)
    requires FirstBy(commits, validator).Some?
    ensures i < |commits| && commits[i].verifier == validator && (forall j :: 0 <= j < i ==> commits[j].verifier != validator)
    ensures FirstBy(commits, validator) == Some(commits[i])
  {
    i := 0;
    if commits[0].verifier != validator {
      i := FirstByPlace(commits[1..], validator);
      i := i + 1;
    }
  }

  lemma {:induction false} OpensRecordMeans(h: TextHasher, commits: seq<CommitEntry>, validator: string, r: VoteReveal)
    ensures OpensRecord(h, commits, validator, r) <==>
            var c := FirstBy(commits, validator);
            c.Some? ==> VerifyCommitmentHash(h, ToHex(c.value.hash), r.roundId, r.verdict, r.confidence, r.salt)
  {
    if FirstBy(commits, validator).Some? {
      var i := FirstByPlace(commits, validator);
      HexRoundTrip(commits[i].hash);
    }
    forall i | 0 <= i < |commits| && commits[i].verifier == validator && (forall j :: 0 <= j < i ==> commits[j].verifier != validator)
      ensures FirstBy(commits, validator) == Some(commits[i])
    {
      FirstByMeans(commits, validator, i);
    }
  }

  /** What makes an extension acceptable, down to the hashed bytes. */
  lemma {:induction false} AcceptableExactly(h: TextHasher, chain: map<string, seq<CommitEntry>>, validator: string, selects: VrfCheck, ext: Extension)
    ensures ExtensionAcceptable(h, chain, validator, selects, ext) <==>
            && |ext.commitments| <= 50 && |ext.shown| <= 50
            && (forall c :: c in ext.commitments ==>
                  && c.roundId != "" && |c.hash| == 64 && c.vrfOutput != "" && c.vrfProof != ""
                  && FromHex(c.vrfOutput).Some? && FromHex(c.vrfProof).Some?
                  && selects(c.roundId, FromHex(c.vrfOutput).value, FromHex(c.vrfProof).value) == Some(true))
            && (forall r :: r in ext.shown ==>
                  && r.roundId != "" && r.salt != "" && (r.verdict == "accept" || r.verdict == "reject" || r.verdict == "abstain") && r.confidence <= 1_000_000
                  && (r.roundId in chain ==> OpensRecord(h, chain[r.roundId], validator, r)))
  {
    forall r | r in ext.shown && r.roundId in chain
      ensures OpensRecord(h, chain[r.roundId], validator, r) <==>
              var c := FirstBy(chain[r.roundId], validator);
              c.Some? ==> VerifyCommitmentHash(h, ToHex(c.value.hash), r.roundId, r.verdict, r.confidence, r.salt)
    {
      OpensRecordMeans(h, chain[r.roundId], validator, r);
    }
  }

  /** Entries the commit phase stores: a non-empty hexadecimal salt and a capped
      confidence. */
  ghost predicate WellStored(c: Commitments) {
    forall id :: id in c ==> FromHex(c[id].salt).Some? && c[id].salt != "" && c[id].confidence <= 1_000_000
  }

  /** The library's part in an event: rounds have ids, a VRF output selects its
      validator for others if it does for itself, and salts have sixteen bytes. */
  ghost predicate SoundEvent(selects: VrfCheck, e: Event) {
    match e
    case Commit(round, _, w) =>
      && round != "" && (w.salt.Some? ==> |w.salt.value| == 16)
      && (Eligible(w) ==> w.vrf.value.0 != [] && w.vrf.value.1 != [] && selects(round, w.vrf.value.0, w.vrf.value.1) == Some(true))
    case Reveal(round) => round != ""
    case _ => true
  }

  lemma {:induction false} NextWellStored(selects: VrfCheck, v: Validator, e: Event)
    requires WellStored(v.memory) && SoundEvent(selects, e) && !e.Restart?
    ensures WellStored(Next(v, e, MAX_AGE).memory)
  {
    if e.Commit? && e.w.salt.Some? {
      HexRoundTrip(e.w.salt.value);
    }
  }

  /** What a sound event sends meets every demand that does not depend on the
      chain or on the oracle. */
  lemma {:induction false} SentWell(h: TextHasher, selects: VrfCheck, v: Validator, e: Event)
    requires WellStored(v.memory) && SoundEvent(selects, e)
    ensures var sent := Sent(h, v, e);
      && (sent.SentCommitment? ==> CommitmentAcceptable(selects, sent.c))
      && (sent.SentReveal? ==> sent.r.roundId != "" && sent.r.salt != "" && FromHex(sent.r.salt).Some? && sent.r.confidence <= 1_000_000)
  {
    if e.Commit? && Chosen(v.memory, e.round, e.height, e.w).Some? {
      HexRoundTrip(e.w.vrf.value.0);
      HexRoundTrip(e.w.vrf.value.1);
      if e.w.salt.Some? {
        HexRoundTrip(e.w.salt.value);
      }
      var entry := Chosen(v.memory, e.round, e.height, e.w).value;
      assert FromHex(entry.salt).Some?;
      assert |HashOf(h, e.round, entry)| == 64;
    }
  }

  lemma {:induction false} CollectedWell(h: TextHasher, selects: VrfCheck, v: Validator, events: seq<Event>)
    requires WellStored(v.memory)
    requires forall i :: 0 <= i < |events| ==> SoundEvent(selects, events[i]) && !events[i].Restart?
    ensures WellStored(Run(v, events, MAX_AGE).memory)
    ensures forall c :: c in Collected(h, v, events).commitments ==> CommitmentAcceptable(selects, c)
    ensures forall r :: r in Collected(h, v, events).shown ==>
              r.roundId != "" && r.salt != "" && FromHex(r.salt).Some? && r.confidence <= 1_000_000
  {
    if events != [] {
      var n := |events| - 1;
      CollectedWell(h, selects, v, events[..n]);
      NextWellStored(selects, Run(v, events[..n], MAX_AGE), events[n]);
      SentWell(h, selects, Run(v, events[..n], MAX_AGE), events[n]);
    }
  }

  /** The chain recorded the commitment that this reveal belongs to, if any. */
  predicate RecordedOwn(h: TextHasher, chain: map<string, seq<CommitEntry>>, validator: string, r: VoteReveal) {
    r.roundId in chain && FirstBy(chain[r.roundId], validator).Some? ==>
      ToHex(FirstBy(chain[r.roundId], validator).value.hash) == ComputeCommitmentHash(h, r.roundId, r.verdict, r.confidence, r.salt)
  }

  /** Extension coherence: what a validator sends, others accept if and only if
      it sends at most fifty of each kind and every verdict it shows is one of
      the three. */
  lemma {:induction false} ExtensionCoherence(h: TextHasher, selects: VrfCheck, v: Validator, events: seq<Event>,
                                              chain: map<string, seq<CommitEntry>>, validator: string)
    requires WellStored(v.memory)
    requires forall i :: 0 <= i < |events| ==> SoundEvent(selects, events[i]) && !events[i].Restart?
    requires forall r :: r in Collected(h, v, events).shown ==> RecordedOwn(h, chain, validator, r)
    ensures var ext := Collected(h, v, events);
      ExtensionAcceptable(h, chain, validator, selects, ext) <==>
        && |ext.commitments| <= MAX_PER_EXTENSION && |ext.shown| <= MAX_PER_EXTENSION
        && forall r :: r in ext.shown ==> Votable(r.verdict)
  {
    CollectedWell(h, selects, v, events);
    var ext := Collected(h, v, events);
    forall r | r in ext.shown
      ensures RevealAcceptable(h, chain, validator, r) <==> Votable(r.verdict)
    {
      assert RecordedOwn(h, chain, validator, r);
      HexRoundTrip(h(Preimage(r.roundId, r.verdict, r.confidence, FromHex(r.salt).value)));
    }
  }
}
