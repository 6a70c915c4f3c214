/** The x/gov state the quarantine works on: proposals, the two deadline
    queues, deposits and the balances that hold and receive them. */
module GovState {
  import opened Bytes

  type Time = int

  datatype Status = Unspecified | DepositPeriod | VotingPeriod | Passed | Rejected | Failed

  /** A packed message, kept as the exact bytes governance will execute. */
  datatype Action = Action(typeUrl: Slice, value: Slice)

  datatype Plan = Plan(name: Slice, height: int64, info: Slice)

  /** The texts the application writes into a failed proposal, by name. */
  datatype Reason =
    | Text(text: string)
    | QuarantinePermitsOneAction
    | AuthorizationRevoked
    | UnsupportedStatus
    | ExpeditedNotConverted
    | NoLongerMatches

  datatype Proposal = Proposal(
    id: nat,
    status: Status,
    expedited: bool,
    proposer: string,
    messages: seq<Option<Action>>,
    depositEnd: Option<Time>,
    votingEnd: Option<Time>,
    failedReason: Reason)

  /** A stored proposal may fail to decode, or fail to be read at all. */
  datatype Stored = Encoded(proposal: Proposal) | Corrupt | Unreadable

  predicate Terminal(s: Status) {
    s == Passed || s == Rejected || s == Failed
  }

  predicate TerminalAt(proposals: map<nat, Stored>, id: nat) {
    id in proposals && proposals[id].Encoded? && Terminal(proposals[id].proposal.status)
  }

  /** A status with its own deadline set to the given one. */
  predicate OnSchedule(status: Status, depositEnd: Option<Time>, votingEnd: Option<Time>, deadline: Time) {
    || (status == DepositPeriod && depositEnd == Some(deadline))
    || (status == VotingPeriod && votingEnd == Some(deadline))
  }

  type QueueKey = (Time, nat)

  const GOV_MODULE: string := "gov"

  // ---- totals over finite maps ----

  ghost function Total<K(!new)>(m: map<K, nat>): nat {
    if m == map[] then 0 else
    var k :| k in m;
    m[k] + Total(m - {k})
  }

  lemma {:induction false} TotalWithout<K(!new)>(m: map<K, nat>, k: K)
    requires k in m
    ensures Total(m) == m[k] + Total(m - {k})
    decreases |m|
  {
    var j :| j in m && Total(m) == m[j] + Total(m - {j});
    if j != k {
      assert k in m - {j} && j in m - {k};
      TotalWithout(m - {j}, k);
      TotalWithout(m - {k}, j);
      assert m - {j} - {k} == m - {k} - {j};
    }
  }

  lemma {:induction false} TotalUpdate<K(!new)>(m: map<K, nat>, k: K, v: nat)
    ensures Total(m[k := v]) == Total(m) + v - (if k in m then m[k] else 0)
  {
    var n := m[k := v];
    TotalWithout(n, k);
    if k in m {
      TotalWithout(m, k);
      assert n - {k} == m - {k};
    } else {
      assert n - {k} == m;
    }
  }

  function Holding(balances: map<string, nat>, account: string): nat {
    if account in balances then balances[account] else 0
  }

  function Deposited(deposits: map<(nat, string), nat>, id: nat, depositor: string): nat {
    if (id, depositor) in deposits then deposits[(id, depositor)] else 0
  }

  /** Every depositor of a proposal is paid what it had deposited, and nobody
      but the governance module pays. */
  ghost predicate Refunded(now: map<string, nat>, before: map<string, nat>, deposits: map<(nat, string), nat>, id: nat) {
    forall a :: a != GOV_MODULE ==> Holding(now, a) == Holding(before, a) + Deposited(deposits, id, a)
  }

  /** All deposits but those of one proposal. */
  function DepositsWithout(deposits: map<(nat, string), nat>, id: nat): map<(nat, string), nat> {
    map d | d in deposits && d.0 != id :: deposits[d]
  }

  /** The governance module holds at least what is deposited with it. */
  ghost predicate Solvent(balances: map<string, nat>, deposits: map<(nat, string), nat>) {
    Holding(balances, GOV_MODULE) >= Total(deposits)
  }

  /** What an account holds or has deposited. */
  ghost function Worth(balances: map<string, nat>, deposits: map<(nat, string), nat>, account: string): nat {
    Holding(balances, account) + Total(map d | d in deposits && d.1 == account :: deposits[d])
  }

  /** Coins are conserved: in total, for each account but the module's, and the
      module stays solvent. */
  ghost predicate Conserved(balances: map<string, nat>, deposits: map<(nat, string), nat>,
                            before: map<string, nat>, depositsBefore: map<(nat, string), nat>) {
    && Total(balances) == Total(before)
    && (forall a :: a != GOV_MODULE ==> Worth(balances, deposits, a) == Worth(before, depositsBefore, a))
    && (Solvent(before, depositsBefore) ==> Solvent(balances, deposits))
  }

  /** Paying a proposal's deposits back leaves every account worth the same. */
  lemma {:induction false} RefundKeepsWorth(now: map<string, nat>, before: map<string, nat>, deposits: map<(nat, string), nat>, id: nat, a: string)
    requires Refunded(now, before, deposits, id) && a != GOV_MODULE
    ensures Worth(now, DepositsWithout(deposits, id), a) == Worth(before, deposits, a)
  {
    var own := map d | d in deposits && d.1 == a :: deposits[d];
    var rest := map d | d in DepositsWithout(deposits, id) && d.1 == a :: DepositsWithout(deposits, id)[d];
    if (id, a) in deposits {
      TotalWithout(own, (id, a));
      assert rest == own - {(id, a)};
    } else {
      assert rest == own;
    }
  }

  class Store {
    var proposals: map<nat, Stored>
    var inactive: map<QueueKey, nat>
    var active: map<QueueKey, nat>
    var deposits: map<(nat, string), nat>
    var balances: map<string, nat>
    var nextProposalId: nat

    constructor (proposals: map<nat, Stored>, nextProposalId: nat)
      ensures this.proposals == proposals && this.nextProposalId == nextProposalId
      ensures inactive == map[] && active == map[] && deposits == map[] && balances == map[]
    {
      this.proposals, this.nextProposalId := proposals, nextProposalId;
      inactive, active, deposits, balances := map[], map[], map[], map[];
    }

    /** Moves coins between two accounts; fails when the sender is short. */
    method SendCoins(from: string, to: string, amount: nat) returns (ok: bool)
      modifies this`balances
      ensures ok <==> Holding(old(balances), from) >= amount
      ensures ok ==> Total(balances) == Total(old(balances))
      ensures ok ==> forall a :: a != from && a != to ==> Holding(balances, a) == Holding(old(balances), a)
      ensures ok && from != to ==>
                && Holding(balances, from) == Holding(old(balances), from) - amount
                && Holding(balances, to) == Holding(old(balances), to) + amount
      ensures ok && from == to ==> Holding(balances, from) == Holding(old(balances), from)
      ensures !ok ==> balances == old(balances)
    {
      if Holding(balances, from) < amount { return false; }
      TotalUpdate(balances, from, Holding(balances, from) - amount);
      balances := balances[from := Holding(balances, from) - amount];
      TotalUpdate(balances, to, Holding(balances, to) + amount);
      balances := balances[to := Holding(balances, to) + amount];
      return true;
    }

    /** The SDK's refund: every deposit of the proposal goes back to its
        depositor from the governance module account and is deleted. It fails
        only when the module cannot pay. */
    method RefundAndDeleteDeposits(id: nat) returns (ok: bool)
      modifies this`balances, this`deposits
      ensures ok ==> deposits == DepositsWithout(old(deposits), id)
      ensures ok ==> Refunded(balances, old(balances), old(deposits), id)
      ensures ok ==> Conserved(balances, deposits, old(balances), old(deposits))
      ensures Solvent(old(balances), old(deposits)) ==> ok
    {
      var pending := set k | k in deposits && k.0 == id;
      while pending != {}
        invariant forall k :: k in pending ==> k in deposits && k.0 == id
        invariant forall k :: k in deposits <==> k in old(deposits) && (k.0 != id || k in pending)
        invariant forall k :: k in deposits ==> deposits[k] == old(deposits)[k]
        invariant Total(balances) == Total(old(balances))
        invariant Solvent(old(balances), old(deposits)) ==> Solvent(balances, deposits)
        invariant forall a :: a != GOV_MODULE ==>
                    Holding(balances, a) + Deposited(deposits, id, a) ==
                    Holding(old(balances), a) + Deposited(old(deposits), id, a)
      {
        var k :| k in pending;
        TotalWithout(deposits, k);
        var sent := SendCoins(GOV_MODULE, k.1, deposits[k]);
        if !sent { return false; }
        deposits := deposits - {k};
        pending := pending - {k};
      }
      assert deposits == DepositsWithout(old(deposits), id);
      forall a | a != GOV_MODULE
        ensures Worth(balances, deposits, a) == Worth(old(balances), old(deposits), a)
      {
        RefundKeepsWorth(balances, old(balances), old(deposits), id, a);
      }
      return true;
    }
  }
}
