/** The bounded inspection of a transaction's executable messages, wrapped ones
    included, that runs before signatures and gas are checked. */
module EmergencyScan {
  import opened Bytes
  import opened Encoding

  const MAX_DEPTH: int := 16
  const MAX_MESSAGES: int := 256
  const MAX_ANY_BYTES: int := 0x10_0000

  const RECV_PACKET_URL: string := "/ibc.core.channel.v1.MsgRecvPacket"
  const ICA_HOST_PORT: string := "icahost"

  /** A message with its type URL. Two kinds carry further packed messages; a
      received packet may carry messages for the interchain host, which the scan
      does not open. */
  datatype Msg = Msg(url: string, body: Body)

  datatype Body =
    | Emergency
    | Exec(msgs: seq<Any>)
    | SubmitProposal(msgs: seq<Any>)
    | Vote(proposalId: nat)
    | VoteWeighted(proposalId: nat)
    | Deposit(proposalId: nat)
    | RecvPacket(port: string, payload: seq<Msg>)
    | Plain

  /** A packed message: possibly nil, possibly without an unpacked value, and
      with a URL that nothing forces to agree with that value. */
  datatype Any = NilAny | Any(url: string, valueBytes: nat, cached: Option<Msg>)

  datatype Flags = Flags(emergency: bool, wrappedEmergency: bool, icaHostReceive: bool, govMutation: bool)

  datatype ScanFault = NilMessage | TooDeep | TooMany | NilWrapped | TooManyBytes | NotUnpacked

  predicate IsEmergencyUrl(url: string) {
    url in {"/zerone.emergency.v1.MsgProposeHalt", "/zerone.emergency.v1.MsgVoteHalt",
            "/zerone.emergency.v1.MsgProposeRevert", "/zerone.emergency.v1.MsgVoteRevert",
            "/zerone.emergency.v1.MsgProposeResume", "/zerone.emergency.v1.MsgVoteResume",
            "/zerone.emergency.v1.MsgProposeRecoveryAuthorization",
            "/zerone.emergency.v1.MsgVoteRecoveryAuthorization"}
  }

  const VERBS: seq<string> := ["Propose", "Vote"]
  const SUBJECTS: seq<string> := ["Halt", "Revert", "Resume", "RecoveryAuthorization"]

  lemma {:induction false} ProposalUrls()
    ensures "/zerone.emergency.v1.Msg" + "Propose" + "Halt" == "/zerone.emergency.v1.MsgProposeHalt"
    ensures "/zerone.emergency.v1.Msg" + "Propose" + "Revert" == "/zerone.emergency.v1.MsgProposeRevert"
    ensures "/zerone.emergency.v1.Msg" + "Propose" + "Resume" == "/zerone.emergency.v1.MsgProposeResume"
    ensures "/zerone.emergency.v1.Msg" + "Propose" + "RecoveryAuthorization" == "/zerone.emergency.v1.MsgProposeRecoveryAuthorization"
  {
  }

  lemma {:induction false} VoteUrls()
    ensures "/zerone.emergency.v1.Msg" + "Vote" + "Halt" == "/zerone.emergency.v1.MsgVoteHalt"
    ensures "/zerone.emergency.v1.Msg" + "Vote" + "Revert" == "/zerone.emergency.v1.MsgVoteRevert"
    ensures "/zerone.emergency.v1.Msg" + "Vote" + "Resume" == "/zerone.emergency.v1.MsgVoteResume"
    ensures "/zerone.emergency.v1.Msg" + "Vote" + "RecoveryAuthorization" == "/zerone.emergency.v1.MsgVoteRecoveryAuthorization"
  {
  }

  /** Proposing and voting on each of the four emergency actions, and nothing
      else, is an emergency message by URL. */
  lemma {:induction false} EmergencyUrlsMean(url: string)
    ensures IsEmergencyUrl(url) <==>
            exists verb, subject :: verb in VERBS && subject in SUBJECTS && url == "/zerone.emergency.v1.Msg" + verb + subject
  {
    ProposalUrls();
    VoteUrls();
    if IsEmergencyUrl(url) {
      assert VERBS[0] in VERBS && VERBS[1] in VERBS;
      assert SUBJECTS[0] in SUBJECTS && SUBJECTS[1] in SUBJECTS && SUBJECTS[2] in SUBJECTS && SUBJECTS[3] in SUBJECTS;
    }
  }

  predicate IsGovMutation(m: Msg) {
    "/cosmos.gov.v1.Msg" <= m.url || "/cosmos.gov.v1beta1.Msg" <= m.url
  }

  predicate IsIcaReceive(m: Msg) {
    m.body.RecvPacket? && m.body.port == ICA_HOST_PORT
  }

  function Children(m: Msg): seq<Any> {
    match m.body
    case Exec(msgs) => msgs
    case SubmitProposal(msgs) => msgs
    case _ => []
  }

  // ---- the recursive specification ----

  datatype Node = Node(msg: Msg, depth: nat)

  /** Every message in the tree below `m`, in preorder, with its depth. */
  function Nodes(m: Msg, depth: nat): (r: seq<Node>)
    ensures r != []
    decreases m, 1
  {
    [Node(m, depth)] +
    match m.body
    case Exec(msgs) => NodesOf(msgs, depth + 1)
    case SubmitProposal(msgs) => NodesOf(msgs, depth + 1)
    case _ => []
  }

  function NodesOf(children: seq<Any>, depth: nat): seq<Node>
    decreases children, 0
  {
    if children == [] then [] else
    (if children[0].Any? && children[0].cached.Some? then Nodes(children[0].cached.value, depth) else [])
    + NodesOf(children[1..], depth)
  }

  function Forest(msgs: seq<Option<Msg>>): seq<Node> {
    if msgs == [] then [] else
    (if msgs[0].Some? then Nodes(msgs[0].value, 0) else []) + Forest(msgs[1..])
  }

  /** Present, unpacked, and a packet receive if its URL says so. */
  predicate Usable(a: Any) {
    && a.Any? && a.cached.Some?
    && (a.url == RECV_PACKET_URL ==> a.cached.value.body.RecvPacket?)
  }

  predicate AllUsable(children: seq<Any>) {
    forall a :: a in children ==> Usable(a)
  }

  function AnyBytes(children: seq<Any>): nat {
    if children == [] then 0 else
    (if children[0].Any? then |children[0].url| + children[0].valueBytes else 0) + AnyBytes(children[1..])
  }

  function TotalAnyBytes(nodes: seq<Node>): nat {
    if nodes == [] then 0 else AnyBytes(Children(nodes[0].msg)) + TotalAnyBytes(nodes[1..])
  }

  predicate NodeUsable(n: Node) {
    && n.depth <= MAX_DEPTH
    && AllUsable(Children(n.msg))
  }

  /** What the scan admits, as one statement about the whole forest. */
  predicate Acceptable(msgs: seq<Option<Msg>>) {
    var nodes := Forest(msgs);
    && None !in msgs
    && |nodes| <= MAX_MESSAGES
    && (forall n :: n in nodes ==> NodeUsable(n))
    && TotalAnyBytes(nodes) <= MAX_ANY_BYTES
  }

  predicate PacksEmergency(children: seq<Any>) {
    exists a :: a in children && a.Any? && IsEmergencyUrl(a.url)
  }

  predicate PacksIca(children: seq<Any>) {
    exists a :: a in children && Usable(a) && IsIcaReceive(a.cached.value)
  }

  /** A child declared as a packet receive is one for the interchain host. */
  predicate DeclaresIca(children: seq<Any>) {
    exists a :: a in children && a.Any? && a.url == RECV_PACKET_URL && a.cached.Some? && IsIcaReceive(a.cached.value)
  }

  function NodeFlags(n: Node): Flags {
    var packs := PacksEmergency(Children(n.msg));
    Flags(n.msg.body.Emergency? || packs, (n.depth > 0 && n.msg.body.Emergency?) || packs,
          IsIcaReceive(n.msg), IsGovMutation(n.msg))
  }

  function Either(f: Flags, g: Flags): Flags {
    Flags(f.emergency || g.emergency, f.wrappedEmergency || g.wrappedEmergency,
          f.icaHostReceive || g.icaHostReceive, f.govMutation || g.govMutation)
  }

  function FlagsOf(nodes: seq<Node>): Flags {
    if nodes == [] then Flags(false, false, false, false) else
    Either(FlagsOf(nodes[..|nodes| - 1]), NodeFlags(nodes[|nodes| - 1]))
  }

  /** Each flag is a disjunction over all messages of the forest. */
  lemma {:induction false} FlagsAreDisjunctions(nodes: seq<Node>)
    ensures var f := FlagsOf(nodes);
      && (f.emergency <==> exists n :: n in nodes && (n.msg.body.Emergency? || PacksEmergency(Children(n.msg))))
      && (f.wrappedEmergency <==>
            exists n :: n in nodes && ((n.depth > 0 && n.msg.body.Emergency?) || PacksEmergency(Children(n.msg))))
      && (f.icaHostReceive <==> exists n :: n in nodes && IsIcaReceive(n.msg))
      && (f.govMutation <==> exists n :: n in nodes && IsGovMutation(n.msg))
  {
    if nodes != [] {
      var init, last := nodes[..|nodes| - 1], nodes[|nodes| - 1];
      FlagsAreDisjunctions(init);
      assert nodes == init + [last];
      assert forall n :: n in nodes <==> n in init || n == last;
    }
  }

  // ---- the forest by paths ----

  /** The message a path leads to: each number is a place among the messages
      that the message before it packs. */
  function Follow(m: Msg, path: seq<nat>): Option<Msg>
    decreases |path|
  {
    if path == [] then Some(m)
    else if !m.body.Exec? && !m.body.SubmitProposal? then None
    else
      var packed := m.body.msgs;
      if path[0] >= |packed| || packed[path[0]].NilAny? || packed[path[0]].cached.None? then None
      else Follow(packed[path[0]].cached.value, path[1..])
  }

  ghost predicate LeadsTo(m: Msg, depth: nat, path: seq<nat>, n: Node) {
    Follow(m, path) == Some(n.msg) && n.depth == depth + |path|
  }

  lemma {:induction false} PathIsNode(m: Msg, depth: nat, path: seq<nat>, n: Node)
    requires LeadsTo(m, depth, path, n)
    ensures n in Nodes(m, depth)
    decreases |path|
  {
    if path == [] {
      assert Nodes(m, depth)[0] == n;
    } else {
      var packed := m.body.msgs;
      PathIsNode(packed[path[0]].cached.value, depth + 1, path[1..], n);
      NodesOfMember(packed, path[0], depth + 1, n);
    }
  }

  lemma {:induction false} NodesOfMember(children: seq<Any>, i: nat, depth: nat, n: Node)
    requires i < |children| && children[i].Any? && children[i].cached.Some? && n in Nodes(children[i].cached.value, depth)
    ensures n in NodesOf(children, depth)
  {
    if i > 0 {
      NodesOfMember(children[1..], i - 1, depth, n);
    }
  }

  lemma {:induction false} NodeHasPath(m: Msg, depth: nat, n: Node) returns (path: seq<nat>)
    requires n in Nodes(m, depth)
    ensures LeadsTo(m, depth, path, n)
    decreases m, 1
  {
    if n == Node(m, depth) {
      path := [];
    } else {
      var packed := m.body.msgs;
      var i, rest := ChildHasPath(packed, depth + 1, n);
      path := [i] + rest;
      assert path[1..] == rest;
    }
  }

  lemma {:induction false} ChildHasPath(children: seq<Any>, depth: nat, n: Node) returns (i: nat, path: seq<nat>)
    requires n in NodesOf(children, depth)
    ensures i < |children| && children[i].Any? && children[i].cached.Some? && LeadsTo(children[i].cached.value, depth, path, n)
    decreases children, 0
  {
    if children[0].Any? && children[0].cached.Some? && n in Nodes(children[0].cached.value, depth) {
      i := 0;
      path := NodeHasPath(children[0].cached.value, depth, n);
    } else {
      i, path := ChildHasPath(children[1..], depth, n);
      i := i + 1;
    }
  }

  /** A message of the transaction, or packed in one at some depth. */
  ghost predicate Reached(msgs: seq<Option<Msg>>, n: Node) {
    exists i, path :: 0 <= i < |msgs| && msgs[i].Some? && LeadsTo(msgs[i].value, 0, path, n)
  }

  /** The forest holds exactly what paths through grants and submitted proposals
      lead to, each at the depth of its path. */
  lemma {:induction false} ForestIsReached(msgs: seq<Option<Msg>>, n: Node)
    ensures n in Forest(msgs) <==> Reached(msgs, n)
  {
    if n in Forest(msgs) {
      ForestReached(msgs, n);
    } else if Reached(msgs, n) {
      var i, path :| 0 <= i < |msgs| && msgs[i].Some? && LeadsTo(msgs[i].value, 0, path, n);
      PathIsNode(msgs[i].value, 0, path, n);
      ForestMember(msgs, i, n);
      assert false;
    }
  }

  lemma {:induction false} ForestMember(msgs: seq<Option<Msg>>, i: nat, n: Node)
    requires i < |msgs| && msgs[i].Some? && n in Nodes(msgs[i].value, 0)
    ensures n in Forest(msgs)
  {
    if i > 0 {
      ForestMember(msgs[1..], i - 1, n);
    }
  }

  lemma {:induction false} ForestReached(msgs: seq<Option<Msg>>, n: Node)
    requires n in Forest(msgs)
    ensures Reached(msgs, n)
  {
    if msgs[0].Some? && n in Nodes(msgs[0].value, 0) {
      var path := NodeHasPath(msgs[0].value, 0, n);
      assert LeadsTo(msgs[0].value, 0, path, n);
    } else {
      ForestReached(msgs[1..], n);
      var i, path :| 0 <= i < |msgs[1..]| && msgs[1..][i].Some? && LeadsTo(msgs[1..][i].value, 0, path, n);
      assert msgs[i + 1] == msgs[1..][i] && LeadsTo(msgs[i + 1].value, 0, path, n);
    }
  }

  /** Not too deep, and everything it packs is present, unpacked and of the type
      its URL declares. */
  ghost predicate NodeAdmitted(n: Node) {
    && n.depth <= 16
    && (n.msg.body.Exec? || n.msg.body.SubmitProposal? ==>
          forall a :: a in n.msg.body.msgs ==>
            a.Any? && a.cached.Some? && (a.url == "/ibc.core.channel.v1.MsgRecvPacket" ==> a.cached.value.body.RecvPacket?))
  }

  /** What the scan admits, message by message: nothing nil, at most 256 messages,
      none deeper than 16, everything packed present, unpacked and of the type its
      URL declares, and at most a mebibyte packed. */
  lemma {:induction false} AcceptableMeans(msgs: seq<Option<Msg>>)
    ensures Acceptable(msgs) <==>
            && (forall i :: 0 <= i < |msgs| ==> msgs[i].Some?)
            && |Forest(msgs)| <= 256 && TotalAnyBytes(Forest(msgs)) <= 1_048_576
            && forall n :: Reached(msgs, n) ==> NodeAdmitted(n)
  {
    forall n
      ensures n in Forest(msgs) <==> Reached(msgs, n)
    {
      ForestIsReached(msgs, n);
    }
    forall n: Node
      ensures NodeUsable(n) <==> NodeAdmitted(n)
    {
    }
  }

  /** Packed bytes: URL and value of every packed message, summed over all
      messages that pack any. */
  lemma {:induction false} BytesMean(nodes: seq<Node>, n: Node, packed: seq<Any>, a: Any)
    ensures AnyBytes([]) == 0 && TotalAnyBytes([]) == 0
    ensures AnyBytes(packed + [a]) == AnyBytes(packed) + if a.Any? then |a.url| + a.valueBytes else 0
    ensures TotalAnyBytes(nodes + [n]) == TotalAnyBytes(nodes) +
            if n.msg.body.Exec? || n.msg.body.SubmitProposal? then AnyBytes(n.msg.body.msgs) else 0
  {
    AnyBytesConcat(packed, [a]);
    assert [a][1..] == [];
    TotalAnyBytesConcat(nodes, [n]);
    assert [n][1..] == [];
  }

  // ---- the explicit stack ----

  datatype Item = Item(msg: Option<Msg>, depth: nat)

  /** What remains to be visited, top of the stack first. */
  function Pending(stack: seq<Item>): seq<Node> {
    if stack == [] then [] else
    var top := stack[|stack| - 1];
    (if top.msg.Some? then Nodes(top.msg.value, top.depth) else []) + Pending(stack[..|stack| - 1])
  }

  predicate NoNil(stack: seq<Item>) {
    forall i :: 0 <= i < |stack| ==> stack[i].msg.Some?
  }

  /** Children go on the stack last to first. */
  function Reversed(children: seq<Any>, depth: nat): seq<Item> {
    if children == [] then [] else
    Reversed(children[1..], depth) + [ItemOf(children[0], depth)]
  }

  function ItemOf(a: Any, depth: nat): Item {
    Item(if a.Any? then a.cached else None, depth)
  }

  lemma {:induction false} PendingPush(below: seq<Item>, a: Any, depth: nat)
    ensures Pending(below + [ItemOf(a, depth)]) ==
            (if a.Any? && a.cached.Some? then Nodes(a.cached.value, depth) else []) + Pending(below)
  {
    assert (below + [ItemOf(a, depth)])[..|below|] == below;
  }

  lemma {:induction false} PendingReversed(stack: seq<Item>, children: seq<Any>, depth: nat)
    ensures Pending(stack + Reversed(children, depth)) == NodesOf(children, depth) + Pending(stack)
  {
    if children == [] {
      assert stack + [] == stack;
    } else {
      var below := stack + Reversed(children[1..], depth);
      Regroup(stack, Reversed(children[1..], depth), [ItemOf(children[0], depth)]);
      PendingPush(below, children[0], depth);
      PendingReversed(stack, children[1..], depth);
      Regroup(if children[0].Any? && children[0].cached.Some? then Nodes(children[0].cached.value, depth) else [],
              NodesOf(children[1..], depth), Pending(stack));
    }
  }

  lemma {:induction false} ReversedPresent(children: seq<Any>, depth: nat)
    requires AllUsable(children)
    ensures NoNil(Reversed(children, depth))
  {
    if children != [] {
      assert Usable(children[0]);
      ReversedPresent(children[1..], depth);
    }
  }

  lemma {:induction false} AnyBytesConcat(a: seq<Any>, b: seq<Any>)
    ensures AnyBytes(a + b) == AnyBytes(a) + AnyBytes(b)
  {
    if a == [] {
      assert a + b == b;
    } else {
      assert (a + b)[1..] == a[1..] + b;
      AnyBytesConcat(a[1..], b);
    }
  }

  lemma {:induction false} TotalAnyBytesConcat(a: seq<Node>, b: seq<Node>)
    ensures TotalAnyBytes(a + b) == TotalAnyBytes(a) + TotalAnyBytes(b)
  {
    if a == [] {
      assert a + b == b;
    } else {
      assert (a + b)[1..] == a[1..] + b;
      TotalAnyBytesConcat(a[1..], b);
    }
  }

  lemma {:induction false} OneMoreChild(children: seq<Any>, i: nat, depth: nat)
    requires i < |children|
    ensures children[i..] == [children[i]] + children[i + 1..]
    ensures Reversed(children[i..], depth) == Reversed(children[i + 1..], depth) + [ItemOf(children[i], depth)]
    ensures AnyBytes(children[i + 1..]) <= AnyBytes(children[i..]) <= AnyBytes(children)
    ensures children[i].Any? ==> AnyBytes(children[i..]) == |children[i].url| + children[i].valueBytes + AnyBytes(children[i + 1..])
  {
    assert children[i..][1..] == children[i + 1..];
    assert children == children[..i] + children[i..];
    AnyBytesConcat(children[..i], children[i..]);
  }

  /** One packed message of a wrapper. */
  method CheckChild(message: Any, anyBytes: nat)
    returns (r: Result<nat, ScanFault>, packsEmergency: bool, packsIca: bool)
    requires anyBytes <= MAX_ANY_BYTES
    ensures r.Ok? <==> Usable(message) && anyBytes + |message.url| + message.valueBytes <= MAX_ANY_BYTES
    ensures r.Ok? ==> r.value == anyBytes + |message.url| + message.valueBytes
    ensures r.Ok? ==> packsEmergency == IsEmergencyUrl(message.url)
    ensures r.Ok? ==> packsIca == (message.url == RECV_PACKET_URL && IsIcaReceive(message.cached.value))
  {
    packsEmergency, packsIca := false, false;
    if message.NilAny? { return Err(NilWrapped), packsEmergency, packsIca; }
    var encodedSize := |message.url| + message.valueBytes;
    if encodedSize > MAX_ANY_BYTES - anyBytes { return Err(TooManyBytes), packsEmergency, packsIca; }
    if IsEmergencyUrl(message.url) { packsEmergency := true; }
    if message.url == RECV_PACKET_URL {
      if message.cached.None? || !message.cached.value.body.RecvPacket? {
        return Err(NotUnpacked), packsEmergency, packsIca;
      }
      if message.cached.value.body.port == ICA_HOST_PORT { packsIca := true; }
    }
    if message.cached.None? { return Err(NotUnpacked), packsEmergency, packsIca; }
    return Ok(anyBytes + encodedSize), packsEmergency, packsIca;
  }

  lemma {:induction false} DeclaredIsPacked(children: seq<Any>)
    requires AllUsable(children) && DeclaresIca(children)
    ensures PacksIca(children)
  {
    var a :| a in children && a.Any? && a.url == RECV_PACKET_URL && a.cached.Some? && IsIcaReceive(a.cached.value);
    assert Usable(a);
  }

  /** The loop over one wrapper's children, last to first. */
  method PushChildren(stack0: seq<Item>, children: seq<Any>, depth: nat, anyBytes0: nat)
    returns (r: Result<(seq<Item>, nat), ScanFault>, packsEmergency: bool, packsIca: bool)
    requires anyBytes0 <= MAX_ANY_BYTES
    ensures r.Ok? <==> AllUsable(children) && anyBytes0 + AnyBytes(children) <= MAX_ANY_BYTES
    ensures r.Ok? ==> r.value == (stack0 + Reversed(children, depth), anyBytes0 + AnyBytes(children))
    ensures r.Ok? ==> packsEmergency == PacksEmergency(children)
    ensures r.Ok? ==> packsIca == DeclaresIca(children) && (packsIca ==> PacksIca(children))
  {
    var stack, anyBytes: nat := stack0, anyBytes0;
    packsEmergency, packsIca := false, false;
    var i := |children|;
    while i > 0
      invariant 0 <= i <= |children|
      invariant AllUsable(children[i..])
      invariant stack == stack0 + Reversed(children[i..], depth)
      invariant anyBytes == anyBytes0 + AnyBytes(children[i..]) <= MAX_ANY_BYTES
      invariant packsEmergency == PacksEmergency(children[i..])
      invariant packsIca == DeclaresIca(children[i..])
    {
      i := i - 1;
      OneMoreChild(children, i, depth);
      assert children[i] in children;
      var checked, emergency, ica := CheckChild(children[i], anyBytes);
      if checked.Err? { return Err(checked.error), packsEmergency, packsIca; }
      anyBytes := checked.value;
      packsEmergency, packsIca := packsEmergency || emergency, packsIca || ica;
      stack := stack + [ItemOf(children[i], depth)];
    }
    assert children[0..] == children;
    if packsIca {
      DeclaredIsPacked(children);
    }
    return Ok((stack, anyBytes)), packsEmergency, packsIca;
  }

  function TopItems(msgs: seq<Option<Msg>>): seq<Item> {
    if msgs == [] then [] else TopItems(msgs[1..]) + [Item(msgs[0], 0)]
  }

  lemma {:induction false} TopItemsPending(msgs: seq<Option<Msg>>)
    ensures Pending(TopItems(msgs)) == Forest(msgs)
  {
    if msgs != [] {
      TopItemsPending(msgs[1..]);
      var below := TopItems(msgs[1..]);
      assert (below + [Item(msgs[0], 0)])[..|below|] == below;
    }
  }

  lemma {:induction false} TopItemsPresent(msgs: seq<Option<Msg>>)
    ensures NoNil(TopItems(msgs)) <==> None !in msgs
  {
    if msgs != [] {
      TopItemsPresent(msgs[1..]);
      PushNoNil(TopItems(msgs[1..]), Item(msgs[0], 0));
      assert msgs == [msgs[0]] + msgs[1..];
    }
  }

  method StackUp(msgs: seq<Option<Msg>>) returns (stack: seq<Item>)
    ensures stack == TopItems(msgs)
  {
    stack := [];
    var i := |msgs|;
    while i > 0
      invariant 0 <= i <= |msgs|
      invariant stack == TopItems(msgs[i..])
    {
      i := i - 1;
      assert msgs[i..][1..] == msgs[i + 1..];
      stack := stack + [Item(msgs[i], 0)];
    }
    assert msgs[0..] == msgs;
  }

  lemma {:induction false} NodesSplit(m: Msg, depth: nat)
    ensures Nodes(m, depth) == [Node(m, depth)] + NodesOf(Children(m), depth + 1)
  {
  }

  lemma {:induction false} PopPending(rest: seq<Item>, m: Msg, depth: nat)
    ensures Pending(rest + [Item(Some(m), depth)]) ==
            [Node(m, depth)] + Pending(rest + Reversed(Children(m), depth + 1))
  {
    assert (rest + [Item(Some(m), depth)])[..|rest|] == rest;
    NodesSplit(m, depth);
    PendingReversed(rest, Children(m), depth + 1);
    Regroup([Node(m, depth)], NodesOf(Children(m), depth + 1), Pending(rest));
  }

  /** A usable child is itself a node one level down. */
  lemma {:induction false} ChildIsNode(children: seq<Any>, a: Any, depth: nat)
    requires a in children && Usable(a)
    ensures Node(a.cached.value, depth) in NodesOf(children, depth)
  {
    if children[0] == a {
      assert Nodes(a.cached.value, depth)[0] == Node(a.cached.value, depth);
      assert NodesOf(children, depth)[0] == Node(a.cached.value, depth);
    } else {
      ChildIsNode(children[1..], a, depth);
    }
  }

  /** Seen nodes are a prefix of the forest, so what they break stays broken. */
  lemma {:induction false} PrefixUnacceptable(msgs: seq<Option<Msg>>, visited: seq<Node>, rest: seq<Node>)
    requires Forest(msgs) == visited + rest
    requires || |visited| > MAX_MESSAGES || TotalAnyBytes(visited) > MAX_ANY_BYTES
             || exists n :: n in visited && !NodeUsable(n)
    ensures !Acceptable(msgs)
  {
    TotalAnyBytesConcat(visited, rest);
  }

  lemma {:induction false} FlagsSnoc(visited: seq<Node>, n: Node)
    ensures FlagsOf(visited + [n]) == Either(FlagsOf(visited), NodeFlags(n))
    ensures TotalAnyBytes(visited + [n]) == TotalAnyBytes(visited) + AnyBytes(Children(n.msg))
  {
    TotalAnyBytesConcat(visited, [n]);
    assert TotalAnyBytes([n]) == AnyBytes(Children(n.msg)) + TotalAnyBytes([n][1..]);
    assert (visited + [n])[..|visited|] == visited;
  }

  lemma {:induction false} PackedIcaInForest(children: seq<Any>, depth: nat, before: seq<Node>, after: seq<Node>)
    requires PacksIca(children)
    ensures FlagsOf(before + (NodesOf(children, depth) + after)).icaHostReceive
  {
    var a :| a in children && Usable(a) && IsIcaReceive(a.cached.value);
    ChildIsNode(children, a, depth);
    FlagsAreDisjunctions(before + (NodesOf(children, depth) + after));
    assert Node(a.cached.value, depth) in before + (NodesOf(children, depth) + after);
  }

  lemma {:induction false} ReversedNoNil(stack: seq<Item>, children: seq<Any>, depth: nat)
    requires AllUsable(children)
    ensures NoNil(stack + Reversed(children, depth)) <==> NoNil(stack)
  {
    ReversedPresent(children, depth);
    var all := stack + Reversed(children, depth);
    assert forall i :: 0 <= i < |stack| ==> all[i] == stack[i];
  }

  /** `visited` and what the stack still holds make up the forest, in order. */
  ghost predicate Progress(msgs: seq<Option<Msg>>, visited: seq<Node>, stack: seq<Item>) {
    && Forest(msgs) == visited + Pending(stack)
    && (NoNil(stack) <==> None !in msgs)
  }

  lemma {:induction false} Advance(msgs: seq<Option<Msg>>, visited: seq<Node>, rest: seq<Item>, m: Msg, depth: nat)
    requires Progress(msgs, visited, rest + [Item(Some(m), depth)])
    ensures var pushed := rest + Reversed(Children(m), depth + 1);
      && Forest(msgs) == (visited + [Node(m, depth)]) + Pending(pushed)
      && |Pending(pushed)| < |Pending(rest + [Item(Some(m), depth)])|
      && (AllUsable(Children(m)) ==> Progress(msgs, visited + [Node(m, depth)], pushed))
      && (PacksIca(Children(m)) ==> FlagsOf(Forest(msgs)).icaHostReceive)
  {
    var children := Children(m);
    PopPending(rest, m, depth);
    Regroup(visited, [Node(m, depth)], Pending(rest + Reversed(children, depth + 1)));
    if AllUsable(children) {
      ReversedNoNil(rest, children, depth + 1);
      PushNoNil(rest, Item(Some(m), depth));
    }
    if PacksIca(children) {
      PendingReversed(rest, children, depth + 1);
      PackedIcaInForest(children, depth + 1, visited + [Node(m, depth)], Pending(rest));
    }
  }

  lemma {:induction false} PushNoNil(rest: seq<Item>, item: Item)
    ensures NoNil(rest + [item]) <==> NoNil(rest) && item.msg.Some?
  {
    var all := rest + [item];
    assert all[|rest|] == item && forall i :: 0 <= i < |rest| ==> all[i] == rest[i];
  }

  /** Every reason for which the scan gives up on a node. */
  predicate Offends(visited: seq<Node>, n: Node) {
    || n.depth > MAX_DEPTH
    || (n.depth == MAX_DEPTH && Children(n.msg) != [])
    || !AllUsable(Children(n.msg))
    || |visited| + 1 > MAX_MESSAGES
    || TotalAnyBytes(visited) + AnyBytes(Children(n.msg)) > MAX_ANY_BYTES
  }

  lemma {:induction false} OffenceRefutes(msgs: seq<Option<Msg>>, visited: seq<Node>, rest: seq<Item>, n: Node)
    requires Progress(msgs, visited, rest + [Item(Some(n.msg), n.depth)])
    requires Offends(visited, n)
    ensures !Acceptable(msgs)
  {
    var children := Children(n.msg);
    Advance(msgs, visited, rest, n.msg, n.depth);
    FlagsSnoc(visited, n);
    assert n in visited + [n];
    if n.depth == MAX_DEPTH && children != [] {
      PendingReversed(rest, children, n.depth + 1);
      DeepChild(msgs, visited + [n], n, Pending(rest));
    } else {
      PrefixUnacceptable(msgs, visited + [n], Pending(rest + Reversed(children, n.depth + 1)));
    }
  }

  /** The source's running result. A packed receive raises its flag as soon as
      the wrapper is opened, before the packed message itself is visited. */
  ghost predicate Tracks(flags: Flags, visited: seq<Node>, packed: bool) {
    var seen := FlagsOf(visited);
    && flags.emergency == seen.emergency
    && flags.wrappedEmergency == seen.wrappedEmergency
    && flags.govMutation == seen.govMutation
    && (seen.icaHostReceive ==> flags.icaHostReceive)
    && (flags.icaHostReceive ==> seen.icaHostReceive || packed)
  }

  /** The running result after a message and what its children pack. */
  function Raise(flags: Flags, n: Node, packsEmergency: bool, packsIca: bool): Flags {
    Flags(flags.emergency || n.msg.body.Emergency? || packsEmergency,
          flags.wrappedEmergency || (n.msg.body.Emergency? && n.depth > 0) || packsEmergency,
          flags.icaHostReceive || IsIcaReceive(n.msg) || packsIca,
          flags.govMutation || IsGovMutation(n.msg))
  }

  lemma {:induction false} RaiseTracks(flags: Flags, visited: seq<Node>, packed: bool, n: Node, packsIca: bool)
    requires Tracks(flags, visited, packed)
    requires packsIca ==> PacksIca(Children(n.msg))
    ensures Tracks(Raise(flags, n, PacksEmergency(Children(n.msg)), packsIca), visited + [n], packed || PacksIca(Children(n.msg)))
  {
    FlagsSnoc(visited, n);
  }

  datatype Visit = Visit(stack: seq<Item>, anyBytes: nat, flags: Flags)

  /** One popped message: the limits, its flags, and its children pushed. */
  method VisitTop(stack: seq<Item>, nodes: nat, anyBytes: nat, flags: Flags, ghost visited: seq<Node>, ghost packed: bool)
    returns (r: Result<Visit, ScanFault>)
    requires stack != [] && stack[|stack| - 1].msg.Some?
    requires nodes == |visited| && anyBytes == TotalAnyBytes(visited) <= MAX_ANY_BYTES
    requires Tracks(flags, visited, packed)
    ensures r.Ok? <==> !Offends(visited, TopNode(stack))
    ensures r.Ok? ==>
      && r.value.stack == AfterPop(stack)
      && r.value.anyBytes == TotalAnyBytes(visited + [TopNode(stack)])
      && Tracks(r.value.flags, visited + [TopNode(stack)], packed || PacksIca(Children(TopNode(stack).msg)))
  {
    var msg, depth := stack[|stack| - 1].msg.value, stack[|stack| - 1].depth;
    FlagsSnoc(visited, Node(msg, depth));
    if depth > MAX_DEPTH { return Err(TooDeep); }
    if nodes + 1 > MAX_MESSAGES { return Err(TooMany); }
    var children := Children(msg);
    if depth == MAX_DEPTH && children != [] { return Err(TooDeep); }
    var pushed, packsEmergency, packsIca := PushChildren(stack[..|stack| - 1], children, depth + 1, anyBytes);
    if pushed.Err? { return Err(pushed.error); }
    RaiseTracks(flags, visited, packed, TopNode(stack), packsIca);
    return Ok(Visit(pushed.value.0, pushed.value.1, Raise(flags, TopNode(stack), packsEmergency, packsIca)));
  }

  ghost predicate Sound(visited: seq<Node>) {
    && (forall n :: n in visited ==> NodeUsable(n))
    && |visited| <= MAX_MESSAGES && TotalAnyBytes(visited) <= MAX_ANY_BYTES
  }

  function TopNode(stack: seq<Item>): Node
    requires stack != [] && stack[|stack| - 1].msg.Some?
  {
    Node(stack[|stack| - 1].msg.value, stack[|stack| - 1].depth)
  }

  function AfterPop(stack: seq<Item>): seq<Item>
    requires stack != [] && stack[|stack| - 1].msg.Some?
  {
    stack[..|stack| - 1] + Reversed(Children(TopNode(stack).msg), TopNode(stack).depth + 1)
  }

  /** One step of the loop, on the specification's side. */
  lemma {:induction false} StepKeeps(msgs: seq<Option<Msg>>, visited: seq<Node>, stack: seq<Item>, packed: bool)
    requires stack != [] && stack[|stack| - 1].msg.Some?
    requires Progress(msgs, visited, stack) && Sound(visited)
    requires packed ==> FlagsOf(Forest(msgs)).icaHostReceive
    ensures var n := TopNode(stack);
      && (Offends(visited, n) ==> !Acceptable(msgs))
      && (!Offends(visited, n) ==>
            && Progress(msgs, visited + [n], AfterPop(stack)) && Sound(visited + [n])
            && |Pending(AfterPop(stack))| < |Pending(stack)|
            && (packed || PacksIca(Children(n.msg)) ==> FlagsOf(Forest(msgs)).icaHostReceive))
  {
    if Offends(visited, TopNode(stack)) {
      var n, rest := TopNode(stack), stack[..|stack| - 1];
      assert stack == rest + [Item(Some(n.msg), n.depth)];
      OffenceRefutes(msgs, visited, rest, n);
    } else {
      StepAdvances(msgs, visited, stack, packed);
    }
  }

  lemma {:induction false} StepAdvances(msgs: seq<Option<Msg>>, visited: seq<Node>, stack: seq<Item>, packed: bool)
    requires stack != [] && stack[|stack| - 1].msg.Some?
    requires Progress(msgs, visited, stack) && Sound(visited) && !Offends(visited, TopNode(stack))
    requires packed ==> FlagsOf(Forest(msgs)).icaHostReceive
    ensures var n := TopNode(stack);
      && Progress(msgs, visited + [n], AfterPop(stack)) && Sound(visited + [n])
      && |Pending(AfterPop(stack))| < |Pending(stack)|
      && (packed || PacksIca(Children(n.msg)) ==> FlagsOf(Forest(msgs)).icaHostReceive)
  {
    var n, rest := TopNode(stack), stack[..|stack| - 1];
    TopIsLast(stack);
    AdvanceSound(msgs, visited, rest, n, packed);
  }

  lemma {:induction false} TopIsLast(stack: seq<Item>)
    requires stack != [] && stack[|stack| - 1].msg.Some?
    ensures stack == stack[..|stack| - 1] + [Item(Some(TopNode(stack).msg), TopNode(stack).depth)]
    ensures AfterPop(stack) == stack[..|stack| - 1] + Reversed(Children(TopNode(stack).msg), TopNode(stack).depth + 1)
  {
  }

  lemma {:induction false} AdvanceSound(msgs: seq<Option<Msg>>, visited: seq<Node>, rest: seq<Item>, n: Node, packed: bool)
    requires Progress(msgs, visited, rest + [Item(Some(n.msg), n.depth)]) && Sound(visited) && !Offends(visited, n)
    requires packed ==> FlagsOf(Forest(msgs)).icaHostReceive
    ensures var pushed := rest + Reversed(Children(n.msg), n.depth + 1);
      && Progress(msgs, visited + [n], pushed) && Sound(visited + [n])
      && |Pending(pushed)| < |Pending(rest + [Item(Some(n.msg), n.depth)])|
      && (packed || PacksIca(Children(n.msg)) ==> FlagsOf(Forest(msgs)).icaHostReceive)
  {
    Advance(msgs, visited, rest, n.msg, n.depth);
    SoundSnoc(visited, n);
    assert Node(n.msg, n.depth) == n;
  }

  lemma {:induction false} SoundSnoc(visited: seq<Node>, n: Node)
    requires Sound(visited) && !Offends(visited, n)
    ensures Sound(visited + [n])
  {
    FlagsSnoc(visited, n);
  }

  lemma {:induction false} NilTopRefutes(msgs: seq<Option<Msg>>, visited: seq<Node>, stack: seq<Item>)
    requires stack != [] && stack[|stack| - 1].msg.None?
    requires Progress(msgs, visited, stack)
    ensures !Acceptable(msgs)
  {
  }

  lemma {:induction false} EmptyStackAccepts(msgs: seq<Option<Msg>>, visited: seq<Node>)
    requires Progress(msgs, visited, []) && Sound(visited)
    ensures Forest(msgs) == visited && Acceptable(msgs)
  {
    assert visited + [] == visited;
  }

  /** The scan visits the forest in preorder with an explicit stack. It succeeds
      exactly on acceptable forests and then reports every flag exactly. */
  method ScanExecutables(msgs: seq<Option<Msg>>) returns (r: Result<Flags, ScanFault>)
    ensures r.Ok? <==> Acceptable(msgs)
    ensures r.Ok? ==> r.value == FlagsOf(Forest(msgs))
  {
    var stack := StackUp(msgs);
    TopItemsPending(msgs);
    TopItemsPresent(msgs);
    var flags := Flags(false, false, false, false);
    var nodes, anyBytes: nat := 0, 0;
    ghost var visited: seq<Node> := [];
    ghost var packed := false;
    assert [] + Pending(stack) == Pending(stack);

    while stack != []
      invariant Progress(msgs, visited, stack) && Sound(visited)
      invariant nodes == |visited| && anyBytes == TotalAnyBytes(visited)
      invariant Tracks(flags, visited, packed)
      invariant packed ==> FlagsOf(Forest(msgs)).icaHostReceive
      decreases |Pending(stack)|
    {
      var item := stack[|stack| - 1];
      if item.msg.None? {
        NilTopRefutes(msgs, visited, stack);
        return Err(NilMessage);
      }
      StepKeeps(msgs, visited, stack, packed);
      ghost var node := TopNode(stack);
      var visit := VisitTop(stack, nodes, anyBytes, flags, visited, packed);
      if visit.Err? { return Err(visit.error); }
      nodes := nodes + 1;
      stack, anyBytes, flags := visit.value.stack, visit.value.anyBytes, visit.value.flags;
      visited := visited + [node];
      packed := packed || PacksIca(Children(item.msg.value));
    }
    EmptyStackAccepts(msgs, visited);
    return Ok(flags);
  }

  lemma {:induction false} DeepChild(msgs: seq<Option<Msg>>, visited: seq<Node>, node: Node, rest: seq<Node>)
    requires node in visited && node.depth == MAX_DEPTH && Children(node.msg) != []
    requires Forest(msgs) == visited + (NodesOf(Children(node.msg), node.depth + 1) + rest)
    ensures !Acceptable(msgs)
  {
    var children := Children(node.msg);
    if AllUsable(children) {
      ChildIsNode(children, children[0], node.depth + 1);
      assert Node(children[0].cached.value, MAX_DEPTH + 1) in Forest(msgs);
    } else {
      assert node in Forest(msgs);
    }
  }
}
