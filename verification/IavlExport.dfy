/** The committed-export verifier: a stack machine over a post-order node
    stream that accepts exactly the exports of valid trees. */
module IavlExport {
  import opened Bytes
  import opened Encoding
  import opened IavlTree

  const MAX_SELECTED_RECORDS: int := 100_000
  const MAX_SELECTED_BYTES: int := 0x400_0000

  /** One exported node. Leaves carry a value; an inner node's key is the
      separator. Heights and versions outside the source's integer types are
      admitted as inputs too. */
  datatype ExportNode = ExportNode(key: bytes, value: Option<bytes>, version: int, height: int)

  /** What one call of the export reader returns before it reports the end. */
  datatype Event = Next(node: ExportNode) | NilNode | ReadError

  datatype Selection = Skip | Take | Reject

  /** The record selector supplied by the caller. */
  type Selector = Record -> Selection

  datatype Fault =
    | Read | Nil | Version | NegativeHeight | EmptyLeaf | SelectorRefused | TooManyRecords | TooManyBytes
    | InnerValue | TooFewSubtrees | HeightMismatch | Unbalanced | KeyOrder | Separator | SizeInvalid | Incomplete

  // ---- what an export is ----

  function InnerEvent(t: Tree): Event
    requires t.Inner?
  {
    Next(ExportNode(t.separator, None, t.version, Height(t)))
  }

  /** The node stream that exports `t`. */
  function Export(t: Tree): seq<Event> {
    match t
    case Leaf(n, k, v) => [Next(ExportNode(k, Some(v), n, 0))]
    case Inner(n, sep, l, r) =>
      Export(l) + Export(r) + [InnerEvent(t)]
  }

  predicate IsLeafEvent(e: Event) {
    e.Next? && e.node.height == 0 && e.node.value.Some?
  }

  function EventLeaves(events: seq<Event>): seq<Record> {
    if events == [] then [] else
    var last := events[|events| - 1];
    EventLeaves(events[..|events| - 1]) +
    if IsLeafEvent(last) then [Record(last.node.key, last.node.value.value)] else []
  }

  // ---- record selection ----

  function Selected(select: Selector, leaves: seq<Record>): seq<Record> {
    if leaves == [] then [] else
    var last := leaves[|leaves| - 1];
    Selected(select, leaves[..|leaves| - 1]) + if select(last) == Take then [last] else []
  }

  function TotalBytes(records: seq<Record>): nat {
    if records == [] then 0 else
    var last := records[|records| - 1];
    TotalBytes(records[..|records| - 1]) + |last.key| + |last.value|
  }

  /** The selector accepts every leaf and stays within both ceilings. */
  ghost predicate SelectionFits(select: Selector, leaves: seq<Record>) {
    && (forall i :: 0 <= i < |leaves| ==> select(leaves[i]) != Reject)
    && |Selected(select, leaves)| <= MAX_SELECTED_RECORDS
    && TotalBytes(Selected(select, leaves)) <= MAX_SELECTED_BYTES
  }

  lemma {:induction false} TotalBytesConcat(a: seq<Record>, b: seq<Record>)
    ensures TotalBytes(a + b) == TotalBytes(a) + TotalBytes(b)
  {
    if b == [] {
      assert a + b == a;
    } else {
      assert (a + b)[..|a + b| - 1] == a + b[..|b| - 1];
      TotalBytesConcat(a, b[..|b| - 1]);
    }
  }

  /** What is selected, and what it weighs: a record more is kept exactly if the
      selector takes it, and weighs its key and its value. */
  lemma {:induction false} SelectionMeans(select: Selector, leaves: seq<Record>, r: Record)
    ensures Selected(select, []) == [] && TotalBytes([]) == 0
    ensures Selected(select, leaves + [r]) == (if select(r) == Take then Selected(select, leaves) + [r] else Selected(select, leaves))
    ensures TotalBytes(leaves + [r]) == TotalBytes(leaves) + |r.key| + |r.value|
    ensures SelectionFits(select, leaves) <==>
            && (forall l :: l in leaves ==> select(l) != Reject)
            && |Selected(select, leaves)| <= 100_000 && TotalBytes(Selected(select, leaves)) <= 67_108_864
  {
    assert (leaves + [r])[..|leaves|] == leaves;
    assert Selected(select, leaves) + [] == Selected(select, leaves);
  }

  lemma {:induction false} SelectedConcat(select: Selector, a: seq<Record>, b: seq<Record>)
    ensures Selected(select, a + b) == Selected(select, a) + Selected(select, b)
  {
    if b == [] {
      assert a + b == a;
    } else {
      assert (a + b)[..|a + b| - 1] == a + b[..|b| - 1];
      SelectedConcat(select, a, b[..|b| - 1]);
    }
  }

  /** A selection that fits fits on every prefix of the leaves. */
  lemma {:induction false} SelectionFitsPrefix(select: Selector, a: seq<Record>, b: seq<Record>)
    requires SelectionFits(select, a + b)
    ensures SelectionFits(select, a)
  {
    SelectedConcat(select, a, b);
    TotalBytesConcat(Selected(select, a), Selected(select, b));
    assert forall i :: 0 <= i < |a| ==> (a + b)[i] == a[i];
  }

  lemma {:induction false} SelectedMembers(select: Selector, leaves: seq<Record>, r: Record)
    ensures r in Selected(select, leaves) <==> r in leaves && select(r) == Take
  {
    if leaves != [] {
      assert leaves == leaves[..|leaves| - 1] + [leaves[|leaves| - 1]];
      SelectedMembers(select, leaves[..|leaves| - 1], r);
    }
  }

  /** Selecting from sorted leaves keeps them sorted. */
  lemma {:induction false} SelectedSorted(select: Selector, leaves: seq<Record>)
    requires StrictlyIncreasing(Keys(leaves))
    ensures StrictlyIncreasing(Keys(Selected(select, leaves)))
  {
    if leaves != [] {
      var init, last := leaves[..|leaves| - 1], leaves[|leaves| - 1];
      assert leaves == init + [last];
      assert forall i :: 0 <= i < |init| ==> Keys(init)[i] == Keys(leaves)[i];
      SelectedSorted(select, init);
      var chosen := Selected(select, init);
      forall i | 0 <= i < |chosen|
        ensures Less(chosen[i].key, last.key)
      {
        SelectedMembers(select, init, chosen[i]);
        var j :| 0 <= j < |init| && init[j] == chosen[i];
        assert Less(Keys(leaves)[j], Keys(leaves)[|leaves| - 1]);
      }
    }
  }

  // ---- the machine on trees ----

  /** One node applied to the stack of completed subtrees. */
  ghost function Push(forest: seq<Tree>, e: Event): Option<seq<Tree>> {
    if !e.Next? || e.node.version <= 0 || e.node.height < 0 then None
    else if e.node.height == 0 then
      if e.node.key == [] || e.node.value.None? then None
      else Some(forest + [Leaf(e.node.version, e.node.key, e.node.value.value)])
    else if e.node.value.Some? || |forest| < 2 then None
    else
      var l, r := forest[|forest| - 2], forest[|forest| - 1];
      if && e.node.height == 1 + Max(Height(l), Height(r))
         && -1 <= Height(l) - Height(r) <= 1
         && Less(MaxKey(l), MinKey(r))
         && e.node.key == MinKey(r)
         && Size(l) + Size(r) < TWO_63
      then Some(forest[..|forest| - 2] + [Inner(e.node.version, e.node.key, l, r)])
      else None
  }

  ghost function Build(events: seq<Event>): Option<seq<Tree>> {
    if events == [] then Some([]) else
    var n := |events| - 1;
    match Build(events[..n])
    case None => None
    case Some(forest) => Push(forest, events[n])
  }

  lemma {:induction false} BuildSnoc(events: seq<Event>, e: Event)
    ensures Build(events + [e]) == match Build(events) case None => None case Some(f) => Push(f, e)
    ensures EventLeaves(events + [e]) == EventLeaves(events) + EventLeaves([e])
  {
    assert (events + [e])[..|events|] == events;
    assert EventLeaves([e][..0]) == [];
  }

  lemma {:induction false} BuildStuck(events: seq<Event>, more: seq<Event>)
    requires Build(events).None?
    ensures Build(events + more).None?
  {
    if more == [] {
      assert events + more == events;
    } else {
      var init := more[..|more| - 1];
      assert events + more == (events + init) + [more[|more| - 1]];
      BuildStuck(events, init);
      BuildSnoc(events + init, more[|more| - 1]);
    }
  }

  lemma {:induction false} EventLeavesConcat(a: seq<Event>, b: seq<Event>)
    ensures EventLeaves(a + b) == EventLeaves(a) + EventLeaves(b)
  {
    if b == [] {
      assert a + b == a;
    } else {
      assert (a + b)[..|a + b| - 1] == a + b[..|b| - 1];
      EventLeavesConcat(a, b[..|b| - 1]);
    }
  }

  function ForestExport(forest: seq<Tree>): seq<Event> {
    if forest == [] then [] else ForestExport(forest[..|forest| - 1]) + Export(forest[|forest| - 1])
  }

  function ForestLeaves(forest: seq<Tree>): seq<Record> {
    if forest == [] then [] else ForestLeaves(forest[..|forest| - 1]) + Leaves(forest[|forest| - 1])
  }

  ghost predicate GoodTree(t: Tree) {
    Valid(t) && Size(t) < TWO_63
  }

  ghost predicate GoodForest(forest: seq<Tree>) {
    forall i :: 0 <= i < |forest| ==> GoodTree(forest[i])
  }

  lemma {:induction false} ForestSnoc(forest: seq<Tree>, t: Tree)
    ensures ForestExport(forest + [t]) == ForestExport(forest) + Export(t)
    ensures ForestLeaves(forest + [t]) == ForestLeaves(forest) + Leaves(t)
  {
    assert (forest + [t])[..|forest|] == forest;
  }

  /** What holds of the empty stack and is kept by every push holds of every
      stack the machine builds, with the stream it was built from. */
  lemma {:induction false} BuildInvariant(inv: (seq<Tree>, seq<Event>) -> bool, events: seq<Event>)
    requires inv([], []) && Build(events).Some?
    requires forall forest, before, e :: inv(forest, before) && Push(forest, e).Some? ==> inv(Push(forest, e).value, before + [e])
    ensures inv(Build(events).value, events)
  {
    if events != [] {
      var n := |events| - 1;
      BuildInvariant(inv, events[..n]);
      assert events[..n] + [events[n]] == events;
    }
  }

  /** Whatever the machine has on its stack is a run of good trees whose
      exports, left to right, are the stream consumed so far. */
  lemma {:induction false} BuildSound(events: seq<Event>)
    requires Build(events).Some?
    ensures GoodForest(Build(events).value)
    ensures ForestExport(Build(events).value) == events
    ensures ForestLeaves(Build(events).value) == EventLeaves(events)
  {
    ghost var inv := (forest: seq<Tree>, read: seq<Event>) =>
      GoodForest(forest) && ForestExport(forest) == read && ForestLeaves(forest) == EventLeaves(read);
    forall forest, before, e | inv(forest, before) && Push(forest, e).Some?
      ensures inv(Push(forest, e).value, before + [e])
    {
      OneMorePushed(forest, before, e);
    }
    var noTrees: seq<Tree>, noEvents: seq<Event> := [], [];
    assert GoodForest(noTrees) && ForestExport(noTrees) == noEvents && ForestLeaves(noTrees) == EventLeaves(noEvents);
    BuildInvariant(inv, events);
  }

  lemma {:induction false} OneMorePushed(forest: seq<Tree>, events: seq<Event>, e: Event)
    requires GoodForest(forest) && Push(forest, e).Some?
    requires ForestExport(forest) == events && ForestLeaves(forest) == EventLeaves(events)
    ensures var next := Push(forest, e).value;
      GoodForest(next) && ForestExport(next) == events + [e] && ForestLeaves(next) == EventLeaves(events + [e])
  {
    PushSound(forest, e);
    BuildSnoc(events, e);
  }

  lemma {:induction false} PushSound(forest: seq<Tree>, e: Event)
    requires GoodForest(forest)
    requires Push(forest, e).Some?
    ensures GoodForest(Push(forest, e).value)
    ensures ForestExport(Push(forest, e).value) == ForestExport(forest) + [e]
    ensures ForestLeaves(Push(forest, e).value) == ForestLeaves(forest) + EventLeaves([e])
  {
    EventLeavesOne(e);
    if e.node.height == 0 {
      PushLeafSound(forest, Leaf(e.node.version, e.node.key, e.node.value.value), e);
    } else {
      var n := |forest| - 2;
      LastTwo(forest);
      PushInnerSound(forest[..n], Inner(e.node.version, e.node.key, forest[n], forest[n + 1]));
      assert EventLeaves([e]) == [];
    }
  }

  lemma {:induction false} LastTwo<T>(s: seq<T>)
    requires |s| >= 2
    ensures s == s[..|s| - 2] + [s[|s| - 2]] + [s[|s| - 1]]
  {
  }

  lemma {:induction false} PushLeafSound(forest: seq<Tree>, t: Tree, e: Event)
    requires GoodForest(forest) && t.Leaf? && t.version > 0 && t.key != []
    requires e == Next(ExportNode(t.key, Some(t.value), t.version, 0))
    ensures GoodForest(forest + [t])
    ensures ForestExport(forest + [t]) == ForestExport(forest) + [e]
    ensures ForestLeaves(forest + [t]) == ForestLeaves(forest) + [Record(t.key, t.value)]
  {
    LeafGood(t.version, t.key, t.value);
    ForestSnoc(forest, t);
  }

  lemma {:induction false} PushInnerSound(rest: seq<Tree>, t: Tree)
    requires t.Inner? && GoodForest(rest + [t.left] + [t.right])
    requires t.version > 0 && -1 <= Height(t.left) - Height(t.right) <= 1
    requires Less(MaxKey(t.left), MinKey(t.right)) && t.separator == MinKey(t.right)
    requires Size(t.left) + Size(t.right) < TWO_63
    ensures GoodForest(rest + [t])
    ensures ForestExport(rest + [t]) == ForestExport(rest + [t.left] + [t.right]) + [InnerEvent(t)]
    ensures ForestLeaves(rest + [t]) == ForestLeaves(rest + [t.left] + [t.right])
  {
    var forest := rest + [t.left] + [t.right];
    assert forest[|rest|] == t.left && forest[|rest| + 1] == t.right;
    assert forall i :: 0 <= i < |rest| ==> rest[i] == forest[i];
    InnerGood(t);
    ForestJoin(rest, t);
  }

  lemma {:induction false} EventLeavesOne(e: Event)
    ensures EventLeaves([e]) == if IsLeafEvent(e) then [Record(e.node.key, e.node.value.value)] else []
  {
    assert EventLeaves([e][..0]) == [];
  }

  lemma {:induction false} LeafGood(version: int, key: bytes, value: bytes)
    ensures GoodTree(Leaf(version, key, value)) <==> version > 0 && key != []
  {
    assert TreeKeys(Leaf(version, key, value)) == [key];
  }

  lemma {:induction false} ForestJoin(rest: seq<Tree>, t: Tree)
    requires t.Inner?
    ensures ForestExport(rest + [t]) == ForestExport(rest + [t.left] + [t.right]) + [InnerEvent(t)]
    ensures ForestLeaves(rest + [t]) == ForestLeaves(rest + [t.left] + [t.right])
  {
    ForestSnoc(rest, t.left);
    ForestSnoc(rest + [t.left], t.right);
    ForestSnoc(rest, t);
    ConcatAssociative(ForestExport(rest), Export(t.left), Export(t.right), [InnerEvent(t)]);
    ConcatAssociative(ForestLeaves(rest), Leaves(t.left), Leaves(t.right), []);
  }

  lemma {:induction false} InnerGood(t: Tree)
    requires t.Inner? && GoodTree(t.left) && GoodTree(t.right)
    requires t.version > 0 && -1 <= Height(t.left) - Height(t.right) <= 1
    requires Less(MaxKey(t.left), MinKey(t.right)) && t.separator == MinKey(t.right)
    requires Size(t.left) + Size(t.right) < TWO_63
    ensures GoodTree(t)
  {
    ValidInner(t.version, t.separator, t.left, t.right);
  }

  /** Reading the export of a good tree leaves exactly that tree on the stack,
      whatever was there before. */
  lemma {:induction false} BuildComplete(before: seq<Event>, t: Tree)
    requires GoodTree(t) && Build(before).Some?
    ensures Build(before + Export(t)) == Some(Build(before).value + [t])
    decreases t
  {
    match t
    case Leaf(n, k, v) =>
      LeafGood(n, k, v);
      BuildSnoc(before, Export(t)[0]);
    case Inner(n, sep, l, r) =>
      ChildrenGood(t);
      BuildComplete(before, l);
      BuildComplete(before + Export(l), r);
      BuildSnoc(before + Export(l) + Export(r), InnerEvent(t));
      ConcatAssociative(before, Export(l), Export(r), [InnerEvent(t)]);
      PushInner(Build(before).value, t);
  }

  lemma {:induction false} ChildrenGood(t: Tree)
    requires GoodTree(t) && t.Inner?
    ensures GoodTree(t.left) && GoodTree(t.right)
  {
    ValidInner(t.version, t.separator, t.left, t.right);
  }

  lemma {:induction false} PushInner(forest: seq<Tree>, t: Tree)
    requires GoodTree(t) && t.Inner?
    ensures Push(forest + [t.left] + [t.right], InnerEvent(t)) == Some(forest + [t])
  {
    ValidInner(t.version, t.separator, t.left, t.right);
    var stack := forest + [t.left] + [t.right];
    assert stack[|stack| - 2] == t.left && stack[|stack| - 1] == t.right && stack[..|stack| - 2] == forest;
  }

  // ---- acceptance ----

  /** `events` is the export of the good tree `t`, and the selection fits. */
  ghost predicate Accepts(select: Selector, events: seq<Event>, t: Tree) {
    GoodTree(t) && events == Export(t) && SelectionFits(select, Leaves(t))
  }

  lemma {:induction false} ExportBuildsTree(events: seq<Event>, t: Tree)
    requires GoodTree(t) && events == Export(t)
    ensures Build(events) == Some([t])
    ensures EventLeaves(events) == Leaves(t)
  {
    BuildComplete([], t);
    assert [] + Export(t) == events;
    BuildSound(events);
    assert [t][..0] == [];
    assert ForestLeaves([]) + Leaves(t) == Leaves(t);
  }

  /** A good tree is determined by its export. */
  lemma {:induction false} ExportInjective(t: Tree, u: Tree)
    requires GoodTree(t) && GoodTree(u) && Export(t) == Export(u)
    ensures t == u
  {
    ExportBuildsTree(Export(t), t);
    ExportBuildsTree(Export(u), u);
  }

  /** Once a prefix is stuck or its selection overruns, no tree accepts. */
  lemma {:induction false} PrefixRefused(select: Selector, events: seq<Event>, n: nat)
    requires n <= |events|
    requires Build(events[..n]).None? || !SelectionFits(select, EventLeaves(events[..n]))
    ensures !exists t :: Accepts(select, events, t)
  {
    assert events == events[..n] + events[n..];
    forall t | Accepts(select, events, t)
      ensures false
    {
      ExportBuildsTree(events, t);
      if Build(events[..n]).None? {
        BuildStuck(events[..n], events[n..]);
      } else {
        EventLeavesConcat(events[..n], events[n..]);
        SelectionFitsPrefix(select, EventLeaves(events[..n]), EventLeaves(events[n..]));
      }
    }
  }

  // ---- the machine on summaries ----

  datatype Summary = Summary(hash: Digest, height: int, size: int, minKey: bytes, maxKey: bytes)

  function Summarize(h: Hasher, t: Tree): Summary {
    Summary(MerkleRoot(h, t), Height(t), Size(t), MinKey(t), MaxKey(t))
  }

  function Summaries(h: Hasher, forest: seq<Tree>): (r: seq<Summary>)
    ensures |r| == |forest|
    ensures forall i :: 0 <= i < |r| ==> r[i] == Summarize(h, forest[i])
  {
    seq(|forest|, i requires 0 <= i < |forest| => Summarize(h, forest[i]))
  }

  /** The source keeps heights in eight bits and sizes in sixty-four. */
  function Wrap8(n: int): int {
    (n + 128) % 256 - 128
  }

  function Wrap64(n: int): int {
    (n + TWO_63) % TWO_64 - TWO_63
  }

  /** At least Fibonacci many leaves, and a height whose increment stays in
      eight bits. */
  predicate Narrow(t: Tree) {
    Size(t) >= Fib(Height(t) + 2) && Height(t) <= 90 && Wrap8(Height(t) + 1) == Height(t) + 1
  }

  /** No subtree on a reachable stack can make the next height increment
      leave eight bits, and it has at least Fibonacci many leaves. */
  lemma {:induction false} ReachableSubtreesBounded(events: seq<Event>)
    requires Build(events).Some?
    ensures forall t :: t in Build(events).value ==> Narrow(t)
  {
    BuildSound(events);
    GoodForestNarrow(Build(events).value);
  }

  lemma {:induction false} GoodForestNarrow(forest: seq<Tree>)
    requires GoodForest(forest)
    ensures forall t :: t in forest ==> Narrow(t)
  {
    forall t | t in forest
      ensures Narrow(t)
    {
      GoodTreeBounded(t);
      HeightFits(Height(t));
    }
  }

  lemma {:induction false} HeightFits(height: nat)
    requires height <= 90
    ensures Wrap8(height + 1) == height + 1
  {
  }

  lemma {:induction false} GoodTreeBounded(t: Tree)
    requires GoodTree(t)
    ensures Size(t) >= Fib(Height(t) + 2) && Height(t) <= 90
  {
    SizeAtLeastFib(t);
    HeightAtMost90(t);
  }

  lemma {:induction false} ForestLeafCount(forest: seq<Tree>, i: nat, j: nat)
    requires i < j < |forest|
    ensures Size(forest[i]) + Size(forest[j]) <= |ForestLeaves(forest)|
    decreases |forest|
  {
    var n := |forest| - 1;
    if j < n {
      ForestLeafCount(forest[..n], i, j);
    } else {
      OneTreeLeafCount(forest[..n], i);
    }
  }

  lemma {:induction false} OneTreeLeafCount(forest: seq<Tree>, i: nat)
    requires i < |forest|
    ensures Size(forest[i]) <= |ForestLeaves(forest)|
    decreases |forest|
  {
    if i < |forest| - 1 {
      OneTreeLeafCount(forest[..|forest| - 1], i);
    }
  }

  /** With fewer than 2^63 leaves in the stream no size addition wraps. */
  lemma {:induction false} SizeSumDoesNotWrap(events: seq<Event>, i: nat, j: nat)
    requires Build(events).Some? && i < j < |Build(events).value|
    requires |EventLeaves(events)| < TWO_63
    ensures var f := Build(events).value;
      Wrap64(Size(f[i]) + Size(f[j])) == Size(f[i]) + Size(f[j])
  {
    BuildSound(events);
    var forest := Build(events).value;
    ForestLeafCount(forest, i, j);
    assert Size(forest[i]) + Size(forest[j]) < TWO_63;
  }

  /** Hash of one exported node, field by field into a running hasher. */
  method HashExportedNode(h: Hasher, height: int, size: int, version: int,
                          key: bytes, value: Option<bytes>, left: bytes, right: bytes)
    returns (r: Option<Digest>)
    ensures height == 0 ==> r == if key != [] && value.Some?
                                 then Some(h(LeafPreimage(h, size, version, key, value.value))) else None
    ensures height != 0 ==> r == if |left| == 32 && |right| == 32
                                 then Some(h(InnerPreimage(height, size, version, left, right))) else None
  {
    var written := Varint(height);
    written := written + Varint(size);
    written := written + Varint(version);
    if height == 0 {
      if key == [] || value.None? {
        return None;
      }
      written := written + VarFrame(key);
      written := written + VarFrame(h(value.value));
      assert written == LeafPreimage(h, size, version, key, value.value);
    } else {
      if |left| != 32 || |right| != 32 {
        return None;
      }
      written := written + VarFrame(left);
      written := written + VarFrame(right);
      assert written == InnerPreimage(height, size, version, left, right);
    }
    return Some(h(written));
  }

  /** What an inner node must satisfy against its two children's summaries,
      in unbounded arithmetic. */
  predicate Joins(node: ExportNode, left: Summary, right: Summary) {
    && node.value.None?
    && node.height == 1 + Max(left.height, right.height)
    && -1 <= left.height - right.height <= 1
    && Less(left.maxKey, right.minKey)
    && node.key == right.minKey
    && left.size + right.size < TWO_63
  }

  /** The summary of a join, from its children's. */
  function Joined(h: Hasher, node: ExportNode, left: Summary, right: Summary): Summary {
    var size := left.size + right.size;
    Summary(h(InnerPreimage(node.height, size, node.version, left.hash, right.hash)),
            node.height, size, left.minKey, right.maxKey)
  }

  predicate Bounded(stack: seq<Summary>) {
    forall i :: 0 <= i < |stack| ==> 0 <= stack[i].height <= 90 && 0 < stack[i].size < TWO_63
  }

  lemma {:induction false} GoodForestBounded(h: Hasher, forest: seq<Tree>)
    requires GoodForest(forest)
    ensures Bounded(Summaries(h, forest))
  {
    forall i | 0 <= i < |forest|
      ensures Height(forest[i]) <= 90 && Size(forest[i]) < TWO_63
    {
      assert GoodTree(forest[i]);
      GoodTreeBounded(forest[i]);
    }
  }

  /** The same checks as the source makes them, in its integer widths. */
  method JoinSummaries(h: Hasher, node: ExportNode, left: Summary, right: Summary)
    returns (r: Result<Summary, Fault>)
    requires node.height > 0
    requires 0 <= left.height <= 90 && 0 <= right.height <= 90
    requires 0 < left.size < TWO_63 && 0 < right.size < TWO_63
    ensures r.Ok? <==> Joins(node, left, right)
    ensures r.Ok? ==> r.value == Joined(h, node, left, right)
  {
    if node.value.Some? { return Err(InnerValue); }
    var expectedHeight := left.height;
    if right.height > expectedHeight { expectedHeight := right.height; }
    expectedHeight := Wrap8(expectedHeight + 1);
    if node.height != expectedHeight { return Err(HeightMismatch); }
    var delta := left.height - right.height;
    if delta < -1 || delta > 1 { return Err(Unbalanced); }
    if !Less(left.maxKey, right.minKey) { return Err(KeyOrder); }
    if node.key != right.minKey { return Err(Separator); }
    var size := Wrap64(left.size + right.size);
    if size <= 1 { return Err(SizeInvalid); }
    var hash := HashExportedNode(h, node.height, size, node.version, [], None, left.hash, right.hash);
    return Ok(Summary(hash.value, node.height, size, left.minKey, right.maxKey));
  }

  lemma {:induction false} SummariesReplace(h: Hasher, forest: seq<Tree>, n: nat, t: Tree)
    requires n <= |forest|
    ensures Summaries(h, forest[..n] + [t]) == Summaries(h, forest)[..n] + [Summarize(h, t)]
  {
  }

  lemma {:induction false} PushLeaf(h: Hasher, forest: seq<Tree>, node: ExportNode)
    requires node.version > 0 && node.height == 0 && node.key != [] && node.value.Some?
    ensures Push(forest, Next(node)).Some?
    ensures Summaries(h, Push(forest, Next(node)).value) == Summaries(h, forest) +
            [Summary(h(LeafPreimage(h, 1, node.version, node.key, node.value.value)), 0, 1, node.key, node.key)]
  {
    var t := Leaf(node.version, node.key, node.value.value);
    SummarizeLeaf(h, t);
    SummariesReplace(h, forest, |forest|, t);
    assert forest[..|forest|] == forest && Summaries(h, forest)[..|forest|] == Summaries(h, forest);
  }

  lemma {:induction false} PushInnerShape(h: Hasher, forest: seq<Tree>, node: ExportNode)
    requires |forest| >= 2 && node.version > 0 && node.height > 0
    ensures var n := |forest| - 2;
      && (Push(forest, Next(node)).Some? <==> Joins(node, Summarize(h, forest[n]), Summarize(h, forest[n + 1])))
      && (Push(forest, Next(node)).Some? ==>
            Push(forest, Next(node)).value == forest[..n] + [Inner(node.version, node.key, forest[n], forest[n + 1])])
  {
  }

  lemma {:induction false} PushJoined(h: Hasher, forest: seq<Tree>, node: ExportNode)
    requires |forest| >= 2 && node.version > 0 && node.height > 0
    ensures var n := |forest| - 2;
      var stack := Summaries(h, forest);
      && (Push(forest, Next(node)).Some? <==> Joins(node, stack[n], stack[n + 1]))
      && (Push(forest, Next(node)).Some? ==>
            Summaries(h, Push(forest, Next(node)).value) == stack[..n] + [Joined(h, node, stack[n], stack[n + 1])])
  {
    var n := |forest| - 2;
    var t := Inner(node.version, node.key, forest[n], forest[n + 1]);
    PushInnerShape(h, forest, node);
    SummariesReplace(h, forest, n, t);
    if Joins(node, Summarize(h, forest[n]), Summarize(h, forest[n + 1])) {
      SummarizeInner(h, t, node);
    }
  }

  /** Pops, checks and pushes for one node. */
  method PushNode(h: Hasher, node: ExportNode, stack: seq<Summary>, ghost forest: seq<Tree>)
    returns (r: Result<seq<Summary>, Fault>)
    requires Bounded(stack) && stack == Summaries(h, forest)
    ensures r.Ok? <==> Push(forest, Next(node)).Some?
    ensures r.Ok? ==> r.value == Summaries(h, Push(forest, Next(node)).value)
  {
    if node.version <= 0 { return Err(Version); }
    if node.height < 0 { return Err(NegativeHeight); }
    if node.height == 0 {
      if node.key == [] || node.value.None? { return Err(EmptyLeaf); }
      var hash := HashExportedNode(h, node.height, 1, node.version, node.key, node.value, [], []);
      PushLeaf(h, forest, node);
      return Ok(stack + [Summary(hash.value, 0, 1, node.key, node.key)]);
    }
    if |forest| >= 2 {
      PushJoined(h, forest, node);
    }
    r := PushInnerNode(h, node, stack);
  }

  method PushInnerNode(h: Hasher, node: ExportNode, stack: seq<Summary>) returns (r: Result<seq<Summary>, Fault>)
    requires Bounded(stack) && node.height > 0
    ensures var n := |stack| - 2;
      && (r.Ok? <==> n >= 0 && Joins(node, stack[n], stack[n + 1]))
      && (r.Ok? ==> r.value == stack[..n] + [Joined(h, node, stack[n], stack[n + 1])])
  {
    if node.value.Some? { return Err(InnerValue); }
    if |stack| < 2 { return Err(TooFewSubtrees); }
    var n := |stack| - 2;
    var joined := JoinSummaries(h, node, stack[n], stack[n + 1]);
    if joined.Err? { return Err(joined.error); }
    return Ok(stack[..n] + [joined.value]);
  }

  lemma {:induction false} SummarizeLeaf(h: Hasher, t: Tree)
    requires t.Leaf?
    ensures Summarize(h, t) == Summary(h(LeafPreimage(h, 1, t.version, t.key, t.value)), 0, 1, t.key, t.key)
  {
    assert Leaves(t) == [Record(t.key, t.value)];
    assert Preimage(h, t) == LeafPreimage(h, 1, t.version, t.key, t.value);
  }

  lemma {:induction false} SummarizeInner(h: Hasher, t: Tree, node: ExportNode)
    requires t.Inner? && node.version == t.version && node.height == 1 + Max(Height(t.left), Height(t.right))
    ensures Summarize(h, t) == Joined(h, node, Summarize(h, t.left), Summarize(h, t.right))
  {
    assert Leaves(t) == Leaves(t.left) + Leaves(t.right);
    assert Preimage(h, t) == InnerPreimage(Height(t), Size(t), t.version, MerkleRoot(h, t.left), MerkleRoot(h, t.right));
  }

  lemma {:induction false} FitsOneMore(select: Selector, seen: seq<Record>, record: Record)
    requires SelectionFits(select, seen)
    ensures var records := Selected(select, seen);
      && (select(record) != Take ==> Selected(select, seen + [record]) == records)
      && (select(record) == Take ==>
            && Selected(select, seen + [record]) == records + [record]
            && TotalBytes(records + [record]) == TotalBytes(records) + |record.key| + |record.value|)
      && (SelectionFits(select, seen + [record]) <==>
            && select(record) != Reject
            && |Selected(select, seen + [record])| <= MAX_SELECTED_RECORDS
            && TotalBytes(Selected(select, seen + [record])) <= MAX_SELECTED_BYTES)
  {
    var all, records := seen + [record], Selected(select, seen);
    assert all[..|seen|] == seen && all[|seen|] == record;
    assert (records + [record])[..|records|] == records;
    assert forall i :: 0 <= i < |all| ==> all[i] == if i < |seen| then seen[i] else record;
    assert select(record) != Take ==> Selected(select, all) == records + [] == records;
  }

  /** Asks the selector about one leaf and keeps the ceilings. */
  method SelectLeaf(select: Selector, record: Record, records: seq<Record>, selectedBytes: int, ghost seen: seq<Record>)
    returns (r: Result<(seq<Record>, int), Fault>)
    requires SelectionFits(select, seen)
    requires records == Selected(select, seen) && selectedBytes == TotalBytes(records)
    ensures r.Ok? <==> SelectionFits(select, seen + [record])
    ensures r.Ok? ==> r.value.0 == Selected(select, seen + [record]) && r.value.1 == TotalBytes(r.value.0)
  {
    FitsOneMore(select, seen, record);
    var selection := select(record);
    if selection == Reject { return Err(SelectorRefused); }
    if selection != Take { return Ok((records, selectedBytes)); }
    if |records| >= MAX_SELECTED_RECORDS { return Err(TooManyRecords); }
    if |record.key| > MAX_SELECTED_BYTES - selectedBytes { return Err(TooManyBytes); }
    var withKey := selectedBytes + |record.key|;
    if |record.value| > MAX_SELECTED_BYTES - withKey { return Err(TooManyBytes); }
    return Ok((records + [record], withKey + |record.value|));
  }

  /** The verifier between two reads. */
  datatype Reading = Reading(stack: seq<Summary>, records: seq<Record>, leafCount: uint64, selectedBytes: int)

  /** What it holds after the stream `read`. */
  ghost predicate Reads(h: Hasher, select: Selector, m: Reading, read: seq<Event>) {
    && Build(read).Some? && GoodForest(Build(read).value) && m.stack == Summaries(h, Build(read).value)
    && SelectionFits(select, EventLeaves(read))
    && m.records == Selected(select, EventLeaves(read)) && m.selectedBytes == TotalBytes(m.records)
    && m.leafCount == |EventLeaves(read)| % TWO_64
  }

  /** One read of the export. */
  method ReadEvent(h: Hasher, select: Selector, m: Reading, e: Event, ghost read: seq<Event>) returns (r: Result<Reading, Fault>)
    requires Reads(h, select, m, read)
    ensures r.Ok? <==> Build(read + [e]).Some? && SelectionFits(select, EventLeaves(read + [e]))
    ensures r.Ok? ==> Reads(h, select, r.value, read + [e])
  {
    ghost var forest, seen := Build(read).value, EventLeaves(read);
    BuildSnoc(read, e);
    EventLeavesOne(e);
    if e.ReadError? { return Err(Read); }
    if e.NilNode? { return Err(Nil); }
    GoodForestBounded(h, forest);
    var pushed := PushNode(h, e.node, m.stack, forest);
    if pushed.Err? { return Err(pushed.error); }
    PushSound(forest, e);
    if e.node.height != 0 {
      assert seen + [] == seen;
      return Ok(m.(stack := pushed.value));
    }
    var leafCount := Count(m.leafCount, |seen|);
    var selected := SelectLeaf(select, Record(e.node.key, e.node.value.value), m.records, m.selectedBytes, seen);
    if selected.Err? { return Err(selected.error); }
    return Ok(Reading(pushed.value, selected.value.0, leafCount, selected.value.1));
  }

  /** Reads the whole stream, keeping one summary per completed subtree. */
  method VerifyExportStream(h: Hasher, events: seq<Event>, select: Selector)
    returns (r: Result<(seq<Record>, Digest), Fault>)
    ensures r.Ok? <==> exists t :: Accepts(select, events, t)
    ensures forall t :: Accepts(select, events, t) ==>
                          r == Ok((Selected(select, Leaves(t)), MerkleRoot(h, t)))
  {
    var m := Reading([], [], 0, 0);
    for index := 0 to |events|
      invariant Reads(h, select, m, events[..index])
    {
      var next := ReadEvent(h, select, m, events[index], events[..index]);
      assert events[..index + 1] == events[..index] + [events[index]];
      if next.Err? {
        PrefixRefused(select, events, index + 1);
        return Err(next.error);
      }
      m := next.value;
    }
    assert events[..|events|] == events;
    ghost var forest := Build(events).value;
    if m.leafCount == 0 || |m.stack| != 1 {
      NothingAccepted(select, events, forest, m.leafCount);
      return Err(Incomplete);
    }
    assert forest == [forest[0]];
    OneAccepted(select, events, forest[0]);
    return Ok((m.records, m.stack[0].hash));
  }

  /** The source's `uint64` leaf counter. */
  method Count(counter: uint64, ghost leaves: nat) returns (r: uint64)
    requires counter == leaves % TWO_64
    ensures r == (leaves + 1) % TWO_64
  {
    r := (counter + 1) % TWO_64;
  }

  lemma {:induction false} NothingAccepted(select: Selector, events: seq<Event>, forest: seq<Tree>, leafCount: int)
    requires Build(events) == Some(forest)
    requires leafCount == |EventLeaves(events)| % TWO_64
    requires leafCount == 0 || |forest| != 1
    ensures !exists t :: Accepts(select, events, t)
  {
    CountDecides(|EventLeaves(events)|);
    forall t | Accepts(select, events, t)
      ensures false
    {
      OneTreeSomeLeaves(events, t);
    }
  }

  /** A count below 2^63 survives its width. */
  lemma {:induction false} CountDecides(n: nat)
    ensures 0 < n < TWO_63 ==> n % TWO_64 == n
  {
  }

  lemma {:induction false} OneTreeSomeLeaves(events: seq<Event>, t: Tree)
    requires GoodTree(t) && events == Export(t)
    ensures Build(events).Some? && |Build(events).value| == 1
    ensures 0 < |EventLeaves(events)| < TWO_63
  {
    ExportBuildsTree(events, t);
    assert |EventLeaves(events)| == Size(t);
  }

  lemma {:induction false} OneAccepted(select: Selector, events: seq<Event>, root: Tree)
    requires Build(events) == Some([root])
    requires SelectionFits(select, EventLeaves(events))
    ensures EventLeaves(events) == Leaves(root)
    ensures Accepts(select, events, root)
    ensures forall t :: Accepts(select, events, t) ==> t == root
  {
    LastTree(events, root);
    forall t | Accepts(select, events, t)
      ensures t == root
    {
      ExportInjective(t, root);
    }
  }

  lemma {:induction false} LastTree(events: seq<Event>, t: Tree)
    requires Build(events) == Some([t])
    ensures GoodTree(t) && Export(t) == events && Leaves(t) == EventLeaves(events)
  {
    BuildSound(events);
    assert [t][0] == t;
    ForestSnoc([], t);
    assert [] + [t] == [t] && [] + Export(t) == Export(t) && [] + Leaves(t) == Leaves(t);
  }

  /** The records returned are the selected leaves in strict key order. */
  lemma {:induction false} AcceptedRecordsSorted(select: Selector, events: seq<Event>, t: Tree)
    requires Accepts(select, events, t)
    ensures StrictlyIncreasing(Keys(Selected(select, Leaves(t))))
    ensures forall r :: r in Selected(select, Leaves(t)) <==> r in Leaves(t) && select(r) == Take
  {
    SelectedSorted(select, Leaves(t));
    forall r
      ensures r in Selected(select, Leaves(t)) <==> r in Leaves(t) && select(r) == Take
    {
      SelectedMembers(select, Leaves(t), r);
    }
  }
}
