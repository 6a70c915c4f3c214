/** The committed trees the prestate verifier reconstructs, described without
    reference to the verifier: shape, order, balance and Merkle hash. */
module IavlTree {
  import opened Bytes
  import opened Encoding
  import opened Readers

  /** An inner node carries a separator key that no hash covers. */
  datatype Tree =
    | Leaf(version: int, key: bytes, value: bytes)
    | Inner(version: int, separator: bytes, left: Tree, right: Tree)

  datatype Record = Record(key: bytes, value: bytes)

  function Max(a: int, b: int): int {
    if a < b then b else a
  }

  function Height(t: Tree): (r: nat)
    ensures r == 0 <==> t.Leaf?
  {
    match t
    case Leaf(_, _, _) => 0
    case Inner(_, _, l, r) => 1 + Max(Height(l), Height(r))
  }

  function Leaves(t: Tree): (r: seq<Record>)
    ensures r != []
  {
    match t
    case Leaf(_, k, v) => [Record(k, v)]
    case Inner(_, _, l, r) => Leaves(l) + Leaves(r)
  }

  function Size(t: Tree): nat {
    |Leaves(t)|
  }

  function Keys(records: seq<Record>): (r: seq<bytes>)
    ensures |r| == |records|
    ensures forall i :: 0 <= i < |r| ==> r[i] == records[i].key
  {
    seq(|records|, i requires 0 <= i < |records| => records[i].key)
  }

  lemma {:induction false} KeysConcat(a: seq<Record>, b: seq<Record>)
    ensures Keys(a + b) == Keys(a) + Keys(b)
  {
  }

  function TreeKeys(t: Tree): (r: seq<bytes>)
    ensures r != []
  {
    Keys(Leaves(t))
  }

  /** With the keys in order these are the smallest and the largest key. */
  function MinKey(t: Tree): bytes {
    TreeKeys(t)[0]
  }

  function MaxKey(t: Tree): bytes {
    TreeKeys(t)[|TreeKeys(t)| - 1]
  }

  predicate PositiveVersions(t: Tree) {
    && t.version > 0
    && (t.Inner? ==> PositiveVersions(t.left) && PositiveVersions(t.right))
  }

  /** The AVL condition at every inner node. */
  predicate Balanced(t: Tree) {
    t.Inner? ==>
      && -1 <= Height(t.left) - Height(t.right) <= 1
      && Balanced(t.left) && Balanced(t.right)
  }

  /** Every separator is the smallest key to its right. */
  predicate RightMinimumSeparators(t: Tree) {
    t.Inner? ==>
      && t.separator == MinKey(t.right)
      && RightMinimumSeparators(t.left) && RightMinimumSeparators(t.right)
  }

  /** A non-empty AVL search tree as the state store commits it. */
  ghost predicate Valid(t: Tree) {
    && PositiveVersions(t)
    && Balanced(t)
    && RightMinimumSeparators(t)
    && StrictlyIncreasing(TreeKeys(t))
    && [] !in TreeKeys(t)
  }

  /** Validity of an inner node in terms of its children: exactly the local
      comparisons the verifier makes. */
  lemma {:induction false} ValidInner(version: int, separator: bytes, l: Tree, r: Tree)
    ensures Valid(Inner(version, separator, l, r)) <==>
            && Valid(l) && Valid(r) && version > 0
            && -1 <= Height(l) - Height(r) <= 1
            && Less(MaxKey(l), MinKey(r))
            && separator == MinKey(r)
  {
    KeysConcat(Leaves(l), Leaves(r));
    IncreasingJoin(TreeKeys(l), TreeKeys(r));
    assert TreeKeys(Inner(version, separator, l, r)) == TreeKeys(l) + TreeKeys(r);
  }

  // ---- Merkle hash ----

  function LeafPreimage(h: Hasher, size: int, version: int, key: bytes, value: bytes): bytes {
    Varint(0) + (Varint(size) + (Varint(version) + (VarFrame(key) + VarFrame(h(value)))))
  }

  function InnerPreimage(height: int, size: int, version: int, left: Digest, right: Digest): bytes {
    Varint(height) + (Varint(size) + (Varint(version) + (VarFrame(left) + VarFrame(right))))
  }

  function Preimage(h: Hasher, t: Tree): bytes
    decreases t, 0
  {
    match t
    case Leaf(n, k, v) => LeafPreimage(h, 1, n, k, v)
    case Inner(n, _, l, r) =>
      InnerPreimage(Height(t), Size(t), n, MerkleRoot(h, l), MerkleRoot(h, r))
  }

  function MerkleRoot(h: Hasher, t: Tree): Digest
    decreases t, 1
  {
    h(Preimage(h, t))
  }

  /** The fields of a hashed node, as the bytes spell them. */
  datatype NodeFields = NodeFields(height: int, size: int, version: int, first: bytes, second: bytes)

  /** Reads a hashed node from the left: three signed varints, two
      length-prefixed strings, and nothing after them. */
  function ReadNode(b: bytes): Option<NodeFields> {
    match ReadVarint(b)
    case None => None
    case Some((height, b1)) =>
      match ReadVarint(b1)
      case None => None
      case Some((size, b2)) =>
        match ReadVarint(b2)
        case None => None
        case Some((version, b3)) =>
          match ReadVarFrame(b3)
          case None => None
          case Some((first, b4)) =>
            match ReadVarFrame(b4)
            case None => None
            case Some((second, rest)) => if rest == [] then Some(NodeFields(height, size, version, first, second)) else None
  }

  lemma {:induction false} ReadsFields(height: int, size: int, version: int, first: bytes, second: bytes)
    ensures ReadNode(Varint(height) + (Varint(size) + (Varint(version) + (VarFrame(first) + VarFrame(second))))) ==
            Some(NodeFields(height, size, version, first, second))
  {
    VarintReadBack(height, Varint(size) + (Varint(version) + (VarFrame(first) + VarFrame(second))));
    VarintReadBack(size, Varint(version) + (VarFrame(first) + VarFrame(second)));
    VarintReadBack(version, VarFrame(first) + VarFrame(second));
    VarFrameReadBack(first, VarFrame(second));
    assert VarFrame(second) + [] == VarFrame(second);
    VarFrameReadBack(second, []);
  }

  /** The layout of a hashed leaf: height 0, size, version, key, value digest. */
  lemma {:induction false} LeafLayout(h: Hasher, size: int, version: int, key: bytes, value: bytes)
    ensures ReadNode(LeafPreimage(h, size, version, key, value)) == Some(NodeFields(0, size, version, key, h(value)))
  {
    ReadsFields(0, size, version, key, h(value));
  }

  /** The layout of a hashed inner node. */
  lemma {:induction false} InnerLayout(height: int, size: int, version: int, left: Digest, right: Digest)
    ensures ReadNode(InnerPreimage(height, size, version, left, right)) == Some(NodeFields(height, size, version, left, right))
  {
    ReadsFields(height, size, version, left, right);
  }

  /** What is hashed for a node of any tree spells its height, its number of
      leaves and its version, then key and value digest of a leaf, or the roots
      of the two children. */
  lemma {:induction false} PreimageReadBack(h: Hasher, t: Tree)
    ensures ReadNode(Preimage(h, t)) ==
            Some(if t.Leaf? then NodeFields(0, 1, t.version, t.key, h(t.value))
                 else NodeFields(Height(t), |Leaves(t)|, t.version, MerkleRoot(h, t.left), MerkleRoot(h, t.right)))
    ensures MerkleRoot(h, t) == h(Preimage(h, t))
  {
    if t.Leaf? {
      LeafLayout(h, 1, t.version, t.key, t.value);
    } else {
      InnerLayout(Height(t), Size(t), t.version, MerkleRoot(h, t.left), MerkleRoot(h, t.right));
    }
  }

  /** Everything that is hashed while computing the root of `t`. */
  function Hashed(h: Hasher, t: Tree): set<bytes> {
    {Preimage(h, t)} +
    match t
    case Leaf(_, _, v) => {v}
    case Inner(_, _, l, r) => Hashed(h, l) + Hashed(h, r)
  }

  /** A store commits either nothing, with the digest of no bytes, or a tree. */
  function CommittedRoot(h: Hasher, store: Option<Tree>): Digest {
    match store
    case None => h([])
    case Some(t) => MerkleRoot(h, t)
  }

  function CommittedHashed(h: Hasher, store: Option<Tree>): set<bytes> {
    match store
    case None => {[]}
    case Some(t) => Hashed(h, t)
  }

  function CommittedLeaves(store: Option<Tree>): seq<Record> {
    match store
    case None => []
    case Some(t) => Leaves(t)
  }

  lemma {:induction false} LeafPreimageInjective(h: Hasher, t: Tree, u: Tree)
    requires t.Leaf? && u.Leaf?
    requires Preimage(h, t) == Preimage(h, u)
    ensures t.version == u.version && t.key == u.key && h(t.value) == h(u.value)
  {
    var a, b := VarFrame(t.key) + VarFrame(h(t.value)), VarFrame(u.key) + VarFrame(h(u.value));
    VarintPrefixFree(0, 0, Varint(1) + (Varint(t.version) + a), Varint(1) + (Varint(u.version) + b));
    VarintPrefixFree(1, 1, Varint(t.version) + a, Varint(u.version) + b);
    VarintPrefixFree(t.version, u.version, a, b);
    VarFramePrefixFree(t.key, u.key, VarFrame(h(t.value)), VarFrame(h(u.value)));
    assert VarFrame(h(t.value)) + [] == VarFrame(h(t.value)) && VarFrame(h(u.value)) + [] == VarFrame(h(u.value));
    VarFramePrefixFree(h(t.value), h(u.value), [], []);
  }

  lemma {:induction false} InnerPreimageInjective(h: Hasher, t: Tree, u: Tree)
    requires t.Inner? && u.Inner?
    requires Preimage(h, t) == Preimage(h, u)
    ensures t.version == u.version
    ensures MerkleRoot(h, t.left) == MerkleRoot(h, u.left)
    ensures MerkleRoot(h, t.right) == MerkleRoot(h, u.right)
  {
    var tl, tr, ul, ur := MerkleRoot(h, t.left), MerkleRoot(h, t.right), MerkleRoot(h, u.left), MerkleRoot(h, u.right);
    var a, b := VarFrame(tl) + VarFrame(tr), VarFrame(ul) + VarFrame(ur);
    VarintPrefixFree(Height(t), Height(u), Varint(Size(t)) + (Varint(t.version) + a), Varint(Size(u)) + (Varint(u.version) + b));
    VarintPrefixFree(Size(t), Size(u), Varint(t.version) + a, Varint(u.version) + b);
    VarintPrefixFree(t.version, u.version, a, b);
    VarFramePrefixFree(tl, ul, VarFrame(tr), VarFrame(ur));
    assert VarFrame(tr) + [] == VarFrame(tr) && VarFrame(ur) + [] == VarFrame(ur);
    VarFramePrefixFree(tr, ur, [], []);
  }

  lemma {:induction false} KindsSeparated(h: Hasher, t: Tree, u: Tree)
    requires t.Leaf? != u.Leaf?
    ensures Preimage(h, t) != Preimage(h, u)
  {
    assert Varint(0)[0] == 0;
    assert Preimage(h, if t.Leaf? then t else u)[0] == 0;
    var inner := if t.Leaf? then u else t;
    assert Preimage(h, inner)[0] == Varint(Height(inner))[0] != 0;
  }

  /** The Merkle root binds the whole tree. Two valid trees with one root are
      the same tree, down to the separators no hash covers, or two of the
      byte strings hashed on the way exhibit a collision. */
  lemma {:induction false} RootBindsTree(h: Hasher, t: Tree, u: Tree)
    requires Valid(t) && Valid(u)
    requires MerkleRoot(h, t) == MerkleRoot(h, u)
    ensures t == u || Collide(h, Hashed(h, t), Hashed(h, u))
    decreases t
  {
    if Preimage(h, t) != Preimage(h, u) {
      assert Preimage(h, t) in Hashed(h, t) && Preimage(h, u) in Hashed(h, u);
    } else if t.Leaf? != u.Leaf? {
      KindsSeparated(h, t, u);
      assert false;
    } else if t.Leaf? {
      LeafPreimageInjective(h, t, u);
      assert t.value in Hashed(h, t) && u.value in Hashed(h, u);
    } else {
      InnerPreimageInjective(h, t, u);
      ValidInner(t.version, t.separator, t.left, t.right);
      ValidInner(u.version, u.separator, u.left, u.right);
      RootBindsTree(h, t.left, u.left);
      RootBindsTree(h, t.right, u.right);
    }
  }

  /** The same for a whole store, where "no tree" has a digest of its own. */
  lemma {:induction false} CommittedRootBindsStore(h: Hasher, s: Option<Tree>, c: Option<Tree>)
    requires s.Some? ==> Valid(s.value)
    requires c.Some? ==> Valid(c.value)
    requires CommittedRoot(h, s) == CommittedRoot(h, c)
    ensures s == c || Collide(h, CommittedHashed(h, s), CommittedHashed(h, c))
  {
    if s.Some? && c.Some? {
      RootBindsTree(h, s.value, c.value);
    } else if s.Some? {
      assert Preimage(h, s.value) in CommittedHashed(h, s) && [] in CommittedHashed(h, c);
    } else if c.Some? {
      assert [] in CommittedHashed(h, s) && Preimage(h, c.value) in CommittedHashed(h, c);
    }
  }

  // ---- the AVL height bound ----

  function Fib(n: nat): nat {
    if n == 0 then 0 else if n == 1 then 1 else Fib(n - 1) + Fib(n - 2)
  }

  lemma {:induction false} FibMonotone(m: nat, n: nat)
    requires m <= n
    ensures Fib(m) <= Fib(n)
    decreases n
  {
    if m < n && n >= 2 {
      FibMonotone(m, n - 1);
    }
  }

  lemma {:induction false} FibPair(a: nat, b: nat)
    requires -1 <= a - b <= 1
    ensures Fib(a + 2) + Fib(b + 2) >= Fib(Max(a, b) + 3)
  {
    var hi := Max(a, b);
    FibMonotone(hi + 1, a + b - hi + 2);
    assert Fib(hi + 3) == Fib(hi + 2) + Fib(hi + 1);
  }

  lemma {:induction false} SizeAtLeastFib(t: Tree)
    requires Balanced(t)
    ensures Size(t) >= Fib(Height(t) + 2)
  {
    if t.Leaf? {
      assert Fib(2) == 1;
    } else {
      SizeAtLeastFib(t.left);
      SizeAtLeastFib(t.right);
      FibPair(Height(t.left), Height(t.right));
      assert Height(t) + 2 == Max(Height(t.left), Height(t.right)) + 3;
    }
  }

  /** Fibonacci numbers ten steps further on. */
  lemma {:induction false} FibTenOn(k: nat, a: nat, b: nat)
    requires Fib(k) == a && Fib(k + 1) == b
    ensures Fib(k + 10) == 34 * a + 55 * b && Fib(k + 11) == 55 * a + 89 * b
  {
    assert Fib(k + 2) == a + b && Fib(k + 3) == a + 2 * b;
    assert Fib(k + 4) == 2 * a + 3 * b && Fib(k + 5) == 3 * a + 5 * b;
    assert Fib(k + 6) == 5 * a + 8 * b && Fib(k + 7) == 8 * a + 13 * b;
    assert Fib(k + 8) == 13 * a + 21 * b && Fib(k + 9) == 21 * a + 34 * b;
  }

  lemma {:induction false} FibAtLeast93(n: nat)
    requires n >= 93
    ensures Fib(n) >= TWO_63
  {
    var k: nat := 3;
    var a, b := 2, 3;
    while k < 93
      invariant k % 10 == 3 && k <= 93
      invariant Fib(k) == a && Fib(k + 1) == b
      invariant k == 13 ==> a == 233 && b == 377
      invariant k == 23 ==> a == 28657 && b == 46368
      invariant k == 33 ==> a == 3524578 && b == 5702887
      invariant k == 43 ==> a == 433494437 && b == 701408733
      invariant k == 53 ==> a == 53316291173 && b == 86267571272
      invariant k == 63 ==> a == 6557470319842 && b == 10610209857723
      invariant k == 73 ==> a == 806515533049393 && b == 1304969544928657
      invariant k == 83 ==> a == 99194853094755497 && b == 160500643816367088
      invariant k == 93 ==> a >= TWO_63
      invariant k == 3 ==> a == 2 && b == 3
    {
      FibTenOn(k, a, b);
      k, a, b := k + 10, 34 * a + 55 * b, 55 * a + 89 * b;
    }
    FibMonotone(k, n);
  }

  /** A balanced tree with fewer than 2^63 leaves is at most 90 high. */
  lemma {:induction false} HeightAtMost90(t: Tree)
    requires Balanced(t) && Size(t) < TWO_63
    ensures Height(t) <= 90
  {
    SizeAtLeastFib(t);
    if Height(t) > 90 {
      FibAtLeast93(Height(t) + 2);
    }
  }
}
