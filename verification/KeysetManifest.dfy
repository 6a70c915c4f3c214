/** The legacy IBC keyset manifest: a plan commits a set of obsolete keys by
    count and digest, and deletion happens only for exactly that set. */
module KeysetManifest {
  import opened Bytes
  import opened Encoding
  import opened Readers

  const MAX_KEYS: int := 100_000
  const MAX_KEY_BYTES: int := 0x200_0000

  const CHANNEL_UPGRADES_PREFIX: bytes := Ascii("channelUpgrades/")
  const PRUNING_SEQUENCE_PREFIX: bytes := Ascii("pruningSequenceStart/")

  /** Count and digest; their decimal and hexadecimal texts are canonical. */
  datatype Manifest = Manifest(keyCount: nat, keysDigest: Digest)

  datatype KeyFault =
    | TooManyKeys | OutsidePrefix | TooManyBytes | DuplicateKey | EmptyPrefix | OpenFailed
    | OverCount | OutOfOrder | IterationFailed | BadCount | ManifestMismatch

  function TotalBytes(keys: seq<bytes>): nat {
    if keys == [] then 0 else |keys[|keys| - 1]| + TotalBytes(keys[..|keys| - 1])
  }

  predicate AllPrefixed(keys: seq<bytes>, prefix: bytes) {
    forall k :: k in keys ==> prefix <= k
  }

  predicate Distinct(keys: seq<bytes>) {
    forall i, j :: 0 <= i < j < |keys| ==> keys[i] != keys[j]
  }

  lemma {:induction false} SmallKeysFramable(keys: seq<bytes>)
    requires TotalBytes(keys) <= MAX_KEY_BYTES
    ensures AllFramable(keys)
  {
    if keys != [] {
      SmallKeysFramable(keys[..|keys| - 1]);
      assert keys == keys[..|keys| - 1] + [keys[|keys| - 1]];
    }
  }

  // ---- sorting ----

  /** Weakly increasing: what a comparison sort guarantees. */
  ghost predicate Sorted(keys: seq<bytes>) {
    forall i, j :: 0 <= i < j < |keys| ==> !Less(keys[j], keys[i])
  }

  function Insert(key: bytes, sorted: seq<bytes>): seq<bytes> {
    if sorted == [] || !Less(sorted[0], key) then [key] + sorted
    else [sorted[0]] + Insert(key, sorted[1..])
  }

  /** `sort.Slice` by byte order. */
  function SortKeys(keys: seq<bytes>): seq<bytes> {
    if keys == [] then [] else Insert(keys[0], SortKeys(keys[1..]))
  }

  lemma {:induction false} NotLessTransitive(a: bytes, b: bytes, c: bytes)
    requires !Less(b, a) && !Less(c, b)
    ensures !Less(c, a)
  {
    LessTotal(a, b);
    LessTotal(b, c);
    if Less(c, a) {
      if Less(a, b) { LessTransitive(c, a, b); }
    }
  }

  lemma {:induction false} InsertSorts(key: bytes, sorted: seq<bytes>)
    requires Sorted(sorted)
    ensures Sorted(Insert(key, sorted))
    ensures multiset(Insert(key, sorted)) == multiset{key} + multiset(sorted)
  {
    if sorted == [] || !Less(sorted[0], key) {
      forall j | 0 <= j < |sorted|
        ensures !Less(sorted[j], key)
      {
        if j > 0 { NotLessTransitive(key, sorted[0], sorted[j]); }
      }
    } else {
      InsertSorts(key, sorted[1..]);
      var rest := Insert(key, sorted[1..]);
      assert sorted == [sorted[0]] + sorted[1..];
      forall j | 0 <= j < |rest|
        ensures !Less(rest[j], sorted[0])
      {
        assert rest[j] in multiset(rest);
        if rest[j] == key {
          if Less(key, sorted[0]) {
            LessTransitive(key, sorted[0], key);
            LessIrreflexive(key);
          }
        } else {
          assert rest[j] in sorted[1..];
        }
      }
    }
  }

  lemma {:induction false} SortKeysSorts(keys: seq<bytes>)
    ensures Sorted(SortKeys(keys)) && multiset(SortKeys(keys)) == multiset(keys)
  {
    if keys != [] {
      SortKeysSorts(keys[1..]);
      InsertSorts(keys[0], SortKeys(keys[1..]));
      assert keys == [keys[0]] + keys[1..];
    }
  }

  /** Sorted without an equal neighbour is strictly increasing. */
  lemma {:induction false} SortedDistinctIncreasing(keys: seq<bytes>)
    requires Sorted(keys)
    requires forall i :: 0 < i < |keys| ==> keys[i - 1] != keys[i]
    ensures StrictlyIncreasing(keys)
  {
    forall i, j | 0 <= i < j < |keys|
      ensures Less(keys[i], keys[j])
    {
      LessTotal(keys[j - 1], keys[j]);
      if i < j - 1 {
        LessTotal(keys[i], keys[j - 1]);
        if Less(keys[i], keys[j - 1]) {
          LessTransitive(keys[i], keys[j - 1], keys[j]);
        }
      }
    }
  }

  lemma {:induction false} DistinctCounts(keys: seq<bytes>)
    ensures Distinct(keys) <==> forall k :: multiset(keys)[k] <= 1
  {
    if keys != [] {
      var rest := keys[1..];
      DistinctCounts(rest);
      assert keys == [keys[0]] + rest;
      assert forall j :: 0 < j < |keys| ==> keys[j] == rest[j - 1];
      assert keys[0] in rest <==> multiset(rest)[keys[0]] > 0;
      if forall k :: multiset(keys)[k] <= 1 {
        assert multiset(keys)[keys[0]] <= 1;
        forall k
          ensures multiset(rest)[k] <= 1
        {
          assert multiset(keys)[k] <= 1;
        }
      }
      if Distinct(keys) {
        forall i, j | 0 <= i < j < |rest|
          ensures rest[i] != rest[j]
        {
          assert keys[i + 1] != keys[j + 1];
        }
      }
    }
  }

  /** What a plan author may commit: a duplicate-free set under one prefix. */
  ghost predicate Normalizable(prefix: bytes, keys: seq<bytes>) {
    |keys| <= MAX_KEYS && AllPrefixed(keys, prefix) && TotalBytes(keys) <= MAX_KEY_BYTES && Distinct(keys)
  }

  lemma {:induction false} SortedSet(keys: seq<bytes>)
    ensures |SortKeys(keys)| == |keys|
    ensures forall k :: k in SortKeys(keys) <==> k in keys
    ensures Distinct(keys) <==> StrictlyIncreasing(SortKeys(keys))
    ensures Distinct(keys) <==> forall i :: 0 < i < |keys| ==> SortKeys(keys)[i - 1] != SortKeys(keys)[i]
  {
    SortKeysSorts(keys);
    var sorted := SortKeys(keys);
    assert |multiset(sorted)| == |multiset(keys)|;
    forall k
      ensures k in sorted <==> k in keys
    {
      assert k in multiset(sorted) <==> k in multiset(keys);
    }
    DistinctCounts(keys);
    DistinctCounts(sorted);
    if forall i :: 0 < i < |sorted| ==> sorted[i - 1] != sorted[i] {
      SortedDistinctIncreasing(sorted);
    }
    if StrictlyIncreasing(sorted) {
      forall i, j | 0 <= i < j < |sorted|
        ensures sorted[i] != sorted[j]
      {
        LessIrreflexive(sorted[i]);
      }
    }
  }

  method NeighboursDiffer(keys: seq<bytes>) returns (differ: bool)
    ensures differ <==> forall i :: 0 < i < |keys| ==> keys[i - 1] != keys[i]
  {
    var i := 1;
    while i < |keys|
      invariant i >= 1
      invariant forall j :: 0 < j < i && j < |keys| ==> keys[j - 1] != keys[j]
    {
      if keys[i - 1] == keys[i] { return false; }
      i := i + 1;
    }
    return true;
  }

  method NormalizeKeys(prefix: bytes, keys: seq<bytes>) returns (r: Result<seq<bytes>, KeyFault>)
    ensures r.Ok? <==> Normalizable(prefix, keys)
    ensures r.Ok? ==> r.value == SortKeys(keys)
  {
    if |keys| > MAX_KEYS { return Err(TooManyKeys); }
    var totalBytes := 0;
    for i := 0 to |keys|
      invariant AllPrefixed(keys[..i], prefix)
      invariant totalBytes == TotalBytes(keys[..i]) <= MAX_KEY_BYTES
    {
      var key := keys[i];
      assert key in keys;
      assert keys[..i + 1] == keys[..i] + [key];
      if !(prefix <= key) { return Err(OutsidePrefix); }
      TotalBytesPrefix(keys, i + 1);
      if |key| > MAX_KEY_BYTES - totalBytes { return Err(TooManyBytes); }
      totalBytes := totalBytes + |key|;
    }
    assert keys[..|keys|] == keys;
    var normalized := SortKeys(keys);
    SortedSet(keys);
    var distinct := NeighboursDiffer(normalized);
    if !distinct { return Err(DuplicateKey); }
    return Ok(normalized);
  }

  lemma {:induction false} TotalBytesPrefix(keys: seq<bytes>, n: nat)
    requires n <= |keys|
    ensures TotalBytes(keys[..n]) <= TotalBytes(keys)
    ensures n > 0 ==> TotalBytes(keys[..n]) == TotalBytes(keys[..n - 1]) + |keys[n - 1]|
    decreases |keys|
  {
    if n > 0 {
      assert keys[..n][..n - 1] == keys[..n - 1];
    }
    if n < |keys| {
      assert keys[..|keys| - 1][..n] == keys[..n];
      TotalBytesPrefix(keys[..|keys| - 1], n);
    } else {
      assert keys[..n] == keys;
    }
  }

  /** Two orders of one key set commit to the same sorted list, hence manifest. */
  lemma {:induction false} ManifestIgnoresOrder(a: seq<bytes>, b: seq<bytes>)
    requires Distinct(a) && Distinct(b) && forall k :: k in a <==> k in b
    ensures SortKeys(a) == SortKeys(b)
  {
    SortedSet(a);
    SortedSet(b);
    forall k
      ensures k in SortKeys(a) <==> k in SortKeys(b)
    {
      assert k in a <==> k in b;
    }
    IncreasingUnique(SortKeys(a), SortKeys(b));
  }

  function MakeManifest(h: Hasher, keys: seq<bytes>): Manifest
    requires AllFramable(keys)
  {
    Manifest(|keys|, h(FrameAll(keys)))
  }

  method HashLengthPrefixedKeys(h: Hasher, keys: seq<bytes>) returns (digest: Digest)
    requires AllFramable(keys)
    ensures digest == h(FrameAll(keys))
  {
    var written: bytes := [];
    for i := 0 to |keys|
      invariant written == FrameAll(keys[..i])
    {
      assert keys[i] in keys;
      FrameAllSnoc(keys[..i], keys[i]);
      assert keys[..i + 1] == keys[..i] + [keys[i]];
      written := written + U64(|keys[i]|);
      written := written + keys[i];
      assert written == FrameAll(keys[..i]) + Frame(keys[i]);
    }
    assert keys[..|keys|] == keys;
    return h(written);
  }

  // ---- collection through an untrusted iterator ----

  /** Everything an iterator over a prefix may do: fail to open, yield any keys
      at all, in particular too few, and report or hide errors. */
  datatype Iteration = Iteration(opens: bool, keys: seq<bytes>, failed: bool, closeFailed: bool)

  ghost predicate Collectable(it: Iteration, prefix: bytes, expectedCount: nat) {
    && prefix != [] && it.opens && !it.failed && !it.closeFailed
    && AllPrefixed(it.keys, prefix) && |it.keys| <= expectedCount
    && TotalBytes(it.keys) <= MAX_KEY_BYTES && StrictlyIncreasing(it.keys)
  }

  method CollectStoreKeys(it: Iteration, prefix: bytes, expectedCount: nat) returns (r: Result<seq<bytes>, KeyFault>)
    ensures r.Ok? <==> Collectable(it, prefix, expectedCount)
    ensures r.Ok? ==> r.value == it.keys
  {
    if |prefix| == 0 { return Err(EmptyPrefix); }
    if !it.opens { return Err(OpenFailed); }
    var keys: seq<bytes> := [];
    var totalKeyBytes := 0;
    for i := 0 to |it.keys|
      invariant keys == it.keys[..i] && |keys| <= expectedCount
      invariant AllPrefixed(keys, prefix)
      invariant totalKeyBytes == TotalBytes(keys) <= MAX_KEY_BYTES
      invariant StrictlyIncreasing(keys)
    {
      var key := it.keys[i];
      assert key in it.keys;
      if !(prefix <= key) { return Err(OutsidePrefix); }
      if |keys| >= expectedCount { return Err(OverCount); }
      TotalBytesPrefix(it.keys, i + 1);
      if |key| > MAX_KEY_BYTES - totalKeyBytes { return Err(TooManyBytes); }
      if |keys| > 0 && !Less(keys[|keys| - 1], key) {
        assert it.keys[i - 1] == keys[|keys| - 1];
        return Err(OutOfOrder);
      }
      if keys != [] { IncreasingJoin(keys, [key]); }
      totalKeyBytes := totalKeyBytes + |key|;
      keys := keys + [key];
      assert keys == it.keys[..i + 1];
    }
    assert it.keys[..|it.keys|] == it.keys;
    if it.failed || it.closeFailed { return Err(IterationFailed); }
    return Ok(keys);
  }

  datatype PlanInfo = PlanInfo(channelUpgrades: Manifest, pruningSequenceStart: Manifest)

  /** What an iterator must do for its domain to be collected. */
  ghost predicate DomainMatches(h: Hasher, it: Iteration, prefix: bytes, expected: Manifest) {
    && expected.keyCount <= MAX_KEYS && Collectable(it, prefix, expected.keyCount)
    && AllFramable(it.keys) && MakeManifest(h, it.keys) == expected
  }

  lemma {:induction false} NeighboursIncrease(keys: seq<bytes>)
    requires forall i :: 0 < i < |keys| ==> Less(keys[i - 1], keys[i])
    ensures StrictlyIncreasing(keys)
  {
    forall i, j | 0 <= i < j < |keys|
      ensures Less(keys[i], keys[j])
    {
      LessChain(keys, i, j);
    }
  }

  lemma {:induction false} LessChain(keys: seq<bytes>, i: nat, j: nat)
    requires forall i :: 0 < i < |keys| ==> Less(keys[i - 1], keys[i])
    requires i < j < |keys|
    ensures Less(keys[i], keys[j])
    decreases j
  {
    if i < j - 1 {
      LessChain(keys, i, j - 1);
      LessTransitive(keys[i], keys[j - 1], keys[j]);
    }
  }

  /** What an iterator must do in full: open and end cleanly, and yield keys under
      a prefix, each above the one before, within the plan's count and 32 MiB. */
  lemma {:induction false} CollectableExactly(it: Iteration, prefix: bytes, expectedCount: nat)
    ensures Collectable(it, prefix, expectedCount) <==>
            && prefix != [] && it.opens && !it.failed && !it.closeFailed
            && |it.keys| <= expectedCount && TotalBytes(it.keys) <= 33_554_432
            && (forall k :: k in it.keys ==> prefix <= k)
            && (forall i :: 0 < i < |it.keys| ==> Less(it.keys[i - 1], it.keys[i]))
  {
    var inOrder := forall i :: 0 < i < |it.keys| ==> Less(it.keys[i - 1], it.keys[i]);
    if inOrder {
      NeighboursIncrease(it.keys);
    }
    if StrictlyIncreasing(it.keys) {
      assert inOrder;
    }
  }

  /** Some text that reads back as the keys has the digest. */
  ghost predicate Framing(h: Hasher, keys: seq<bytes>, digest: Digest) {
    exists written :: ReadFrames(written, |keys|) == Some((keys, [])) && h(written) == digest
  }

  lemma {:induction false} FramedDigest(h: Hasher, keys: seq<bytes>, digest: Digest)
    ensures Framing(h, keys, digest) <==> AllFramable(keys) && h(FrameAll(keys)) == digest
  {
    if AllFramable(keys) {
      FramesReadBack(keys, []);
      assert FrameAll(keys) + [] == FrameAll(keys);
    }
    forall written | ReadFrames(written, |keys|) == Some((keys, []))
      ensures AllFramable(keys) && written == FrameAll(keys)
    {
      OnlyFrames(written, keys, []);
    }
  }

  /** A domain matches its manifest when it can be collected in exactly the
      plan's number of keys and some text that reads back as those keys, length
      by length, has the plan's digest. */
  lemma {:induction false} DomainMatchesExactly(h: Hasher, it: Iteration, prefix: bytes, expected: Manifest)
    ensures DomainMatches(h, it, prefix, expected) <==>
            && Collectable(it, prefix, expected.keyCount) && |it.keys| == expected.keyCount <= 100_000
            && Framing(h, it.keys, expected.keysDigest)
  {
    FramedDigest(h, it.keys, expected.keysDigest);
    assert expected == Manifest(expected.keyCount, expected.keysDigest);
  }

  method CollectDomain(h: Hasher, it: Iteration, prefix: bytes, expected: Manifest) returns (r: Result<seq<bytes>, KeyFault>)
    ensures r.Ok? <==> DomainMatches(h, it, prefix, expected)
    ensures r.Ok? ==> r.value == it.keys
  {
    if expected.keyCount > MAX_KEYS { return Err(BadCount); }
    r := CollectStoreKeys(it, prefix, expected.keyCount);
    if r.Err? { return; }
    SmallKeysFramable(r.value);
    var digest := HashLengthPrefixedKeys(h, r.value);
    if Manifest(|r.value|, digest) != expected { return Err(ManifestMismatch); }
  }

  method CollectObsoleteKeys(h: Hasher, channelUpgrades: Iteration, pruning: Iteration, info: PlanInfo)
    returns (r: Result<seq<bytes>, KeyFault>)
    ensures r.Ok? <==>
      && DomainMatches(h, channelUpgrades, CHANNEL_UPGRADES_PREFIX, info.channelUpgrades)
      && DomainMatches(h, pruning, PRUNING_SEQUENCE_PREFIX, info.pruningSequenceStart)
    ensures r.Ok? ==> r.value == channelUpgrades.keys + pruning.keys
  {
    var first := CollectDomain(h, channelUpgrades, CHANNEL_UPGRADES_PREFIX, info.channelUpgrades);
    if first.Err? { return first; }
    var second := CollectDomain(h, pruning, PRUNING_SEQUENCE_PREFIX, info.pruningSequenceStart);
    if second.Err? { return second; }
    return Ok(first.value + second.value);
  }

  lemma {:induction false} CommittedFramable(prefix: bytes, committed: seq<bytes>)
    requires Normalizable(prefix, committed)
    ensures AllFramable(SortKeys(committed))
  {
    SmallKeysFramable(committed);
    SortedSet(committed);
  }

  /** The manifest a plan author commits for one domain. */
  ghost function PlanManifest(h: Hasher, prefix: bytes, committed: seq<bytes>): Manifest
    requires Normalizable(prefix, committed)
  {
    CommittedFramable(prefix, committed);
    MakeManifest(h, SortKeys(committed))
  }

  /** Truncation cannot go unnoticed: keys collected against a manifest built
      from the set `committed`, in whatever order it was listed and whatever
      the iterator did, are exactly that set in order, or the two framed key
      lists collide. */
  lemma {:induction false} CollectedIsCommitted(h: Hasher, prefix: bytes, committed: seq<bytes>, collected: seq<bytes>)
    requires Normalizable(prefix, committed) && AllFramable(collected)
    requires MakeManifest(h, collected) == PlanManifest(h, prefix, committed)
    ensures AllFramable(SortKeys(committed))
    ensures || collected == SortKeys(committed)
            || Collide(h, {FrameAll(collected)}, {FrameAll(SortKeys(committed))})
  {
    CommittedFramable(prefix, committed);
    if FrameAll(collected) == FrameAll(SortKeys(committed)) {
      FrameAllInjective(collected, SortKeys(committed));
    } else {
      assert FrameAll(collected) in {FrameAll(collected)} && FrameAll(SortKeys(committed)) in {FrameAll(SortKeys(committed))};
    }
  }

  // ---- deletion ----

  /** The block's store view. A delete touches no other key, but it may fail,
      and even a reported success is not trusted to have removed the key. */
  class MutationStore {
    var contents: map<bytes, bytes>

    method Delete(key: bytes) returns (ok: bool)
      modifies this
      ensures contents == old(contents) || contents == old(contents) - {key}
    {
      ok := *;
      if * { contents := contents - {key}; }
    }

    method Has(key: bytes) returns (ok: bool, has: bool)
      ensures ok ==> has == (key in contents)
    {
      ok, has := *, key in contents;
    }
  }

  /** Deletes the verified keys one by one and checks each. */
  method DeleteObsoleteKeys(store: MutationStore, keys: seq<bytes>) returns (ok: bool, deleted: nat)
    modifies store
    ensures ok ==> store.contents == old(store.contents) - set k | k in keys
    ensures ok ==> deleted == |keys|
  {
    for i := 0 to |keys|
      invariant store.contents == old(store.contents) - set k | k in keys[..i]
    {
      var removed := store.Delete(keys[i]);
      if !removed { return false, i; }
      var read, has := store.Has(keys[i]);
      if !read { return false, i; }
      if has { return false, i; }
      assert keys[..i + 1] == keys[..i] + [keys[i]];
    }
    assert keys[..|keys|] == keys;
    return true, |keys|;
  }

  /** The framed keys of an iteration collide with those of the committed set. */
  ghost predicate KeysCollide(h: Hasher, it: Iteration, committed: seq<bytes>) {
    && AllFramable(it.keys) && AllFramable(SortKeys(committed))
    && Collide(h, {FrameAll(it.keys)}, {FrameAll(SortKeys(committed))})
  }

  lemma {:induction false} DomainIsCommitted(h: Hasher, it: Iteration, prefix: bytes, committed: seq<bytes>)
    requires Normalizable(prefix, committed) && DomainMatches(h, it, prefix, PlanManifest(h, prefix, committed))
    ensures (forall k :: k in it.keys <==> k in committed) || KeysCollide(h, it, committed)
  {
    CollectedIsCommitted(h, prefix, committed, it.keys);
    SortedSet(committed);
  }

  /** Collection and deletion as one: against a plan made from two key sets,
      listed in any order, a success has removed exactly the keys of those two
      sets from the store and nothing else, or framed key lists collide. */
  method DeleteObsoletePrefixes(h: Hasher, channelUpgrades: Iteration, pruning: Iteration, store: MutationStore, info: PlanInfo,
                                ghost upgradeKeys: seq<bytes>, ghost pruningKeys: seq<bytes>)
    returns (ok: bool, deleted: nat)
    requires Normalizable(CHANNEL_UPGRADES_PREFIX, upgradeKeys) && Normalizable(PRUNING_SEQUENCE_PREFIX, pruningKeys)
    requires info.channelUpgrades == PlanManifest(h, CHANNEL_UPGRADES_PREFIX, upgradeKeys)
    requires info.pruningSequenceStart == PlanManifest(h, PRUNING_SEQUENCE_PREFIX, pruningKeys)
    modifies store
    ensures ok ==>
      || (&& store.contents == old(store.contents) - (set k | k in upgradeKeys) - (set k | k in pruningKeys)
          && deleted == |upgradeKeys| + |pruningKeys|)
      || KeysCollide(h, channelUpgrades, upgradeKeys) || KeysCollide(h, pruning, pruningKeys)
  {
    var keys := CollectObsoleteKeys(h, channelUpgrades, pruning, info);
    if keys.Err? { return false, 0; }
    ok, deleted := DeleteObsoleteKeys(store, keys.value);
    DomainIsCommitted(h, channelUpgrades, CHANNEL_UPGRADES_PREFIX, upgradeKeys);
    DomainIsCommitted(h, pruning, PRUNING_SEQUENCE_PREFIX, pruningKeys);
    CountIsCommitted(h, channelUpgrades, CHANNEL_UPGRADES_PREFIX, upgradeKeys);
    CountIsCommitted(h, pruning, PRUNING_SEQUENCE_PREFIX, pruningKeys);
  }

  lemma {:induction false} CountIsCommitted(h: Hasher, it: Iteration, prefix: bytes, committed: seq<bytes>)
    requires Normalizable(prefix, committed) && DomainMatches(h, it, prefix, PlanManifest(h, prefix, committed))
    ensures |it.keys| == |committed|
  {
    SortedSet(committed);
  }
}
