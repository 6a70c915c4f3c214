/** From the root commit id down to verified records: the root CommitInfo
    names each substore's commit id, and a substore's export is accepted only
    when it rebuilds that id's hash. */
module CommittedPrestate {
  import opened Bytes
  import opened IavlTree
  import opened IavlExport

  datatype CommitId = CommitId(version: int, hash: bytes)

  datatype StoreInfo = StoreInfo(name: string, commitId: CommitId)

  datatype CommitInfo = CommitInfo(version: int, storeInfos: seq<StoreInfo>)

  datatype CommitFault =
    | MissingInfo | VersionMismatch | RootMismatch | EmptyName | DuplicateRequired
    | DuplicateStore | InvalidStoreId | MissingStore

  predicate DistinctNames(names: seq<string>) {
    forall i, j :: 0 <= i < j < |names| ==> names[i] != names[j]
  }

  function StoreNames(infos: seq<StoreInfo>): (r: seq<string>)
    ensures |r| == |infos|
    ensures forall i :: 0 <= i < |r| ==> r[i] == infos[i].name
  {
    seq(|infos|, i requires 0 <= i < |infos| => infos[i].name)
  }

  predicate UsableId(id: CommitId, version: int) {
    id.version == version && |id.hash| == 32
  }

  /** The store hashes a CommitInfo commits, by name. */
  function StoreHashes(infos: seq<StoreInfo>): (r: map<string, bytes>)
    ensures forall name :: name in r <==> name in StoreNames(infos)
  {
    if infos == [] then map[]
    else
      var last := infos[|infos| - 1];
      assert StoreNames(infos) == StoreNames(infos[..|infos| - 1]) + [last.name];
      StoreHashes(infos[..|infos| - 1])[last.name := last.commitId.hash]
  }

  /** The SDK's Merkle root of the store hashes, sorted by name: any function. */
  type RootOf = map<string, bytes> -> bytes

  ghost predicate RequiredOnce(required: seq<string>) {
    "" !in required && DistinctNames(required)
  }

  ghost predicate StoresUsable(root: CommitId, infos: seq<StoreInfo>, required: seq<string>) {
    && DistinctNames(StoreNames(infos))
    && (forall i :: 0 <= i < |infos| && infos[i].name in required ==> UsableId(infos[i].commitId, root.version))
    && (forall name :: name in required ==> name in StoreNames(infos))
  }

  /** The CommitInfo hashes to the root and names every required store exactly
      once, at the root's version. */
  ghost predicate BindsStores(rootOf: RootOf, root: CommitId, info: CommitInfo, required: seq<string>) {
    && info.version == root.version
    && |root.hash| == 32 && rootOf(StoreHashes(info.storeInfos)) == root.hash
    && RequiredOnce(required) && StoresUsable(root, info.storeInfos, required)
  }

  /** The condition in full: the info is of the root's version and hashes to it;
      the required names are distinct and not empty; the info names no store
      twice, and every required one, at the root's version with a 32-byte hash. */
  lemma {:induction false} BindsStoresExactly(rootOf: RootOf, root: CommitId, info: CommitInfo, required: seq<string>)
    ensures BindsStores(rootOf, root, info, required) <==>
            && info.version == root.version && |root.hash| == 32 && rootOf(StoreHashes(info.storeInfos)) == root.hash
            && "" !in required && (forall i, j :: 0 <= i < j < |required| ==> required[i] != required[j])
            && (forall i, j :: 0 <= i < j < |info.storeInfos| ==> info.storeInfos[i].name != info.storeInfos[j].name)
            && (forall name :: name in required ==> exists s :: s in info.storeInfos && s.name == name)
            && (forall s :: s in info.storeInfos && s.name in required ==> s.commitId.version == root.version && |s.commitId.hash| == 32)
  {
    var infos := info.storeInfos;
    assert DistinctNames(StoreNames(infos)) <==> forall i, j :: 0 <= i < j < |infos| ==> infos[i].name != infos[j].name by {
      if forall i, j :: 0 <= i < j < |infos| ==> infos[i].name != infos[j].name {
      } else {
        var i, j :| 0 <= i < j < |infos| && infos[i].name == infos[j].name;
        assert StoreNames(infos)[i] == StoreNames(infos)[j];
      }
    }
    forall name
      ensures name in StoreNames(infos) <==> exists s :: s in infos && s.name == name
    {
      if name in StoreNames(infos) {
        var i :| 0 <= i < |infos| && StoreNames(infos)[i] == name;
        assert infos[i] in infos;
      }
      if s :| s in infos && s.name == name {
        var i :| 0 <= i < |infos| && infos[i] == s;
        assert StoreNames(infos)[i] == name;
      }
    }
  }

  method CollectRequired(requiredNames: seq<string>) returns (r: Result<set<string>, CommitFault>)
    ensures r.Ok? <==> RequiredOnce(requiredNames)
    ensures r.Ok? ==> forall name :: name in r.value <==> name in requiredNames
  {
    var required: set<string> := {};
    for i := 0 to |requiredNames|
      invariant DistinctNames(requiredNames[..i]) && "" !in requiredNames[..i]
      invariant forall name :: name in required <==> name in requiredNames[..i]
    {
      if requiredNames[i] == "" { return Err(EmptyName); }
      if requiredNames[i] in required {
        assert requiredNames[i] in requiredNames[..i];
        return Err(DuplicateRequired);
      }
      required := required + {requiredNames[i]};
      assert requiredNames[..i + 1] == requiredNames[..i] + [requiredNames[i]];
    }
    assert requiredNames[..|requiredNames|] == requiredNames;
    return Ok(required);
  }

  /** The loop over the stores of a CommitInfo. */
  method CollectStoreIds(root: CommitId, infos: seq<StoreInfo>, required: set<string>, ghost requiredNames: seq<string>)
    returns (r: Result<map<string, CommitId>, CommitFault>)
    requires forall name :: name in required <==> name in requiredNames
    ensures r.Ok? <==> StoresUsable(root, infos, requiredNames)
    ensures r.Ok? ==> forall name :: name in r.value <==> name in requiredNames
    ensures r.Ok? ==> forall s :: s in infos && s.name in requiredNames ==> s.name in r.value && r.value[s.name] == s.commitId
  {
    ghost var names := StoreNames(infos);
    var found: map<string, CommitId> := map[];
    var seenAll: set<string> := {};
    for i := 0 to |infos|
      invariant DistinctNames(names[..i])
      invariant forall name :: name in seenAll <==> name in names[..i]
      invariant forall name :: name in found <==> name in required && name in names[..i]
      invariant forall j :: 0 <= j < i && infos[j].name in required ==>
                              UsableId(infos[j].commitId, root.version) && found[infos[j].name] == infos[j].commitId
    {
      var storeInfo := infos[i];
      assert names[..i + 1] == names[..i] + [storeInfo.name];
      if storeInfo.name in seenAll {
        assert storeInfo.name in names[..i];
        return Err(DuplicateStore);
      }
      seenAll := seenAll + {storeInfo.name};
      if storeInfo.name in required {
        if storeInfo.commitId.version != root.version || |storeInfo.commitId.hash| != 32 {
          return Err(InvalidStoreId);
        }
        forall j | 0 <= j < i
          ensures infos[j].name != storeInfo.name
        {
          assert names[..i][j] == infos[j].name;
        }
        found := found[storeInfo.name := storeInfo.commitId];
      }
    }
    assert names[..|infos|] == names;
    if name :| name in required && name !in found {
      return Err(MissingStore);
    }
    return Ok(found);
  }

  method ValidateRootCommitInfo(rootOf: RootOf, root: CommitId, info: Option<CommitInfo>, requiredNames: seq<string>)
    returns (r: Result<map<string, CommitId>, CommitFault>)
    ensures r.Ok? <==> info.Some? && BindsStores(rootOf, root, info.value, requiredNames)
    ensures r.Ok? ==> forall name :: name in r.value <==> name in requiredNames
    ensures r.Ok? ==> forall s :: s in info.value.storeInfos && s.name in requiredNames ==>
                                    s.name in r.value && r.value[s.name] == s.commitId
  {
    if info.None? { return Err(MissingInfo); }
    var commitInfo := info.value;
    if commitInfo.version != root.version { return Err(VersionMismatch); }
    var computedRoot := rootOf(StoreHashes(commitInfo.storeInfos));
    if |computedRoot| != 32 || |root.hash| != 32 || computedRoot != root.hash { return Err(RootMismatch); }
    var required := CollectRequired(requiredNames);
    if required.Err? { return Err(required.error); }
    r := CollectStoreIds(root, commitInfo.storeInfos, required.value, requiredNames);
  }

  lemma {:induction false} StoreHashAt(infos: seq<StoreInfo>, i: nat)
    requires i < |infos| && DistinctNames(StoreNames(infos))
    ensures infos[i].name in StoreHashes(infos) && StoreHashes(infos)[infos[i].name] == infos[i].commitId.hash
    decreases |infos|
  {
    var init := infos[..|infos| - 1];
    assert StoreNames(init) == StoreNames(infos)[..|infos| - 1];
    if i < |init| {
      StoreHashAt(init, i);
      assert StoreNames(infos)[i] != StoreNames(infos)[|infos| - 1];
    }
  }

  /** One root, one store id: two CommitInfos validated against a root give a
      required store the same commit id, or two different maps of store hashes
      share that root. */
  lemma {:induction false} RootBindsStoreIds(rootOf: RootOf, root: CommitId, a: CommitInfo, b: CommitInfo, required: seq<string>, i: nat, j: nat)
    requires BindsStores(rootOf, root, a, required) && BindsStores(rootOf, root, b, required)
    requires i < |a.storeInfos| && j < |b.storeInfos| && a.storeInfos[i].name == b.storeInfos[j].name && a.storeInfos[i].name in required
    ensures var p, q := StoreHashes(a.storeInfos), StoreHashes(b.storeInfos);
      a.storeInfos[i].commitId == b.storeInfos[j].commitId || (p != q && rootOf(p) == rootOf(q))
  {
    StoreHashAt(a.storeInfos, i);
    StoreHashAt(b.storeInfos, j);
  }

  datatype CollectFault = WrongSubroot | InvalidId | ExportUnavailable | ExportRejected(fault: Fault) | RootDiffers

  /** The store an accepted call saw: the empty one, or the tree that the
      export spells out. */
  ghost predicate Reconstructs(h: Hasher, hash: bytes, exported: Option<seq<Event>>, select: Selector, records: seq<Record>, store: Option<Tree>) {
    && (store.Some? ==> exported.Some? && Accepts(select, exported.value, store.value))
    && hash == CommittedRoot(h, store)
    && records == Selected(select, CommittedLeaves(store))
  }

  /** One substore. `exported` is None when no export can be opened. */
  method CollectVerifiedCommittedRecords(h: Hasher, commitId: CommitId, expected: CommitId,
                                         exported: Option<seq<Event>>, select: Selector)
    returns (r: Result<seq<Record>, CollectFault>)
    ensures r.Ok? <==>
            && commitId == expected && commitId.version > 0 && |commitId.hash| == 32
            && (|| commitId.hash == h([])
                || (exported.Some? &&
                    exists t :: Accepts(select, exported.value, t) && MerkleRoot(h, t) == commitId.hash))
    ensures r.Ok? ==> exists store :: Reconstructs(h, commitId.hash, exported, select, r.value, store)
  {
    if commitId.version != expected.version || commitId.hash != expected.hash { return Err(WrongSubroot); }
    if commitId.version <= 0 || |commitId.hash| != 32 { return Err(InvalidId); }
    if commitId.hash == h([]) {
      assert Reconstructs(h, commitId.hash, exported, select, [], None);
      return Ok([]);
    }
    if exported.None? { return Err(ExportUnavailable); }
    var verified := VerifyExportStream(h, exported.value, select);
    if verified.Err? { return Err(ExportRejected(verified.error)); }
    ghost var t :| Accepts(select, exported.value, t);
    if verified.value.1 != commitId.hash { return Err(RootDiffers); }
    assert Reconstructs(h, commitId.hash, exported, select, verified.value.0, Some(t));
    return Ok(verified.value.0);
  }

  /** What acceptance means for the caller: whatever the export reader did, the
      records are exactly the selected leaves of the store that was committed
      under this hash, or the two stores' hashed bytes exhibit a collision. */
  lemma {:induction false} CollectedRecordsAreCommitted(
      h: Hasher, hash: bytes, exported: Option<seq<Event>>, select: Selector, records: seq<Record>, store: Option<Tree>, committed: Option<Tree>)
    requires Reconstructs(h, hash, exported, select, records, store)
    requires committed.Some? ==> Valid(committed.value)
    requires CommittedRoot(h, committed) == hash
    ensures || records == Selected(select, CommittedLeaves(committed))
            || Collide(h, CommittedHashed(h, store), CommittedHashed(h, committed))
  {
    CommittedRootBindsStore(h, store, committed);
  }
}
