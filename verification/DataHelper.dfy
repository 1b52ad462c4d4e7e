/** The helper objects of the mock device and `set_modified`, which stamps a node and climbs to its ancestors. */
module DataHelpers {
  import opened Wrappers
  import opened EditHistory
  import opened YinTree

  /** The source of `uuid4` tags: never the same one twice. */
  class UuidSource {
    var issued: nat

    method Uuid4() returns (tag: nat)
      modifies this
      ensures tag == old(issued) && issued == old(issued) + 1
    {
      tag := issued;
      issued := issued + 1;
    }
  }

  /** The module globals that hold the timestamp and tag of the whole datastore. */
  class DataModels {
    var lastModified: int
    var eTag: nat

    method UpdateDatastore(ts: int, tag: nat)
      modifies this
      ensures lastModified == ts && eTag == tag
    {
      lastModified := ts;
      eTag := tag;
    }
  }

  /** A RestconfConfigHelper (`isConfig`) or RestconfStatusHelper. The parent is only ever set by the constructor. */
  class DataHelper {
    const parent: DataHelper?
    const yinNode: Element
    const isConfig: bool
    var lastModified: int
    var eTag: nat
    ghost const path: Path

    /** `shared` is the timestamp and tag of the class, which every instance shows until its first edit. */
    constructor (node: Element, parent: DataHelper?, isConfig: bool, shared: Version)
      ensures this.yinNode == node && this.parent == parent && this.isConfig == isConfig
      ensures Current() == shared
      ensures path == (if parent == null then [] else parent.path) + [NameOf(node)]
    {
      this.parent := parent;
      this.yinNode := node;
      this.isConfig := isConfig;
      lastModified, eTag := shared.stamp, shared.tag;
      path := (if parent == null then [] else parent.path) + [NameOf(node)];
    }

    function Current(): Version
      reads this
    {
      Version(lastModified, eTag)
    }

    /** Stamps this helper and its ancestors up to the first one that is not a configuration resource;
        meeting such an ancestor raises, with everything below it already stamped. */
    method SetModified(updateTime: Option<int>, utcnow: int, store: DataModels, uuids: UuidSource,
                       ghost forest: map<Path, DataHelper>)
      returns (raised: bool)
      requires Forest(forest) && path in forest && forest[path] == this && isConfig
      modifies Lineage(forest, path), store, uuids
      decreases |path|
      ensures var time, top := updateTime.GetOr(utcnow), TopConfig(forest, path);
        && Versions(forest) == Stamped(old(Versions(forest)), path, top, time, old(uuids.issued))
        && uuids.issued == old(uuids.issued) + |path| - top + 1
        && store.lastModified == time && store.eTag == uuids.issued - 1
        && (raised <==> top > 1)
    {
      assert Linked(forest, path);
      ghost var before, issued, top := Versions(forest), uuids.issued, TopConfig(forest, path);
      lastModified := updateTime.GetOr(utcnow);
      eTag := uuids.Uuid4();
      store.UpdateDatastore(lastModified, eTag);
      ghost var stamped := before[path := Version(lastModified, issued)];
      assert Versions(forest) == stamped;
      raised := false;
      if parent != null {
        if parent.isConfig {
          LineageSplit(forest, path);
          assert parent.path == Up(path) && top == TopConfig(forest, Up(path));
          raised := parent.SetModified(Some(lastModified), utcnow, store, uuids, forest);
          return;
        }
        raised := true;
      }
      assert top == |path|;
    }

    /** The property setter: the same, at a time the caller chooses. */
    method SetLastModified(updateTime: int, utcnow: int, store: DataModels, uuids: UuidSource,
                           ghost forest: map<Path, DataHelper>)
      returns (raised: bool)
      requires Forest(forest) && path in forest && forest[path] == this && isConfig
      modifies Lineage(forest, path), store, uuids
      ensures var top := TopConfig(forest, path);
        && Versions(forest) == Stamped(old(Versions(forest)), path, top, updateTime, old(uuids.issued))
        && uuids.issued == old(uuids.issued) + |path| - top + 1
        && store.lastModified == updateTime && store.eTag == uuids.issued - 1
        && (raised <==> top > 1)
    {
      raised := SetModified(Some(updateTime), utcnow, store, uuids, forest);
    }
  }

  function Up(p: Path): Path
    requires p != []
  {
    p[..|p| - 1]
  }

  /** The helper filed under `p` is linked to the one filed one component up. */
  ghost predicate Linked(forest: map<Path, DataHelper>, p: Path)
    requires p in forest && p != []
  {
    if |p| == 1 then forest[p].parent == null
    else Up(p) in forest && forest[p].parent == forest[Up(p)]
  }

  /** Helpers filed under their paths, each linked to the helper one component up. */
  ghost predicate Forest(forest: map<Path, DataHelper>) {
    && (forall p :: p in forest ==> p != [] && forest[p].path == p)
    && (forall p {:trigger Linked(forest, p)} :: p in forest ==> Linked(forest, p))
  }

  ghost predicate ConfigBelowConfig(forest: map<Path, DataHelper>, p: Path)
    requires p in forest && p != []
  {
    Up(p) in forest && forest[p].isConfig ==> forest[Up(p)].isConfig
  }

  /** Every ancestor of a configuration helper is a configuration helper. */
  ghost predicate ConfigClosed(forest: map<Path, DataHelper>)
    requires Forest(forest)
  {
    forall p {:trigger ConfigBelowConfig(forest, p)} :: p in forest ==> ConfigBelowConfig(forest, p)
  }

  /** The helpers on the way up from `path`. */
  ghost function Lineage(forest: map<Path, DataHelper>, path: Path): set<DataHelper> {
    set p | p in forest && p <= path :: forest[p]
  }

  lemma LineageSplit(forest: map<Path, DataHelper>, path: Path)
    requires Forest(forest) && path in forest && |path| > 1
    ensures Lineage(forest, Up(path)) <= Lineage(forest, path)
  {}

  /** The depth of the top-most ancestor reached from `path` through configuration helpers only. */
  ghost function TopConfig(forest: map<Path, DataHelper>, path: Path): (top: nat)
    requires Forest(forest) && path in forest && forest[path].isConfig
    ensures 1 <= top <= |path|
    decreases |path|
  {
    assert Linked(forest, path);
    if |path| > 1 && forest[Up(path)].isConfig then TopConfig(forest, Up(path)) else |path|
  }

  /** What TopConfig measures: from there down to the helper all are configuration, just above none is. */
  lemma {:induction false} TopConfigMeaning(forest: map<Path, DataHelper>, path: Path, i: nat)
    requires Forest(forest) && path in forest && forest[path].isConfig && 0 < i <= |path|
    ensures path[..i] in forest
    ensures var top := TopConfig(forest, path);
      && (top <= i ==> forest[path[..i]].isConfig)
      && (i == top - 1 ==> !forest[path[..i]].isConfig)
    decreases |path|
  {
    assert Linked(forest, path);
    if i == |path| {
      assert path[..i] == path;
    } else if forest[Up(path)].isConfig {
      TopConfigMeaning(forest, Up(path), i);
      assert Up(path)[..i] == path[..i];
    } else {
      AncestorFiled(forest, path, i);
    }
  }

  lemma {:induction false} AncestorFiled(forest: map<Path, DataHelper>, path: Path, i: nat)
    requires Forest(forest) && path in forest && 0 < i <= |path|
    ensures path[..i] in forest
    decreases |path|
  {
    assert Linked(forest, path);
    if i == |path| {
      assert path[..i] == path;
    } else {
      AncestorFiled(forest, Up(path), i);
      assert Up(path)[..i] == path[..i];
    }
  }

  /** In a closed forest the climb always ends at the top of the tree, so it never raises. */
  lemma {:induction false} TopConfigOfClosed(forest: map<Path, DataHelper>, path: Path)
    requires Forest(forest) && ConfigClosed(forest) && path in forest && forest[path].isConfig
    ensures TopConfig(forest, path) == 1
    decreases |path|
  {
    assert Linked(forest, path) && ConfigBelowConfig(forest, path);
    if |path| > 1 {
      TopConfigOfClosed(forest, Up(path));
    }
  }

  /** The climb never raises from any configuration helper exactly when the forest is closed. */
  lemma NeverRaisesExactlyWhen(forest: map<Path, DataHelper>)
    requires Forest(forest)
    ensures ConfigClosed(forest)
       <==> forall p :: p in forest && forest[p].isConfig ==> TopConfig(forest, p) == 1
  {
    if ConfigClosed(forest) {
      forall p | p in forest && forest[p].isConfig ensures TopConfig(forest, p) == 1 {
        TopConfigOfClosed(forest, p);
      }
    }
    if forall p :: p in forest && forest[p].isConfig ==> TopConfig(forest, p) == 1 {
      forall p | p in forest ensures ConfigBelowConfig(forest, p) {
        if |p| > 1 && forest[p].isConfig {
          assert TopConfig(forest, p) == 1;
        }
      }
    }
  }

  /** The timestamps and tags of all helpers. */
  ghost function Versions(forest: map<Path, DataHelper>): map<Path, Version>
    reads forest.Values
  {
    map p | p in forest :: forest[p].Current()
  }

  /** The versions after stamping `path` and then, one by one, its ancestors down to depth `top`. */
  ghost function Stamped(versions: map<Path, Version>, path: Path, top: nat, time: int, issued: nat): map<Path, Version>
    requires 1 <= top <= |path|
    decreases |path|
  {
    var here := versions[path := Version(time, issued)];
    if |path| == top then here else Stamped(here, Up(path), top, time, issued + 1)
  }

  /** What the climb writes: exactly the helper and its ancestors from depth `top` on, all at the same
      time, each with a tag of its own that no one had before; every other helper is left alone. */
  lemma {:induction false} StampedExactly(versions: map<Path, Version>, path: Path, top: nat, time: int, issued: nat)
    requires 1 <= top <= |path|
    requires forall i :: top <= i <= |path| ==> path[..i] in versions
    ensures var after := Stamped(versions, path, top, time, issued);
      && after.Keys == versions.Keys
      && forall p :: p in versions ==>
           after[p] == if p <= path && |p| >= top then Version(time, issued + |path| - |p|) else versions[p]
    decreases |path|
  {
    assert path[..|path|] == path;
    if |path| > top {
      forall i | top <= i <= |path| - 1 ensures Up(path)[..i] == path[..i] {}
      StampedExactly(versions[path := Version(time, issued)], Up(path), top, time, issued + 1);
      forall p | p in versions && p <= path && p != path ensures p <= Up(path) {}
    } else {
      forall p | p in versions && p <= path && |p| >= top ensures p == path {
        assert p == path[..|p|];
      }
    }
  }

  /** The configuration resources, the datastore and the tag source as the reference model sees them. */
  ghost function Snapshot(forest: map<Path, DataHelper>, store: DataModels, uuids: UuidSource): Device
    reads forest.Values, store, uuids
  {
    ConfigView(forest, Versions(forest), Version(store.lastModified, store.eTag), uuids.issued)
  }

  ghost function ConfigView(forest: map<Path, DataHelper>, versions: map<Path, Version>, datastore: Version,
                            issued: nat): Device
    requires versions.Keys == forest.Keys
  {
    Device(map p | p in forest && forest[p].isConfig :: versions[p], datastore, issued)
  }

  /** Stamping up to the top of the tree is one edit of the reference model. */
  lemma StampingIsTouching(forest: map<Path, DataHelper>, versions: map<Path, Version>, datastore: Version,
                           issued: nat, path: Path, time: int)
    requires Forest(forest) && versions.Keys == forest.Keys && path in forest
    ensures Stamped(versions, path, 1, time, issued).Keys == forest.Keys
    ensures ConfigView(forest, Stamped(versions, path, 1, time, issued), Version(time, issued + |path| - 1), issued + |path|)
         == Touch(ConfigView(forest, versions, datastore, issued), Edit(path, time))
  {
    forall i | 1 <= i <= |path| ensures path[..i] in versions {
      AncestorFiled(forest, path, i);
    }
    StampedExactly(versions, path, 1, time, issued);
  }

  lemma AncestorsOfConfig(forest: map<Path, DataHelper>, p: Path, i: nat)
    requires Forest(forest) && ConfigClosed(forest) && p in forest && forest[p].isConfig && 0 < i <= |p|
    ensures p[..i] in forest && forest[p[..i]].isConfig
  {
    TopConfigOfClosed(forest, p);
    TopConfigMeaning(forest, p, i);
  }

  lemma SnapshotRooted(forest: map<Path, DataHelper>, store: DataModels, uuids: UuidSource)
    requires Forest(forest) && ConfigClosed(forest)
    ensures Rooted(Snapshot(forest, store, uuids))
  {
    var d := Snapshot(forest, store, uuids);
    forall p | p in d.nodes ensures HasAncestors(d, p) {
      forall i | 0 < i < |p| ensures p[..i] in d.nodes {
        AncestorsOfConfig(forest, p, i);
      }
    }
  }

  /** Freshly built helpers, which all still show the timestamp and tag of their class, are an initial
      state for the laws over runs. */
  lemma UntouchedSnapshot(forest: map<Path, DataHelper>, store: DataModels, uuids: UuidSource, shared: Version)
    requires Forest(forest) && ConfigClosed(forest) && shared.tag < uuids.issued
    requires forall p :: p in forest ==> forest[p].Current() == shared
    ensures Initial(Snapshot(forest, store, uuids), shared.tag)
    ensures Ordered(Snapshot(forest, store, uuids)) && NoneNewer(Snapshot(forest, store, uuids), shared.stamp)
  {
    SnapshotRooted(forest, store, uuids);
  }

  /** Only configuration helpers change, whatever is stamped. */
  lemma StampingKeepsStatus(forest: map<Path, DataHelper>, versions: map<Path, Version>, path: Path,
                            time: int, issued: nat)
    requires Forest(forest) && ConfigClosed(forest) && versions.Keys == forest.Keys
    requires path in forest && forest[path].isConfig
    ensures Stamped(versions, path, 1, time, issued).Keys == forest.Keys
    ensures forall p :: p in forest && !forest[p].isConfig ==> Stamped(versions, path, 1, time, issued)[p] == versions[p]
  {
    forall i | 1 <= i <= |path| ensures path[..i] in versions && forest[path[..i]].isConfig {
      AncestorsOfConfig(forest, path, i);
    }
    StampedExactly(versions, path, 1, time, issued);
    forall p | p in forest && p <= path ensures forest[p].isConfig {
      assert p == path[..|p|];
    }
  }

  /** One edit on the heap of a closed forest, through the setter when a time is given, is one edit of the
      reference model. */
  method EditOne(helper: DataHelper, updateTime: Option<int>, utcnow: int, store: DataModels, uuids: UuidSource,
                 ghost forest: map<Path, DataHelper>)
    returns (raised: bool)
    requires Forest(forest) && ConfigClosed(forest)
    requires helper.path in forest && forest[helper.path] == helper && helper.isConfig
    modifies Lineage(forest, helper.path), store, uuids
    ensures !raised
    ensures Snapshot(forest, store, uuids)
         == Touch(old(Snapshot(forest, store, uuids)), Edit(helper.path, updateTime.GetOr(utcnow)))
    ensures StatusOf(forest, Versions(forest)) == StatusOf(forest, old(Versions(forest)))
  {
    ghost var path, time := helper.path, updateTime.GetOr(utcnow);
    TopConfigOfClosed(forest, path);
    StampingIsTouching(forest, Versions(forest), Version(store.lastModified, store.eTag), uuids.issued, path, time);
    StampingKeepsStatus(forest, Versions(forest), path, time, uuids.issued);
    if updateTime.Some? {
      raised := helper.SetLastModified(updateTime.value, utcnow, store, uuids, forest);
    } else {
      raised := helper.SetModified(None, utcnow, store, uuids, forest);
    }
  }

  /** What the helpers that are not configuration show. */
  ghost function StatusOf(forest: map<Path, DataHelper>, versions: map<Path, Version>): map<Path, Version>
    requires versions.Keys == forest.Keys
  {
    map p | p in forest && !forest[p].isConfig :: versions[p]
  }

  lemma LineageInForest(forest: map<Path, DataHelper>, path: Path)
    ensures Lineage(forest, path) <= forest.Values
  {}

  ghost predicate ConfigHelpersOf(helpers: seq<DataHelper>, forest: map<Path, DataHelper>) {
    forall i :: 0 <= i < |helpers| ==>
      helpers[i].path in forest && forest[helpers[i].path] == helpers[i] && helpers[i].isConfig
  }

  /** The edits that a run of calls makes; a call without a time takes the clock's. */
  ghost function EditsOf(helpers: seq<DataHelper>, updates: seq<Option<int>>, clock: seq<int>): (r: seq<Edit>)
    requires |helpers| == |updates| == |clock|
    ensures |r| == |helpers|
    ensures forall i :: 0 <= i < |r| ==> r[i] == Edit(helpers[i].path, updates[i].GetOr(clock[i]))
  {
    seq(|helpers|, i requires 0 <= i < |helpers| => Edit(helpers[i].path, updates[i].GetOr(clock[i])))
  }

  /** A run of edits on the heap, at clock times and at chosen times, is the run of the reference model;
      none of them raises, and no status helper changes. */
  method EditAll(helpers: seq<DataHelper>, updates: seq<Option<int>>, clock: seq<int>,
                 store: DataModels, uuids: UuidSource, ghost forest: map<Path, DataHelper>)
    returns (raised: bool)
    requires Forest(forest) && ConfigClosed(forest) && |helpers| == |updates| == |clock|
    requires ConfigHelpersOf(helpers, forest)
    modifies forest.Values, store, uuids
    ensures !raised
    ensures var before, edits := old(Snapshot(forest, store, uuids)), EditsOf(helpers, updates, clock);
      && Rooted(before) && Legal(before, edits)
      && Snapshot(forest, store, uuids) == Run(before, edits)
    ensures StatusOf(forest, Versions(forest)) == StatusOf(forest, old(Versions(forest)))
  {
    ghost var edits, before := EditsOf(helpers, updates, clock), Snapshot(forest, store, uuids);
    SnapshotRooted(forest, store, uuids);
    assert edits[..0] == [];
    raised := false;
    for i := 0 to |helpers|
      invariant !raised
      invariant Snapshot(forest, store, uuids) == Run(before, edits[..i])
      invariant StatusOf(forest, Versions(forest)) == StatusOf(forest, old(Versions(forest)))
    {
      LineageInForest(forest, helpers[i].path);
      raised := EditOne(helpers[i], updates[i], clock[i], store, uuids, forest);
      assert edits[..i + 1][..i] == edits[..i];
      assert edits[..i + 1][i] == Edit(helpers[i].path, updates[i].GetOr(clock[i]));
    }
    assert edits[..|helpers|] == edits;
  }
}
