/** What a run of edits does to the timestamps and entity tags of a configuration tree: the reference
    model that RestconfConfigHelper.set_modified refines (DataHelper.dfy), and its laws over whole runs. */
module EditHistory {

  /** The component names from the top of the tree; a proper prefix is an ancestor. */
  type Path = seq<string>

  datatype Version = Version(stamp: int, tag: nat)

  /** The configuration resources, the datastore resource above them, and how many tags were handed out. */
  datatype Device = Device(nodes: map<Path, Version>, datastore: Version, issued: nat)

  datatype Edit = Edit(path: Path, time: int)

  /** Every node has a name and all its ancestors are nodes. */
  ghost predicate Rooted(d: Device) {
    && [] !in d.nodes
    && forall p {:trigger HasAncestors(d, p)} :: p in d.nodes ==> HasAncestors(d, p)
  }

  ghost predicate HasAncestors(d: Device, p: Path) {
    forall i :: 0 < i < |p| ==> p[..i] in d.nodes
  }

  ghost predicate Legal(d: Device, edits: seq<Edit>) {
    forall i :: 0 <= i < |edits| ==> edits[i].path in d.nodes
  }

  /** One edit: the node and its ancestors take the time and, from the node upwards, the next tags;
      the datastore takes the time and the last of these tags. */
  function Touch(d: Device, e: Edit): Device
    requires e.path != []
  {
    Device(
      map p | p in d.nodes ::
        if p <= e.path then Version(e.time, d.issued + |e.path| - |p|) else d.nodes[p],
      Version(e.time, d.issued + |e.path| - 1),
      d.issued + |e.path|)
  }

  function Run(d: Device, edits: seq<Edit>): (r: Device)
    requires Rooted(d) && Legal(d, edits)
    ensures r.nodes.Keys == d.nodes.Keys
  {
    if edits == [] then d else Touch(Run(d, edits[..|edits| - 1]), edits[|edits| - 1])
  }

  /** The position of the last edit of `p` or of something below it, -1 when there is none. */
  function LastEdit(edits: seq<Edit>, p: Path): (k: int)
    ensures -1 <= k < |edits|
    ensures k >= 0 ==> p <= edits[k].path
    ensures forall i :: k < i < |edits| ==> !(p <= edits[i].path)
  {
    if edits == [] then -1
    else if p <= edits[|edits| - 1].path then |edits| - 1
    else LastEdit(edits[..|edits| - 1], p)
  }

  lemma LastEditUnique(edits: seq<Edit>, p: Path, k: int)
    requires -1 <= k < |edits|
    requires k >= 0 ==> p <= edits[k].path
    requires forall i :: k < i < |edits| ==> !(p <= edits[i].path)
    ensures LastEdit(edits, p) == k
  {}

  /** How many tags have been handed out before edit `k`. */
  function IssuedBefore(d: Device, edits: seq<Edit>, k: nat): nat
    requires Rooted(d) && Legal(d, edits) && k <= |edits|
  {
    Run(d, edits[..k]).issued
  }

  lemma {:induction false} IssuedGrows(d: Device, edits: seq<Edit>, j: nat, k: nat)
    requires Rooted(d) && Legal(d, edits) && j < k <= |edits|
    ensures d.issued <= IssuedBefore(d, edits, j)
    ensures IssuedBefore(d, edits, j) + |edits[j].path| <= IssuedBefore(d, edits, k)
  {
    if j > 0 && k == j + 1 {
      IssuedGrows(d, edits, j - 1, j);
    }
    var last := edits[..k];
    assert last[..k - 1] == edits[..k - 1] && last[k - 1] == edits[k - 1];
    if j < k - 1 {
      IssuedGrows(d, edits, j, k - 1);
    }
  }

  /** A node's version after a run: that of its last edit at or below it, else the initial one. */
  ghost function VersionAfter(d: Device, edits: seq<Edit>, p: Path): Version
    requires Rooted(d) && Legal(d, edits) && p in d.nodes
  {
    var k := LastEdit(edits, p);
    if k < 0 then d.nodes[p]
    else Version(edits[k].time, IssuedBefore(d, edits, k) + |edits[k].path| - |p|)
  }

  /** After every run each node carries the time of the latest edit anywhere in its subtree and the
      tag drawn for it by that edit. */
  lemma {:induction false} RunClosedForm(d: Device, edits: seq<Edit>, p: Path)
    requires Rooted(d) && Legal(d, edits) && p in d.nodes
    ensures Run(d, edits).nodes[p] == VersionAfter(d, edits, p)
  {
    if edits != [] {
      var n := |edits| - 1;
      var init, last := edits[..n], edits[n];
      if !(p <= last.path) {
        RunClosedForm(d, init, p);
        var k := LastEdit(init, p);
        assert LastEdit(edits, p) == k;
        if k >= 0 {
          assert init[..k] == edits[..k];
        }
      }
    }
  }

  // ---------- Entity tags ----------

  /** Before any edit all nodes share the tag `t` of their class, which counts as handed out. */
  ghost predicate Initial(d: Device, t: nat) {
    && Rooted(d)
    && t < d.issued
    && forall p :: p in d.nodes ==> d.nodes[p].tag == t
  }

  lemma TagAt(d: Device, t: nat, edits: seq<Edit>, i: nat, p: Path)
    requires Initial(d, t) && Legal(d, edits) && i <= |edits| && p in d.nodes
    ensures var k := LastEdit(edits[..i], p);
      && (k < 0 ==> Run(d, edits[..i]).nodes[p].tag == t)
      && (k >= 0 ==> && p <= edits[k].path
                     && Run(d, edits[..i]).nodes[p].tag == IssuedBefore(d, edits, k) + |edits[k].path| - |p|
                     && d.issued <= IssuedBefore(d, edits, k))
  {
    RunClosedForm(d, edits[..i], p);
    var k := LastEdit(edits[..i], p);
    if k >= 0 {
      assert edits[..i][..k] == edits[..k];
      TagRange(d, edits, k, p);
    }
  }

  /** Over all nodes and all points of a run, two tags agree exactly when neither node was edited yet,
      or it is the same node seen after the same last edit of its subtree. */
  lemma {:induction false} TagsAgreeExactlyWhen(d: Device, t: nat, edits: seq<Edit>, i: nat, p: Path, j: nat, q: Path)
    requires Initial(d, t) && Legal(d, edits) && i <= |edits| && j <= |edits| && p in d.nodes && q in d.nodes
    ensures Run(d, edits[..i]).nodes[p].tag == Run(d, edits[..j]).nodes[q].tag
       <==> && LastEdit(edits[..i], p) == LastEdit(edits[..j], q)
            && (LastEdit(edits[..i], p) >= 0 ==> p == q)
  {
    TagAt(d, t, edits, i, p);
    TagAt(d, t, edits, j, q);
    var k, l := LastEdit(edits[..i], p), LastEdit(edits[..j], q);
    if 0 <= k < l {
      TagRange(d, edits, k, p);
      TagRange(d, edits, l, q);
      IssuedGrows(d, edits, k, l);
    } else if 0 <= l < k {
      TagRange(d, edits, k, p);
      TagRange(d, edits, l, q);
      IssuedGrows(d, edits, l, k);
    } else if 0 <= k == l {
      assert p == edits[k].path[..|p|] && q == edits[k].path[..|q|];
    }
  }

  lemma TagRange(d: Device, edits: seq<Edit>, k: nat, p: Path)
    requires Rooted(d) && Legal(d, edits) && k < |edits| && p in d.nodes && p <= edits[k].path
    ensures var issued := IssuedBefore(d, edits, k);
      d.issued <= issued <= issued + |edits[k].path| - |p| < issued + |edits[k].path|
  {
    IssuedGrows(d, edits, k, k + 1);
  }

  /** Between two points of a run a node's tag is unchanged exactly when neither it nor anything
      below it was edited in between. */
  lemma TagUnchangedExactlyWhen(d: Device, t: nat, edits: seq<Edit>, i: nat, j: nat, p: Path)
    requires Initial(d, t) && Legal(d, edits) && i <= j <= |edits| && p in d.nodes
    ensures Run(d, edits[..i]).nodes[p].tag == Run(d, edits[..j]).nodes[p].tag
       <==> forall k :: i <= k < j ==> !(p <= edits[k].path)
  {
    TagsAgreeExactlyWhen(d, t, edits, i, p, j, p);
    var k, l := LastEdit(edits[..i], p), LastEdit(edits[..j], p);
    if k == l {
      forall m | i <= m < j ensures !(p <= edits[m].path) {
        assert edits[..j][m] == edits[m];
      }
    }
    if forall m :: i <= m < j ==> !(p <= edits[m].path) {
      forall m | k < m < j ensures !(p <= edits[..j][m].path) {
        if m < i {
          assert edits[..i][m] == edits[m];
        }
      }
      LastEditUnique(edits[..j], p, k);
    }
  }

  /** After a run that ends with an edit the datastore has that edit's time and the tag of the
      top-most ancestor of the edited node. */
  lemma {:induction false} DatastoreFollowsTopmost(d: Device, edits: seq<Edit>)
    requires Rooted(d) && Legal(d, edits) && edits != []
    ensures var r, last := Run(d, edits), edits[|edits| - 1];
      last.path[..1] in r.nodes && r.datastore == r.nodes[last.path[..1]] && r.datastore.stamp == last.time
  {
    var last := edits[|edits| - 1];
    assert HasAncestors(d, last.path);
    if |last.path| == 1 {
      assert last.path[..1] == last.path;
    }
  }

  // ---------- Timestamps ----------

  /** No node is newer than one of its ancestors. */
  ghost predicate Ordered(d: Device) {
    forall p, q :: p in d.nodes && q in d.nodes && p <= q ==> d.nodes[q].stamp <= d.nodes[p].stamp
  }

  /** No node is newer than the datastore. */
  ghost predicate DatastoreNewest(d: Device) {
    forall p :: p in d.nodes ==> d.nodes[p].stamp <= d.datastore.stamp
  }

  /** An edit at an explicit time keeps ancestors at least as new as their descendants exactly when no
      node off the edited chain, but under the same top-level node, is newer than that time. */
  lemma TouchKeepsOrderExactlyWhen(d: Device, e: Edit)
    requires Rooted(d) && Ordered(d) && e.path in d.nodes
    ensures Ordered(Touch(d, e))
       <==> forall q :: q in d.nodes && q[0] == e.path[0] && !(q <= e.path) ==> d.nodes[q].stamp <= e.time
  {
    var r := Touch(d, e);
    var top := e.path[..1];
    assert top in d.nodes by {
      assert HasAncestors(d, e.path);
      if |e.path| == 1 { assert top == e.path; }
    }
    if Ordered(r) {
      forall q | q in d.nodes && q[0] == e.path[0] && !(q <= e.path) ensures d.nodes[q].stamp <= e.time {
        assert top <= q;
        assert r.nodes[q].stamp <= r.nodes[top].stamp;
      }
    }
  }

  /** The datastore stays at least as new as every node exactly when no node off the edited chain is newer. */
  lemma TouchKeepsDatastoreNewestExactlyWhen(d: Device, e: Edit)
    requires e.path in d.nodes && e.path != []
    ensures DatastoreNewest(Touch(d, e))
       <==> forall q :: q in d.nodes && !(q <= e.path) ==> d.nodes[q].stamp <= e.time
  {
    var r := Touch(d, e);
    assert forall q :: q in d.nodes ==> q in r.nodes;
  }

  /** The time a node ends up with: that of its last edit at or below it, else its initial one. */
  function LastTime(d: Device, edits: seq<Edit>, p: Path): int
    requires p in d.nodes
  {
    var k := LastEdit(edits, p);
    if k < 0 then d.nodes[p].stamp else edits[k].time
  }

  /** Edits below a node are edits below its ancestors. */
  lemma LastEditOfAncestor(edits: seq<Edit>, p: Path, q: Path)
    requires p <= q
    ensures LastEdit(edits, q) <= LastEdit(edits, p)
  {
    var l := LastEdit(edits, q);
    if l >= 0 {
      assert p <= edits[l].path;
    }
  }

  lemma StampAfter(d: Device, edits: seq<Edit>, p: Path)
    requires Rooted(d) && Legal(d, edits) && p in d.nodes
    ensures Run(d, edits).nodes[p].stamp == LastTime(d, edits, p)
  {
    RunClosedForm(d, edits, p);
  }

  /** An edit of `p` that no edit below `q` follows is at least as new as what `q` shows. */
  ghost predicate LastEditNewEnough(d: Device, edits: seq<Edit>, p: Path, q: Path)
    requires p in d.nodes && q in d.nodes
  {
    LastEdit(edits, q) < LastEdit(edits, p) ==> LastTime(d, edits, q) <= edits[LastEdit(edits, p)].time
  }

  lemma LastTimesOrderedExactlyWhen(d: Device, edits: seq<Edit>, p: Path, q: Path)
    requires Ordered(d) && p in d.nodes && q in d.nodes && p <= q
    ensures LastTime(d, edits, q) <= LastTime(d, edits, p) <==> LastEditNewEnough(d, edits, p, q)
  {
    LastEditOfAncestor(edits, p, q);
  }

  lemma PairOrderedExactlyWhen(d: Device, edits: seq<Edit>, r: Device, p: Path, q: Path)
    requires Rooted(d) && Legal(d, edits) && r == Run(d, edits)
    requires Ordered(d) && p in d.nodes && q in d.nodes && p <= q
    ensures r.nodes[q].stamp <= r.nodes[p].stamp <==> LastEditNewEnough(d, edits, p, q)
  {
    StampAfter(d, edits, p);
    StampAfter(d, edits, q);
    LastTimesOrderedExactlyWhen(d, edits, p, q);
  }

  /** After any run, at whatever times, no node is newer than its ancestors exactly when each ancestor's
      last edit is at least as new as the last edit, or the initial time, of every descendant that this
      edit came after. */
  lemma {:induction false} RunOrderedExactlyWhen(d: Device, edits: seq<Edit>, r: Device)
    requires Rooted(d) && Legal(d, edits) && r == Run(d, edits) && Ordered(d)
    ensures Ordered(r)
       <==> forall p, q :: p in d.nodes && q in d.nodes && p <= q ==> LastEditNewEnough(d, edits, p, q)
  {
    if Ordered(r) {
      forall p, q | p in d.nodes && q in d.nodes && p <= q ensures LastEditNewEnough(d, edits, p, q) {
        PairOrderedExactlyWhen(d, edits, r, p, q);
      }
    }
    if forall p, q :: p in d.nodes && q in d.nodes && p <= q ==> LastEditNewEnough(d, edits, p, q) {
      forall p, q | p in d.nodes && q in d.nodes && p <= q ensures r.nodes[q].stamp <= r.nodes[p].stamp {
        PairOrderedExactlyWhen(d, edits, r, p, q);
      }
    }
  }

  /** After any run with an edit the datastore is at least as new as every node exactly when its last
      edit is at least as new as the last edit, or the initial time, of every node off its chain. */
  lemma {:induction false} RunDatastoreNewestExactlyWhen(d: Device, edits: seq<Edit>)
    requires Rooted(d) && Legal(d, edits) && edits != []
    ensures var last := edits[|edits| - 1];
      DatastoreNewest(Run(d, edits))
      <==> forall p :: p in d.nodes && !(p <= last.path) ==> LastTime(d, edits, p) <= last.time
  {
    var r := Run(d, edits);
    TouchKeepsDatastoreNewestExactlyWhen(Run(d, edits[..|edits| - 1]), edits[|edits| - 1]);
    forall p | p in d.nodes ensures r.nodes[p].stamp == LastTime(d, edits, p) {
      StampAfter(d, edits, p);
    }
  }

  /** The clock of a run never goes backwards. */
  ghost predicate Monotone(start: int, edits: seq<Edit>) {
    && (forall i :: 0 <= i < |edits| ==> start <= edits[i].time)
    && (forall i, j :: 0 <= i < j < |edits| ==> edits[i].time <= edits[j].time)
  }

  ghost predicate NoneNewer(d: Device, time: int) {
    forall p :: p in d.nodes ==> d.nodes[p].stamp <= time
  }

  lemma LaterTouchStaysOrdered(d: Device, e: Edit)
    requires Rooted(d) && Ordered(d) && NoneNewer(d, e.time) && e.path in d.nodes
    ensures Ordered(Touch(d, e)) && NoneNewer(Touch(d, e), e.time)
  {
    TouchKeepsOrderExactlyWhen(d, e);
  }

  /** With such a clock no run makes a node newer than its ancestors, and from the first edit on the
      datastore is at least as new as every node. */
  lemma {:induction false} MonotoneRunStaysOrdered(d: Device, start: int, edits: seq<Edit>)
    requires Rooted(d) && Legal(d, edits)
    requires Ordered(d) && NoneNewer(d, start) && Monotone(start, edits)
    ensures Ordered(Run(d, edits))
    ensures NoneNewer(Run(d, edits), if edits == [] then start else edits[|edits| - 1].time)
    ensures edits != [] ==> DatastoreNewest(Run(d, edits))
  {
    if edits != [] {
      var n := |edits| - 1;
      var init, last := edits[..n], edits[n];
      MonotoneRunStaysOrdered(d, start, init);
      RunStaysRooted(d, init);
      LaterTouchStaysOrdered(Run(d, init), last);
    }
  }

  lemma RunStaysRooted(d: Device, edits: seq<Edit>)
    requires Rooted(d) && Legal(d, edits)
    ensures Rooted(Run(d, edits))
  {
    var r := Run(d, edits);
    forall p | p in r.nodes ensures HasAncestors(r, p) {
      assert HasAncestors(d, p);
    }
  }

  /** With such a clock a node's time is the latest of all edits at or below it, or its initial time. */
  lemma {:induction false} StampIsLatestBelow(d: Device, edits: seq<Edit>, p: Path)
    requires Rooted(d) && Legal(d, edits) && p in d.nodes && Monotone(d.nodes[p].stamp, edits)
    ensures var s := Run(d, edits).nodes[p].stamp;
      && (forall i :: 0 <= i < |edits| && p <= edits[i].path ==> edits[i].time <= s)
      && (s == d.nodes[p].stamp || exists i :: 0 <= i < |edits| && p <= edits[i].path && edits[i].time == s)
  {
    RunClosedForm(d, edits, p);
  }

  /** Setting an older time explicitly breaks both orders: the parent ends up older than the other child. */
  lemma OlderTimeBreaksOrder()
    ensures
      var v := Version(5, 0);
      var d := Device(map[["a"] := v, ["a", "b"] := v, ["a", "c"] := v], v, 1);
      var r := Touch(d, Edit(["a", "b"], 3));
      && Rooted(d) && Ordered(d) && DatastoreNewest(d)
      && r.nodes[["a"]].stamp < r.nodes[["a", "c"]].stamp
      && r.datastore.stamp < r.nodes[["a", "c"]].stamp
  {
    var p: Path := ["a"];
    var v := Version(5, 0);
    var d := Device(map[["a"] := v, ["a", "b"] := v, ["a", "c"] := v], v, 1);
    assert ["a", "b"][..1] == p && ["a", "c"][..1] == p;
    assert HasAncestors(d, ["a"]) && HasAncestors(d, ["a", "b"]) && HasAncestors(d, ["a", "c"]);
    assert !(["a", "c"] <= ["a", "b"]) by { assert ["a", "c"][1] != ["a", "b"][1]; }
  }
}
