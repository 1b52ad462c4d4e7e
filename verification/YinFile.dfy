/** `YINFile.get_extmethods`: the walk over a value dictionary in step with the YIN tree that builds one
    helper per known node and files it under its path text. */
module YinFiles {
  import opened Wrappers
  import opened Text
  import opened Counting
  import opened EditHistory
  import opened YinTree
  import opened DataHelpers
  import opened WalkOrders

  /** What the children of a helper inherit; without a helper the walk starts with config "true". */
  ghost predicate Inherits(parent: DataHelper?) { parent == null || parent.isConfig }

  ghost function BasePath(parent: DataHelper?): Path {
    if parent == null then [] else parent.path
  }

  /** `h` carries the schema node of `p`, is a configuration helper exactly by the inheritance rule,
      and knows its own path. */
  ghost predicate RightHelper(h: DataHelper, s: Scope, parent: DataHelper?, p: Path) {
    && Known(s, p)
    && h.yinNode == Locate(s, p).value
    && h.isConfig == (Inherits(parent) && ConfigOn(s, p))
    && h.path == BasePath(parent) + p
  }

  /** The parent of the helper at `p` is the helper at `p` without its last component. */
  ghost predicate RightParent(built: map<Path, DataHelper>, parent: DataHelper?, p: Path)
    requires p in built && p != []
  {
    if |p| == 1 then built[p].parent == parent
    else Up(p) in built && built[p].parent == built[Up(p)]
  }

  /** `built` has exactly the known paths that start with a key in `done`, each with the right helper. */
  ghost predicate Describes(built: map<Path, DataHelper>, s: Scope, parent: DataHelper?, done: set<string>) {
    && (forall p {:trigger p in built} {:trigger Known(s, p)} :: p in built <==> Known(s, p) && p[0] in done)
    && (forall p {:trigger built[p]} :: p in built ==> RightHelper(built[p], s, parent, p))
    && (forall p {:trigger RightParent(built, parent, p)} :: p in built ==> RightParent(built, parent, p))
  }

  /** `helpers` files every built helper under its text, and nothing else. */
  ghost predicate Filed(helpers: map<string, DataHelper>, built: map<Path, DataHelper>, base: string) {
    && (forall p :: p in built ==> base + PathText(p) in helpers)
    && (forall t :: t in helpers ==> FiledUnder(helpers[t], built, base, t))
  }

  ghost predicate FiledUnder(h: DataHelper, built: map<Path, DataHelper>, base: string, t: string) {
    exists p :: p in built && t == base + PathText(p) && h == built[p]
  }

  /** `helpers` has exactly the texts of `w`, each with the helper built for the path that `w` leaves there. */
  ghost predicate FiledBy(helpers: map<string, DataHelper>, built: map<Path, DataHelper>, base: string,
                          w: map<string, Path>) {
    TextsFrom(helpers, base, w) && Leaves(helpers, built, base, w)
  }

  ghost predicate TextsFrom(helpers: map<string, DataHelper>, base: string, w: map<string, Path>) {
    forall t :: t in helpers ==> exists u :: u in w && t == base + u
  }

  ghost predicate Leaves(helpers: map<string, DataHelper>, built: map<Path, DataHelper>, base: string,
                         w: map<string, Path>) {
    forall u :: u in w ==> base + u in helpers && w[u] in built && helpers[base + u] == built[w[u]]
  }

  // ---------- One step of the walk ----------

  ghost function Prefixed(key: string, sub: map<Path, DataHelper>): (r: map<Path, DataHelper>)
    ensures forall p :: p in r <==> p != [] && p[0] == key && p[1..] in sub
    ensures forall p :: p in r ==> r[p] == sub[p[1..]]
  {
    var keys := set q | q in sub :: [key] + q;
    assert forall q :: q in sub ==> ([key] + q)[1..] == q;
    assert forall p :: p in keys ==> p == [key] + p[1..];
    assert forall p: Path :: p != [] && p[0] == key && p[1..] in sub ==> p == [key] + p[1..];
    map p | p in keys :: sub[p[1..]]
  }

  /** What the walk builds for one known key: its own helper and, below it, those of the recursive call. */
  ghost function OneKey(key: string, h: DataHelper, sub: map<Path, DataHelper>): map<Path, DataHelper> {
    Prefixed(key, sub)[[key] := h]
  }

  /** The helper the walk makes for a known key. */
  ghost predicate MadeFor(h: DataHelper, s: Scope, parent: DataHelper?, key: string)
    requires s.Knows(key)
  {
    && h.yinNode == s.Below(key).node
    && h.isConfig == (Inherits(parent) && !SaysFalse(s.ns, h.yinNode))
    && h.path == BasePath(parent) + [key]
    && h.parent == parent
  }

  lemma MadeIsRight(h: DataHelper, s: Scope, parent: DataHelper?, key: string)
    requires s.Knows(key) && MadeFor(h, s, parent, key)
    ensures RightHelper(h, s, parent, [key])
  {
    LocateStep(s, key, []);
    ConfigOnStep(s, key, []);
    assert [key] + [] == [key];
  }

  lemma ConcatAssociates(a: Path, b: Path, c: Path)
    ensures (a + b) + c == a + (b + c)
  {}

  lemma BelowIsRight(g: DataHelper, s: Scope, parent: DataHelper?, key: string, h: DataHelper, q: Path)
    requires s.Knows(key) && MadeFor(h, s, parent, key) && RightHelper(g, s.Below(key), h, q)
    ensures RightHelper(g, s, parent, [key] + q)
  {
    LocateStep(s, key, q);
    ConfigOnStep(s, key, q);
    ConcatAssociates(BasePath(parent), [key], q);
  }

  lemma BelowHasParent(all: map<Path, DataHelper>, parent: DataHelper?, key: string, h: DataHelper,
                       sub: map<Path, DataHelper>, q: Path)
    requires q in sub && q != [] && RightParent(sub, h, q)
    requires [key] in all && all[[key]] == h
    requires [key] + q in all && all[[key] + q] == sub[q]
    requires |q| > 1 ==> [key] + Up(q) in all && all[[key] + Up(q)] == sub[Up(q)]
    ensures RightParent(all, parent, [key] + q)
  {
    if |q| > 1 {
      assert Up([key] + q) == [key] + Up(q);
    } else {
      assert Up([key] + q) == [key];
    }
  }

  lemma OneKeyBelow(key: string, h: DataHelper, sub: map<Path, DataHelper>, q: Path)
    requires q in sub && q != []
    ensures [key] + q in OneKey(key, h, sub) && OneKey(key, h, sub)[[key] + q] == sub[q]
  {
    assert ([key] + q)[1..] == q;
  }

  lemma EntryOfKey(s: Scope, parent: DataHelper?, key: string, h: DataHelper, sub: map<Path, DataHelper>, p: Path)
    requires s.Knows(key) && MadeFor(h, s, parent, key)
    requires Describes(sub, s.Below(key), h, s.Below(key).Keys())
    requires p == [key] || (p != [] && p[0] == key && p[1..] in sub)
    ensures var all := OneKey(key, h, sub);
      p in all && RightHelper(all[p], s, parent, p) && RightParent(all, parent, p)
  {
    if p == [key] {
      MadeIsRight(h, s, parent, key);
    } else {
      var q := p[1..];
      assert p == [key] + q;
      assert RightParent(sub, h, q);
      BelowIsRight(sub[q], s, parent, key, h, q);
      OneKeyBelow(key, h, sub, q);
      if |q| > 1 {
        OneKeyBelow(key, h, sub, Up(q));
      }
      BelowHasParent(OneKey(key, h, sub), parent, key, h, sub, q);
    }
  }

  lemma KnownBelow(s: Scope, key: string, p: Path)
    requires s.Knows(key) && p != [] && p[0] == key
    ensures Known(s, p) <==> p == [key] || (Known(s.Below(key), p[1..]) && p[1..][0] in s.Below(key).Keys())
  {
    assert p == [key] + p[1..];
    LocateStep(s, key, p[1..]);
  }

  /** The new helper and the recursive result describe exactly the paths below one known key. */
  lemma DescribesKey(s: Scope, parent: DataHelper?, key: string, h: DataHelper, sub: map<Path, DataHelper>)
    requires s.Knows(key) && MadeFor(h, s, parent, key)
    requires Describes(sub, s.Below(key), h, s.Below(key).Keys())
    ensures Describes(OneKey(key, h, sub), s, parent, {key})
  {
    var all := OneKey(key, h, sub);
    forall p ensures p in all <==> Known(s, p) && p[0] in {key} {
      if p != [] && p[0] == key {
        KnownBelow(s, key, p);
      }
    }
    forall p | p in all ensures RightHelper(all[p], s, parent, p) && RightParent(all, parent, p) {
      EntryOfKey(s, parent, key, h, sub, p);
    }
  }

  lemma DescribesUnion(built: map<Path, DataHelper>, more: map<Path, DataHelper>, s: Scope, parent: DataHelper?,
                       done: set<string>, key: string)
    requires Describes(built, s, parent, done) && Describes(more, s, parent, {key}) && key !in done
    ensures Describes(built + more, s, parent, done + {key})
  {
    var all := built + more;
    forall p | p in all ensures RightParent(all, parent, p) {
      if p in more {
        assert RightParent(more, parent, p);
      } else {
        assert RightParent(built, parent, p);
        assert |p| > 1 ==> Up(p)[0] == p[0];
      }
    }
  }

  lemma BaseBelow(base: string, key: string, u: string)
    ensures base + ("/" + key + u) == base + "/" + key + u
  {}

  /** What the recursive call files, seen from one key above. */
  lemma LeavesBelow(base: string, key: string, h: DataHelper, subHelpers: map<string, DataHelper>,
                    sub: map<Path, DataHelper>, w: map<string, Path>)
    requires Leaves(subHelpers, sub, base + "/" + key, w) && [] !in sub
    ensures Leaves(subHelpers, OneKey(key, h, sub), base, Prepend(key, w))
  {
    forall v | v in Prepend(key, w)
      ensures var p := Prepend(key, w)[v];
        base + v in subHelpers && p in OneKey(key, h, sub) && subHelpers[base + v] == OneKey(key, h, sub)[p]
    {
      var u :| u in w && v == "/" + key + u;
      BaseBelow(base, key, u);
      OneKeyBelow(key, h, sub, w[u]);
    }
  }

  lemma TextsBelow(base: string, key: string, subHelpers: map<string, DataHelper>, w: map<string, Path>)
    requires TextsFrom(subHelpers, base + "/" + key, w)
    ensures TextsFrom(subHelpers, base, Prepend(key, w))
  {
    forall x | x in subHelpers ensures exists v :: v in Prepend(key, w) && x == base + v {
      var u :| u in w && x == base + "/" + key + u;
      BaseBelow(base, key, u);
      assert "/" + key + u in Prepend(key, w);
    }
  }

  lemma FiledByBelow(base: string, key: string, h: DataHelper, subHelpers: map<string, DataHelper>,
                     sub: map<Path, DataHelper>, w: map<string, Path>)
    requires FiledBy(subHelpers, sub, base + "/" + key, w) && [] !in sub
    ensures FiledBy(subHelpers, OneKey(key, h, sub), base, Prepend(key, w))
  {
    LeavesBelow(base, key, h, subHelpers, sub, w);
    TextsBelow(base, key, subHelpers, w);
  }

  /** What the walk files for one known key: its own helper, and over it what the recursive call filed. */
  lemma FiledByKey(base: string, key: string, built: map<Path, DataHelper>, subHelpers: map<string, DataHelper>,
                   w: map<string, Path>)
    requires [key] in built && FiledBy(subHelpers, built, base, w)
    ensures FiledBy(map[base + "/" + key := built[[key]]] + subHelpers, built, base, map["/" + key := [key]] + w)
  {
    assert base + "/" + key == base + ("/" + key);
    FiledByOne(base, "/" + key, base + "/" + key, built[[key]], [key], built);
    FiledByOver(map[base + "/" + key := built[[key]]], map["/" + key := [key]], subHelpers, w, built, base);
  }

  lemma FiledByOne(base: string, u: string, t: string, h: DataHelper, p: Path, built: map<Path, DataHelper>)
    requires t == base + u && p in built && built[p] == h
    ensures FiledBy(map[t := h], built, base, map[u := p])
  {
    assert u in map[u := p];
  }

  lemma FiledByOver(helpers: map<string, DataHelper>, w: map<string, Path>,
                    moreHelpers: map<string, DataHelper>, moreW: map<string, Path>,
                    built: map<Path, DataHelper>, base: string)
    requires FiledBy(helpers, built, base, w) && FiledBy(moreHelpers, built, base, moreW)
    ensures FiledBy(helpers + moreHelpers, built, base, w + moreW)
  {
    var filed, both := helpers + moreHelpers, w + moreW;
    forall x | x in filed ensures exists u :: u in both && x == base + u {
      if x in moreHelpers {
        var u :| u in moreW && x == base + u;
        assert u in both;
      } else {
        var u :| u in w && x == base + u;
        assert u in both;
      }
    }
    forall u | u in both ensures base + u in filed && both[u] in built && filed[base + u] == built[both[u]] {
      if u !in moreW && base + u in moreHelpers {
        var v :| v in moreW && base + u == base + v;
        SameTail(base, u, v);
      }
    }
  }

  lemma FiledByMore(helpers: map<string, DataHelper>, built: map<Path, DataHelper>, all: map<Path, DataHelper>,
                    base: string, w: map<string, Path>)
    requires FiledBy(helpers, built, base, w)
    requires forall p :: p in built ==> p in all && all[p] == built[p]
    ensures FiledBy(helpers, all, base, w)
  {}

  lemma FiledByUnion(helpers: map<string, DataHelper>, built: map<Path, DataHelper>, w: map<string, Path>,
                     moreHelpers: map<string, DataHelper>, more: map<Path, DataHelper>, moreW: map<string, Path>,
                     base: string)
    requires FiledBy(helpers, built, base, w) && FiledBy(moreHelpers, more, base, moreW) && built.Keys !! more.Keys
    ensures FiledBy(helpers + moreHelpers, built + more, base, w + moreW)
  {
    FiledByMore(helpers, built, built + more, base, w);
    FiledByMore(moreHelpers, more, built + more, base, moreW);
    FiledByOver(helpers, w, moreHelpers, moreW, built + more, base);
  }

  /** Where the walk stands after the keys in `done`: no crash among them, all their paths built, and
      under each text the helper of the path that `w` leaves there. */
  ghost predicate Walked(helpers: map<string, DataHelper>, built: map<Path, DataHelper>, s: Scope,
                         parent: DataHelper?, base: string, done: set<string>, w: map<string, Path>) {
    && Describes(built, s, parent, done)
    && FiledBy(helpers, built, base, w)
    && !CrashIn(s, Inherits(parent), done)
  }

  lemma WalkedOneMore(helpers: map<string, DataHelper>, built: map<Path, DataHelper>, s: Scope, parent: DataHelper?,
                      base: string, turns: seq<Turn>, i: nat,
                      moreHelpers: map<string, DataHelper>, more: map<Path, DataHelper>)
    requires i < |turns| && Distinct(turns)
    requires Walked(helpers, built, s, parent, base, KeysOf(turns[..i]), Outcome(s, turns[..i]))
    requires Walked(moreHelpers, more, s, parent, base, {turns[i].key}, TurnOutcome(s, turns[i]))
    ensures Walked(helpers + moreHelpers, built + more, s, parent, base,
                   KeysOf(turns[..i + 1]), Outcome(s, turns[..i + 1]))
  {
    var done, key := KeysOf(turns[..i]), turns[i].key;
    KeysOneMore(turns, i);
    TakeOneMore(turns, i);
    DescribesUnion(built, more, s, parent, done, key);
    KeysApart(built, more, s, parent, done, key);
    FiledByUnion(helpers, built, Outcome(s, turns[..i]), moreHelpers, more, TurnOutcome(s, turns[i]), base);
    CrashInUnion(s, Inherits(parent), done, {key});
    assert turns[..i + 1][..i] == turns[..i];
  }

  lemma WalkedNone(s: Scope, parent: DataHelper?, base: string, turns: seq<Turn>)
    ensures Walked(map[], map[], s, parent, base, KeysOf(turns[..0]), Outcome(s, turns[..0]))
  {
    assert KeysOf(turns[..0]) == {};
  }

  lemma WalkedAll(helpers: map<string, DataHelper>, built: map<Path, DataHelper>, s: Scope, parent: DataHelper?,
                  base: string, turns: seq<Turn>)
    requires KeysOf(turns) == s.Keys()
    requires Walked(helpers, built, s, parent, base, KeysOf(turns[..|turns|]), Outcome(s, turns[..|turns|]))
    ensures Describes(built, s, parent, s.Keys()) && FiledBy(helpers, built, base, Outcome(s, turns))
    ensures !CrashIn(s, Inherits(parent), s.Keys())
  {
    assert turns[..|turns|] == turns;
  }

  lemma KeysOneMore(turns: seq<Turn>, i: nat)
    requires i < |turns| && Distinct(turns)
    ensures turns[i].key !in KeysOf(turns[..i])
    ensures KeysOf(turns[..i + 1]) == KeysOf(turns[..i]) + {turns[i].key}
  {
    forall k | k in KeysOf(turns[..i]) + {turns[i].key} ensures k in KeysOf(turns[..i + 1]) {
      if k == turns[i].key {
        assert turns[..i + 1][i].key == k;
      } else {
        var j :| 0 <= j < i && turns[..i][j].key == k;
        assert turns[..i + 1][j].key == k;
      }
    }
  }

  lemma KeysApart(built: map<Path, DataHelper>, more: map<Path, DataHelper>, s: Scope, parent: DataHelper?,
                  done: set<string>, key: string)
    requires Describes(built, s, parent, done) && Describes(more, s, parent, {key}) && key !in done
    ensures built.Keys !! more.Keys
  {
    forall p | p in built ensures p !in more {
      assert p[0] in done;
    }
  }

  lemma WalkedKey(s: Scope, parent: DataHelper?, base: string, t: Turn, h: DataHelper,
                  subHelpers: map<string, DataHelper>, sub: map<Path, DataHelper>)
    requires s.Knows(t.key) && MadeFor(h, s, parent, t.key) && !CrashIn(s, Inherits(parent), {t.key})
    requires Describes(sub, s.Below(t.key), h, s.Below(t.key).Keys())
    requires FiledBy(subHelpers, sub, base + "/" + t.key, Outcome(s.Below(t.key), t.below.turns))
    ensures Walked(map[base + "/" + t.key := h] + subHelpers, OneKey(t.key, h, sub), s, parent, base,
                   {t.key}, TurnOutcome(s, t))
  {
    DescribesKey(s, parent, t.key, h, sub);
    var w := Outcome(s.Below(t.key), t.below.turns);
    FiledByBelow(base, t.key, h, subHelpers, sub, w);
    FiledByKey(base, t.key, OneKey(t.key, h, sub), subHelpers, Prepend(t.key, w));
  }

  lemma MergeAssociates(helpers: map<string, DataHelper>, t: string, h: DataHelper, more: map<string, DataHelper>)
    ensures helpers[t := h] + more == helpers + (map[t := h] + more)
  {}

  lemma WalkedUnknownKey(s: Scope, parent: DataHelper?, base: string, t: Turn)
    requires !s.Knows(t.key)
    ensures Walked(map[], map[], s, parent, base, {t.key}, TurnOutcome(s, t))
  {
    CrashInKey(s, Inherits(parent), t.key);
  }

  /** The dictionary files every built helper's text, and nothing else. */
  lemma FiledByIsFiled(helpers: map<string, DataHelper>, built: map<Path, DataHelper>, s: Scope,
                       parent: DataHelper?, base: string, order: Order)
    requires Describes(built, s, parent, s.Keys()) && Orders(order, s)
    requires FiledBy(helpers, built, base, Outcome(s, order.turns))
    ensures Filed(helpers, built, base)
  {
    var w := Outcome(s, order.turns);
    OutcomeSound(s, order.turns);
    forall p | p in built ensures base + PathText(p) in helpers {
      assert Known(s, p);
      OutcomeComplete(s, order, p);
    }
    forall t | t in helpers ensures FiledUnder(helpers[t], built, base, t) {
      var u :| u in w && t == base + u;
      assert w[u] in built && PathText(w[u]) == u;
    }
  }

  class YinFile {
    const root: Element
    const ns: Option<string>

    constructor (root: Element)
      ensures this.root == root && ns == NamespaceOf(root)
    {
      this.root := root;
      this.ns := NamespaceOf(root);
    }

    /** The config flag of a node; its own statement is looked at only where config "true" is inherited. */
    method ConfigOf(keyNode: Element, inherited: bool) returns (raised: bool, config: bool)
      ensures raised <==> inherited && BadConfig(ns, keyNode)
      ensures !raised ==> config == (inherited && !SaysFalse(ns, keyNode))
    {
      raised, config := false, inherited;
      if config {
        var configNode := ConfigStatement(ns, keyNode);
        if configNode.Some? && "value" !in configNode.value.attrib {
          return true, false;
        }
        config := configNode.None? || Lower(configNode.value.attrib["value"]) != "false";
      }
    }

    /** `order` is the order in which the dictionaries list their keys, whatever it is. Raises when a config
        statement that has to be read carries no value; otherwise the built helpers are the ones Describes
        says under every order, and each text is left to the path that Outcome says for this one. */
    method GetExtmethods(value: Value, order: Order, node: Option<Element>, pathBase: string,
                         parentHelper: DataHelper?, shared: Version)
      returns (raised: bool, extmethods: map<string, DataHelper>, ghost built: map<Path, DataHelper>)
      requires Orders(order, Scope(ns, value, node.GetOr(root)))
      decreases value, 1
      ensures var s := Scope(ns, value, node.GetOr(root));
        && (raised <==> Crashes(s, Inherits(parentHelper)))
        && (raised ==> extmethods == map[] && built == map[])
        && (!raised ==> Describes(built, s, parentHelper, s.Keys())
                        && FiledBy(extmethods, built, pathBase, Outcome(s, order.turns)))
      ensures forall p :: p in built ==> fresh(built[p]) && built[p].Current() == shared
    {
      raised, extmethods, built := false, map[], map[];
      ghost var s, turns := Scope(ns, value, node.GetOr(root)), order.turns;
      CrashesInSomeKey(s, Inherits(parentHelper));
      if !value.Dict? {
        TurnsHaveKeys(turns);
        return;
      }
      WalkedNone(s, parentHelper, pathBase, turns);
      for i := 0 to |order.turns|
        invariant !raised
        invariant Walked(extmethods, built, s, parentHelper, pathBase, KeysOf(turns[..i]), Outcome(s, turns[..i]))
        invariant forall p :: p in built ==> fresh(built[p]) && built[p].Current() == shared
      {
        assert order.turns[i].key in KeysOf(turns) && BelowOrdered(turns[i], s);
        var keyRaised, updated, added, more :=
          WalkKey(value, node.GetOr(root), order.turns[i], pathBase, parentHelper, shared, extmethods);
        if keyRaised {
          CrashInAll(s, Inherits(parentHelper), {turns[i].key});
          return true, map[], map[];
        }
        WalkedOneMore(extmethods, built, s, parentHelper, pathBase, turns, i, added, more);
        extmethods, built := updated, built + more;
      }
      WalkedAll(extmethods, built, s, parentHelper, pathBase, turns);
    }

    /** The walk for one key: its helper and those below it join the dictionary, the latter last. */
    method WalkKey(value: Value, n: Element, turn: Turn, pathBase: string, parentHelper: DataHelper?,
                   shared: Version, extmethods: map<string, DataHelper>)
      returns (raised: bool, updated: map<string, DataHelper>,
               ghost added: map<string, DataHelper>, ghost built: map<Path, DataHelper>)
      requires value.Dict? && turn.key in value.items && BelowOrdered(turn, Scope(ns, value, n))
      decreases value, 0
      ensures var s := Scope(ns, value, n);
        && (raised <==> CrashIn(s, Inherits(parentHelper), {turn.key}))
        && (!raised ==> && Walked(added, built, s, parentHelper, pathBase, {turn.key}, TurnOutcome(s, turn))
                        && updated == extmethods + added)
      ensures forall p :: p in built ==> fresh(built[p]) && built[p].Current() == shared
    {
      raised, updated, added, built := false, extmethods, map[], map[];
      ghost var s := Scope(ns, value, n);
      var key := turn.key;
      CrashInKey(s, Inherits(parentHelper), key);
      var path := pathBase + "/" + key;
      var keyNode := Child(ns, n, key);
      if keyNode.None? {
        WalkedUnknownKey(s, parentHelper, pathBase, turn);
        return;
      }
      var badConfig, config := ConfigOf(keyNode.value, parentHelper == null || parentHelper.isConfig);
      if badConfig {
        raised := true;
        return;
      }
      var helper := new DataHelper(keyNode.value, parentHelper, config, shared);
      updated := updated[path := helper];
      var subRaised, subHelpers, sub :=
        GetExtmethods(value.items[key], turn.below, keyNode, path, helper, shared);
      if subRaised {
        raised := true;
        return;
      }
      updated := updated + subHelpers;
      MergeAssociates(extmethods, path, helper, subHelpers);
      WalkedKey(s, parentHelper, pathBase, turn, helper, subHelpers, sub);
      added, built := map[path := helper] + subHelpers, OneKey(key, helper, sub);
    }
  }

  lemma CrashInAll(s: Scope, inherited: bool, keys: set<string>)
    requires CrashIn(s, inherited, keys)
    ensures Crashes(s, inherited)
  {}

  // ---------- What the whole walk yields ----------

  /** Every built helper is a configuration helper exactly when what it inherits is config "true" and no
      schema node on the way, itself included, says config "false". */
  lemma ConfigFollowsRule(built: map<Path, DataHelper>, s: Scope, parent: DataHelper?, p: Path)
    requires Describes(built, s, parent, s.Keys()) && p in built
    ensures built[p].isConfig <==> Inherits(parent) && forall i :: 0 < i <= |p| ==> !OffAt(s, p[..i])
  {
    assert RightHelper(built[p], s, parent, p);
    ConfigExactlyWhen(s, p);
  }

  /** A walk from the root builds exactly the known paths, and links every helper under its ancestors. */
  lemma WalkFromRootIsForest(built: map<Path, DataHelper>, s: Scope)
    requires Describes(built, s, null, s.Keys())
    ensures forall p :: p in built <==> Known(s, p)
    ensures Forest(built)
  {
    forall p | p in built ensures p != [] && built[p].path == p {
      assert RightHelper(built[p], s, null, p);
      assert [] + p == p;
    }
    forall p | p in built ensures Linked(built, p) {
      assert RightParent(built, null, p);
    }
  }

  /** In a tree built from the root all ancestors of a configuration helper are configuration helpers,
      so that set_modified never raises. */
  lemma WalkFromRootIsClosed(built: map<Path, DataHelper>, s: Scope)
    requires Describes(built, s, null, s.Keys())
    ensures Forest(built) && ConfigClosed(built)
    ensures forall p :: p in built && built[p].isConfig ==> TopConfig(built, p) == 1
  {
    WalkFromRootIsForest(built, s);
    forall p | p in built ensures ConfigBelowConfig(built, p) {
      if built[p].isConfig && Up(p) in built {
        ConfigPassesDown(built, s, null, p);
      }
    }
    NeverRaisesExactlyWhen(built);
  }

  lemma ConfigPassesDown(built: map<Path, DataHelper>, s: Scope, parent: DataHelper?, p: Path)
    requires Describes(built, s, parent, s.Keys()) && p in built && p != [] && Up(p) in built
    requires built[p].isConfig
    ensures built[Up(p)].isConfig
  {
    assert RightHelper(built[p], s, parent, p);
    assert RightHelper(built[Up(p)], s, parent, Up(p));
    ConfigOnPrefix(s, p, |p| - 1);
  }

  /** The built paths are closed under dropping components at the end. */
  lemma BuiltPrefixClosed(built: map<Path, DataHelper>, s: Scope, parent: DataHelper?, p: Path, i: nat)
    requires Describes(built, s, parent, s.Keys()) && p in built && 0 < i <= |p|
    ensures p[..i] in built
  {
    LocatePrefixClosed(s, p, i);
    assert Known(s, p[..i]);
  }

  lemma SameTail(base: string, a: string, b: string)
    requires base + a == base + b
    ensures a == b
  {
    assert a == (base + a)[|base|..] == (base + b)[|base|..] == b;
  }

  lemma FiledImage(helpers: map<string, DataHelper>, built: map<Path, DataHelper>, base: string)
    requires Filed(helpers, built, base)
    ensures helpers.Keys == Image(built.Keys, (p: Path) => base + PathText(p))
  {
    var f := (p: Path) => base + PathText(p);
    forall t | t in helpers ensures t in Image(built.Keys, f) {
      assert FiledUnder(helpers[t], built, base, t);
    }
  }

  lemma InjectiveExactlyWhen(built: map<Path, DataHelper>, s: Scope, parent: DataHelper?, base: string)
    requires Describes(built, s, parent, s.Keys())
    ensures InjectiveOn(built.Keys, (p: Path) => base + PathText(p)) <==> KnownTextsDiffer(s)
  {
    var f := (p: Path) => base + PathText(p);
    KnownIsBuilt(built, s, parent);
    if InjectiveOn(built.Keys, f) {
      forall p, q | Known(s, p) && Known(s, q) && PathText(p) == PathText(q) ensures p == q {
        assert f(p) == f(q);
      }
    }
    if KnownTextsDiffer(s) {
      forall p, q | p in built && q in built && f(p) == f(q) ensures p == q {
        SameTail(base, PathText(p), PathText(q));
      }
    }
  }

  lemma KnownIsBuilt(built: map<Path, DataHelper>, s: Scope, parent: DataHelper?)
    requires Describes(built, s, parent, s.Keys())
    ensures forall p :: p in built <==> Known(s, p)
  {}

  /** The dictionary never has more entries than there are built helpers, and one for each, nothing
      overwritten, exactly when no two known paths share a text. */
  lemma NothingOverwrittenExactlyWhen(helpers: map<string, DataHelper>, built: map<Path, DataHelper>, s: Scope,
                                      parent: DataHelper?, base: string)
    requires Describes(built, s, parent, s.Keys()) && Filed(helpers, built, base)
    ensures |helpers| <= |built|
    ensures |helpers| == |built| <==> KnownTextsDiffer(s)
  {
    ImageSize(built.Keys, (p: Path) => base + PathText(p));
    FiledImage(helpers, built, base);
    InjectiveExactlyWhen(built, s, parent, base);
    assert |helpers.Keys| == |helpers| && |built.Keys| == |built|;
  }

  /** Then every helper is found under its own text. */
  lemma EachUnderItsText(helpers: map<string, DataHelper>, built: map<Path, DataHelper>, s: Scope,
                         parent: DataHelper?, base: string, p: Path)
    requires Describes(built, s, parent, s.Keys()) && Filed(helpers, built, base) && p in built
    requires KnownTextsDiffer(s)
    ensures base + PathText(p) in helpers && helpers[base + PathText(p)] == built[p]
  {
    assert FiledUnder(helpers[base + PathText(p)], built, base, base + PathText(p));
    var q :| q in built && base + PathText(p) == base + PathText(q) && helpers[base + PathText(p)] == built[q];
    SameTail(base, PathText(p), PathText(q));
    assert Known(s, p) && Known(s, q);
  }

  /** At the schema and value of SlashCollision every walk loses a helper. */
  lemma SlashCollisionLosesHelper(helpers: map<string, DataHelper>, built: map<Path, DataHelper>, base: string)
    requires var s := Scope(None, SLASHED_VALUE, SLASHED_ROOT); Describes(built, s, null, s.Keys())
    requires Filed(helpers, built, base)
    ensures |helpers| < |built|
  {
    SlashCollision();
    NothingOverwrittenExactlyWhen(helpers, built, Scope(None, SLASHED_VALUE, SLASHED_ROOT), null, base);
  }

  /** Two dictionaries file the same texts, and under each text a helper of the same kind for the same schema node. */
  ghost predicate SameEntries(helpers1: map<string, DataHelper>, helpers2: map<string, DataHelper>) {
    && helpers1.Keys == helpers2.Keys
    && forall t {:trigger SameEntry(helpers1, helpers2, t)} :: t in helpers1 ==> SameEntry(helpers1, helpers2, t)
  }

  ghost predicate SameEntry(helpers1: map<string, DataHelper>, helpers2: map<string, DataHelper>, t: string) {
    && t in helpers1 && t in helpers2
    && helpers1[t].isConfig == helpers2[t].isConfig
    && helpers1[t].yinNode == helpers2[t].yinNode
    && helpers1[t].path == helpers2[t].path
  }

  /** Two walks of one schema and value, each under an order of its own, agree exactly when the orders
      leave the same paths, and always when no two known paths share a text. */
  lemma WalksAgreeExactlyWhen(s: Scope, base: string, parent: DataHelper?, order1: Order, order2: Order,
                              helpers1: map<string, DataHelper>, built1: map<Path, DataHelper>, w1: map<string, Path>,
                              helpers2: map<string, DataHelper>, built2: map<Path, DataHelper>, w2: map<string, Path>)
    requires Orders(order1, s) && w1 == Outcome(s, order1.turns)
    requires Orders(order2, s) && w2 == Outcome(s, order2.turns)
    requires Describes(built1, s, parent, s.Keys()) && FiledBy(helpers1, built1, base, w1)
    requires Describes(built2, s, parent, s.Keys()) && FiledBy(helpers2, built2, base, w2)
    ensures SameEntries(helpers1, helpers2) <==> w1 == w2
    ensures KnownTextsDiffer(s) ==> SameEntries(helpers1, helpers2)
  {
    OutcomesAlike(s, order1, order2);
    SameEntriesExactlyWhen(s, base, parent, helpers1, built1, w1, helpers2, built2, w2);
  }

  lemma SameEntriesExactlyWhen(s: Scope, base: string, parent: DataHelper?,
                               helpers1: map<string, DataHelper>, built1: map<Path, DataHelper>, w1: map<string, Path>,
                               helpers2: map<string, DataHelper>, built2: map<Path, DataHelper>, w2: map<string, Path>)
    requires Describes(built1, s, parent, s.Keys()) && FiledBy(helpers1, built1, base, w1)
    requires Describes(built2, s, parent, s.Keys()) && FiledBy(helpers2, built2, base, w2)
    requires w1.Keys == w2.Keys
    ensures SameEntries(helpers1, helpers2) <==> w1 == w2
  {
    SameKeys(helpers1, built1, helpers2, built2, base, w1, w2);
    forall u | u in w1 ensures SameEntry(helpers1, helpers2, base + u) <==> w1[u] == w2[u] {
      SameEntryExactlyWhen(s, base, parent, helpers1, built1, w1, helpers2, built2, w2, u);
    }
    EntriesByText(helpers1, built1, helpers2, base, w1);
  }

  /** Under one text they agree exactly when the same path is left there. */
  lemma SameEntryExactlyWhen(s: Scope, base: string, parent: DataHelper?,
                             helpers1: map<string, DataHelper>, built1: map<Path, DataHelper>, w1: map<string, Path>,
                             helpers2: map<string, DataHelper>, built2: map<Path, DataHelper>, w2: map<string, Path>,
                             u: string)
    requires Describes(built1, s, parent, s.Keys()) && FiledBy(helpers1, built1, base, w1)
    requires Describes(built2, s, parent, s.Keys()) && FiledBy(helpers2, built2, base, w2)
    requires u in w1 && u in w2
    ensures SameEntry(helpers1, helpers2, base + u) <==> w1[u] == w2[u]
  {
    EntryByPath(s, parent, built1, w1[u]);
    EntryByPath(s, parent, built2, w2[u]);
    SamePathTail(BasePath(parent), w1[u], w2[u]);
  }

  lemma EntriesByText(helpers1: map<string, DataHelper>, built1: map<Path, DataHelper>,
                      helpers2: map<string, DataHelper>, base: string, w1: map<string, Path>)
    requires FiledBy(helpers1, built1, base, w1) && helpers1.Keys == helpers2.Keys
    ensures SameEntries(helpers1, helpers2) <==> forall u :: u in w1 ==> SameEntry(helpers1, helpers2, base + u)
  {
    if forall u :: u in w1 ==> SameEntry(helpers1, helpers2, base + u) {
      forall t | t in helpers1 ensures SameEntry(helpers1, helpers2, t) {
        var u :| u in w1 && t == base + u;
      }
    }
  }

  lemma SameKeys(helpers1: map<string, DataHelper>, built1: map<Path, DataHelper>,
                 helpers2: map<string, DataHelper>, built2: map<Path, DataHelper>, base: string,
                 w1: map<string, Path>, w2: map<string, Path>)
    requires FiledBy(helpers1, built1, base, w1) && FiledBy(helpers2, built2, base, w2) && w1.Keys == w2.Keys
    ensures helpers1.Keys == helpers2.Keys
  {
    forall t | t in helpers1 ensures t in helpers2 {
      var u :| u in w1 && t == base + u;
    }
    forall t | t in helpers2 ensures t in helpers1 {
      var u :| u in w2 && t == base + u;
    }
  }

  lemma EntryByPath(s: Scope, parent: DataHelper?, built: map<Path, DataHelper>, p: Path)
    requires Describes(built, s, parent, s.Keys()) && p in built
    ensures Locate(s, p).Some? && built[p].yinNode == Locate(s, p).value
    ensures built[p].isConfig == (Inherits(parent) && ConfigOn(s, p))
    ensures built[p].path == BasePath(parent) + p
  {
    assert RightHelper(built[p], s, parent, p);
  }

  lemma SamePathTail(base: Path, p: Path, q: Path)
    ensures base + p == base + q <==> p == q
  {
    assert p == (base + p)[|base|..] && q == (base + q)[|base|..];
  }

  lemma EntryLeft(helpers: map<string, DataHelper>, built: map<Path, DataHelper>, s: Scope, w: map<string, Path>,
                  t: string)
    requires Describes(built, s, null, s.Keys()) && FiledBy(helpers, built, "", w) && t in w
    ensures t in helpers && helpers[t].isConfig == ConfigOn(s, w[t])
  {
    assert "" + t == t;
    EntryByPath(s, null, built, w[t]);
  }

  /** At the schema and value of SlashCollision no walk raises and the order decides: what a walk files
      under "/a/b" is a configuration helper when the container is taken last, a status helper when the leaf is. */
  lemma OrderDecides(helpers: map<string, DataHelper>, built: map<Path, DataHelper>)
    requires Describes(built, SLASHED, null, SLASHED.Keys())
    ensures !Crashes(SLASHED, true) && Orders(CONTAINER_LAST, SLASHED) && Orders(LEAF_LAST, SLASHED)
    ensures FiledBy(helpers, built, "", Outcome(SLASHED, CONTAINER_LAST.turns)) ==>
              "/a/b" in helpers && helpers["/a/b"].isConfig
    ensures FiledBy(helpers, built, "", Outcome(SLASHED, LEAF_LAST.turns)) ==>
              "/a/b" in helpers && !helpers["/a/b"].isConfig
  {
    SlashedRuns();
    SlashedOrders();
    SlashedConfig();
    if FiledBy(helpers, built, "", Outcome(SLASHED, CONTAINER_LAST.turns)) {
      ContainerLastOutcome();
      EntryLeft(helpers, built, SLASHED, Outcome(SLASHED, CONTAINER_LAST.turns), "/a/b");
    }
    if FiledBy(helpers, built, "", Outcome(SLASHED, LEAF_LAST.turns)) {
      LeafLastOutcome();
      EntryLeft(helpers, built, SLASHED, Outcome(SLASHED, LEAF_LAST.turns), "/a/b");
    }
  }
}
