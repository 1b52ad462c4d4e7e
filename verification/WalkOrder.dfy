/** The order in which the walk takes the keys of every dictionary, and which of the paths that share a
    text is left under it. */
module WalkOrders {
  import opened Wrappers
  import opened Text
  import opened Counting
  import opened EditHistory
  import opened YinTree

  /** The keys of a dictionary in the order they are taken, each with the order of the dictionary below it. */
  datatype Order = Order(turns: seq<Turn>)
  datatype Turn = Turn(key: string, below: Order)

  function KeysOf(turns: seq<Turn>): set<string> {
    set i | 0 <= i < |turns| :: turns[i].key
  }

  ghost predicate Distinct(turns: seq<Turn>) {
    forall i, j :: 0 <= i < j < |turns| ==> turns[i].key != turns[j].key
  }

  lemma TurnsHaveKeys(turns: seq<Turn>)
    ensures turns != [] ==> KeysOf(turns) != {}
  {
    if turns != [] {
      assert turns[0].key in KeysOf(turns);
    }
  }

  /** `o` takes every key of the value once, here and in every dictionary the walk descends into. */
  ghost predicate Orders(o: Order, s: Scope)
    decreases o
  {
    && Distinct(o.turns)
    && KeysOf(o.turns) == s.Keys()
    && forall i :: 0 <= i < |o.turns| ==> BelowOrdered(o.turns[i], s)
  }

  ghost predicate BelowOrdered(t: Turn, s: Scope)
    decreases t
  {
    s.Knows(t.key) ==> Orders(t.below, s.Below(t.key))
  }

  /** Every text with "/key" in front, every path with `key` in front. */
  function Prepend(key: string, w: map<string, Path>): (r: map<string, Path>)
    ensures forall u :: u in w ==> "/" + key + u in r && r["/" + key + u] == [key] + w[u]
    ensures forall t :: t in r ==> exists u :: u in w && t == "/" + key + u
  {
    var texts := set u | u in w :: "/" + key + u;
    assert forall u :: u in w ==> ("/" + key + u)[|key| + 1..] == u;
    map t | t in texts :: [key] + w[t[|key| + 1..]]
  }

  /** What one key leaves under each text: its own path, and then what the walk below it leaves. */
  function TurnOutcome(s: Scope, t: Turn): map<string, Path>
    decreases s.value, 0
  {
    if s.Knows(t.key) then
      map["/" + t.key := [t.key]] + Prepend(t.key, Outcome(s.Below(t.key), t.below.turns))
    else map[]
  }

  /** What the walk leaves under each text; a later key replaces what an earlier one left. */
  function Outcome(s: Scope, turns: seq<Turn>): map<string, Path>
    decreases s.value, |turns|
  {
    if turns == [] then map[]
    else Outcome(s, turns[..|turns| - 1]) + TurnOutcome(s, turns[|turns| - 1])
  }

  // ---------- Which texts there are ----------

  ghost predicate Sound(s: Scope, w: map<string, Path>) {
    forall t :: t in w ==> Known(s, w[t]) && PathText(w[t]) == t
  }

  lemma KeyIsKnown(s: Scope, key: string)
    requires s.Knows(key)
    ensures Known(s, [key]) && PathText([key]) == "/" + key
  {
    LocateStep(s, key, []);
    assert [key] + [] == [key];
  }

  lemma PrependSound(s: Scope, key: string, w: map<string, Path>)
    requires s.Knows(key) && Sound(s.Below(key), w)
    ensures Sound(s, Prepend(key, w))
  {
    forall t | t in Prepend(key, w) ensures Known(s, Prepend(key, w)[t]) && PathText(Prepend(key, w)[t]) == t {
      var u :| u in w && t == "/" + key + u;
      LocateStep(s, key, w[u]);
      PathTextBelow(key, w[u]);
    }
  }

  /** Only known paths are left, each under its own text. */
  lemma {:induction false} OutcomeSound(s: Scope, turns: seq<Turn>)
    ensures Sound(s, Outcome(s, turns))
    decreases s.value, |turns|
  {
    if turns != [] {
      OutcomeSound(s, turns[..|turns| - 1]);
      TurnSound(s, turns[|turns| - 1]);
    }
  }

  lemma {:induction false} TurnSound(s: Scope, t: Turn)
    ensures Sound(s, TurnOutcome(s, t))
    decreases s.value, 0
  {
    if s.Knows(t.key) {
      OutcomeSound(s.Below(t.key), t.below.turns);
      PrependSound(s, t.key, Outcome(s.Below(t.key), t.below.turns));
      KeyIsKnown(s, t.key);
    }
  }

  lemma {:induction false} TurnKept(s: Scope, turns: seq<Turn>, i: nat)
    requires i < |turns|
    ensures TurnOutcome(s, turns[i]).Keys <= Outcome(s, turns).Keys
  {
    if i < |turns| - 1 {
      TurnKept(s, turns[..|turns| - 1], i);
    }
  }

  /** Every known path leaves something under its text. */
  lemma {:induction false} OutcomeComplete(s: Scope, o: Order, p: Path)
    requires Orders(o, s) && Known(s, p)
    ensures PathText(p) in Outcome(s, o.turns)
    decreases |p|
  {
    assert p == [p[0]] + p[1..];
    LocateStep(s, p[0], p[1..]);
    assert p[0] in KeysOf(o.turns);
    var i :| 0 <= i < |o.turns| && o.turns[i].key == p[0];
    TurnKept(s, o.turns, i);
    assert BelowOrdered(o.turns[i], s);
    PathTextBelow(p[0], p[1..]);
    if |p| > 1 {
      OutcomeComplete(s.Below(p[0]), o.turns[i].below, p[1..]);
    }
  }

  /** The texts are those of the known paths, whatever the order. */
  lemma OutcomeTexts(s: Scope, o: Order, t: string)
    requires Orders(o, s)
    ensures t in Outcome(s, o.turns) <==> exists p :: Known(s, p) && PathText(p) == t
  {
    OutcomeSound(s, o.turns);
    if p :| Known(s, p) && PathText(p) == t {
      OutcomeComplete(s, o, p);
    }
  }

  // ---------- Every known path wins under some order ----------

  /** Some order. */
  ghost function AnyOrder(s: Scope): (o: Order)
    ensures Orders(o, s)
    decreases s.value, 1
  {
    var o := Order(AnyTurns(s, ListOf(s.Keys())));
    assert KeysOf(o.turns) == s.Keys() by {
      forall k | k in s.Keys() ensures k in KeysOf(o.turns) {
        var i :| 0 <= i < |ListOf(s.Keys())| && ListOf(s.Keys())[i] == k;
        assert o.turns[i].key == k;
      }
    }
    o
  }

  ghost function AnyTurns(s: Scope, keys: seq<string>): (turns: seq<Turn>)
    ensures |turns| == |keys|
    ensures forall i :: 0 <= i < |keys| ==> turns[i].key == keys[i] && BelowOrdered(turns[i], s)
    decreases s.value, 0, |keys|
  {
    if keys == [] then []
    else
      var k := keys[|keys| - 1];
      AnyTurns(s, keys[..|keys| - 1]) + [Turn(k, if s.Knows(k) then AnyOrder(s.Below(k)) else Order([]))]
  }

  /** An order that takes `key` last, and below it goes by `below`. */
  ghost function OrderEnding(s: Scope, key: string, below: Order): (o: Order)
    requires s.Knows(key) && Orders(below, s.Below(key))
    ensures Orders(o, s)
    ensures o.turns != [] && o.turns[|o.turns| - 1] == Turn(key, below)
  {
    var others := ListOf(s.Keys() - {key});
    var turns := AnyTurns(s, others) + [Turn(key, below)];
    assert KeysOf(turns) == s.Keys() by {
      EndingKeys(s.Keys(), key, others, turns);
    }
    Order(turns)
  }

  lemma EndingKeys(keys: set<string>, key: string, others: seq<string>, turns: seq<Turn>)
    requires key in keys && |turns| == |others| + 1 && turns[|others|].key == key
    requires forall i :: 0 <= i < |others| ==> turns[i].key == others[i]
    requires forall k :: k in others <==> k in keys - {key}
    ensures KeysOf(turns) == keys
  {
    forall k | k in keys ensures k in KeysOf(turns) {
      if k != key {
        assert k in others;
        var i :| 0 <= i < |others| && others[i] == k;
        assert turns[i].key == k;
      }
    }
    forall k | k in KeysOf(turns) ensures k in keys {
      var i :| 0 <= i < |turns| && turns[i].key == k;
      assert i < |others| ==> others[i] in others;
    }
  }

  lemma KnownSplit(s: Scope, p: Path)
    requires Known(s, p)
    ensures s.Knows(p[0]) && p == [p[0]] + p[1..]
    ensures |p| > 1 ==> Known(s.Below(p[0]), p[1..])
  {}

  /** An order that takes every component of `p` last. */
  ghost function OrderFor(s: Scope, p: Path): (o: Order)
    requires Known(s, p)
    ensures Orders(o, s)
    decreases |p|
  {
    KnownSplit(s, p);
    OrderEnding(s, p[0], if |p| > 1 then OrderFor(s.Below(p[0]), p[1..]) else AnyOrder(s.Below(p[0])))
  }

  lemma LastTurnWins(s: Scope, turns: seq<Turn>, t: string)
    requires turns != [] && t in TurnOutcome(s, turns[|turns| - 1])
    ensures t in Outcome(s, turns) && Outcome(s, turns)[t] == TurnOutcome(s, turns[|turns| - 1])[t]
  {}

  lemma OwnPathWins(s: Scope, t: Turn)
    requires s.Knows(t.key)
    ensures "/" + t.key in TurnOutcome(s, t) && TurnOutcome(s, t)["/" + t.key] == [t.key]
  {
    var sub := Outcome(s.Below(t.key), t.below.turns);
    OutcomeSound(s.Below(t.key), t.below.turns);
    forall u | u in Prepend(t.key, sub) ensures u != "/" + t.key {
      var v :| v in sub && u == "/" + t.key + v;
      assert v != "";
    }
  }

  lemma BelowWins(s: Scope, t: Turn, q: Path)
    requires s.Knows(t.key)
    requires var sub := Outcome(s.Below(t.key), t.below.turns); PathText(q) in sub && sub[PathText(q)] == q
    ensures var text := PathText([t.key] + q);
      text in TurnOutcome(s, t) && TurnOutcome(s, t)[text] == [t.key] + q
  {
    PathTextBelow(t.key, q);
  }

  /** Under that order `p` is what is left under its text. */
  lemma {:induction false} TakenLastWins(s: Scope, p: Path)
    requires Known(s, p)
    ensures PathText(p) in Outcome(s, OrderFor(s, p).turns) && Outcome(s, OrderFor(s, p).turns)[PathText(p)] == p
    decreases |p|
  {
    KnownSplit(s, p);
    var turns := OrderFor(s, p).turns;
    var last := turns[|turns| - 1];
    if |p| > 1 {
      TakenLastWins(s.Below(p[0]), p[1..]);
      BelowWins(s, last, p[1..]);
    } else {
      OwnPathWins(s, last);
      assert PathText(p) == "/" + p[0] && p == [p[0]];
    }
    LastTurnWins(s, turns, PathText(p));
  }

  lemma CollisionOrders(s: Scope) returns (o1: Order, o2: Order)
    requires !KnownTextsDiffer(s)
    ensures Orders(o1, s) && Orders(o2, s) && Outcome(s, o1.turns) != Outcome(s, o2.turns)
  {
    var p, q :| Known(s, p) && Known(s, q) && PathText(p) == PathText(q) && p != q;
    TakenLastWins(s, p);
    TakenLastWins(s, q);
    o1, o2 := OrderFor(s, p), OrderFor(s, q);
  }

  /** The order in which the walk takes its keys does not matter exactly when no two known paths share a text. */
  lemma OrderDoesNotMatterExactlyWhen(s: Scope)
    ensures KnownTextsDiffer(s)
       <==> forall o1, o2 :: Orders(o1, s) && Orders(o2, s) ==> Outcome(s, o1.turns) == Outcome(s, o2.turns)
  {
    if KnownTextsDiffer(s) {
      forall o1, o2 | Orders(o1, s) && Orders(o2, s) ensures Outcome(s, o1.turns) == Outcome(s, o2.turns) {
        SameOutcome(s, o1, o2);
      }
    } else {
      var o1, o2 := CollisionOrders(s);
    }
  }

  lemma SameTexts(s: Scope, o1: Order, o2: Order)
    requires Orders(o1, s) && Orders(o2, s)
    ensures Outcome(s, o1.turns).Keys == Outcome(s, o2.turns).Keys
  {
    forall t ensures t in Outcome(s, o1.turns) <==> t in Outcome(s, o2.turns) {
      OutcomeTexts(s, o1, t);
      OutcomeTexts(s, o2, t);
    }
  }

  lemma OutcomesAlike(s: Scope, o1: Order, o2: Order)
    requires Orders(o1, s) && Orders(o2, s)
    ensures Outcome(s, o1.turns).Keys == Outcome(s, o2.turns).Keys
    ensures KnownTextsDiffer(s) ==> Outcome(s, o1.turns) == Outcome(s, o2.turns)
  {
    SameTexts(s, o1, o2);
    if KnownTextsDiffer(s) {
      SameOutcome(s, o1, o2);
    }
  }

  lemma SoundMapsAgree(s: Scope, w1: map<string, Path>, w2: map<string, Path>)
    requires Sound(s, w1) && Sound(s, w2) && w1.Keys == w2.Keys && KnownTextsDiffer(s)
    ensures w1 == w2
  {
    forall t | t in w1 ensures w1[t] == w2[t] {
      assert Known(s, w1[t]) && Known(s, w2[t]);
    }
  }

  lemma SameOutcome(s: Scope, o1: Order, o2: Order)
    requires Orders(o1, s) && Orders(o2, s) && KnownTextsDiffer(s)
    ensures Outcome(s, o1.turns) == Outcome(s, o2.turns)
  {
    SameTexts(s, o1, o2);
    OutcomeSound(s, o1.turns);
    OutcomeSound(s, o2.turns);
    SoundMapsAgree(s, Outcome(s, o1.turns), Outcome(s, o2.turns));
  }

  // ---------- An order that matters ----------

  const SLASHED := Scope(None, SLASHED_VALUE, SLASHED_ROOT)
  const CONTAINER_TURN := Turn("a", Order([Turn("b", Order([]))]))
  const LEAF_TURN := Turn("a/b", Order([]))
  const CONTAINER_LAST := Order([LEAF_TURN, CONTAINER_TURN])
  const LEAF_LAST := Order([CONTAINER_TURN, LEAF_TURN])

  lemma SlashedBelow()
    ensures SLASHED.Knows("a") && SLASHED.Knows("a/b") && SLASHED.Below("a").Knows("b")
    ensures BelowOrdered(CONTAINER_TURN, SLASHED) && BelowOrdered(LEAF_TURN, SLASHED)
  {
    SlashedChildren();
    var below := CONTAINER_TURN.below;
    assert below.turns[0].key == "b";
    assert KeysOf(below.turns) == {"b"} == SLASHED.Below("a").Keys();
    assert KeysOf([]) == {};
  }

  lemma SlashedOrders()
    ensures Orders(CONTAINER_LAST, SLASHED) && Orders(LEAF_LAST, SLASHED)
  {
    SlashedBelow();
    assert "a" != "a/b" && SLASHED.Keys() == {"a", "a/b"};
    assert CONTAINER_LAST.turns[0].key == "a/b" && CONTAINER_LAST.turns[1].key == "a";
    assert LEAF_LAST.turns[0].key == "a" && LEAF_LAST.turns[1].key == "a/b";
    assert KeysOf(CONTAINER_LAST.turns) == {"a", "a/b"};
    assert KeysOf(LEAF_LAST.turns) == {"a", "a/b"};
  }

  lemma LastChildLeft(s: Scope, turns: seq<Turn>, t: Turn)
    requires s.Knows(t.key) && turns != [] && turns[|turns| - 1] == t
    ensures var w := Outcome(s, turns); PathText([t.key]) in w && w[PathText([t.key])] == [t.key]
  {
    KeyIsKnown(s, t.key);
    OwnPathWins(s, t);
    LastTurnWins(s, turns, "/" + t.key);
  }

  lemma LastGrandchildLeft(s: Scope, turns: seq<Turn>, t: Turn, child: Turn, p: Path)
    requires s.Knows(t.key) && s.Below(t.key).Knows(child.key) && t.below.turns == [child]
    requires turns != [] && turns[|turns| - 1] == t && p == [t.key] + [child.key]
    ensures var w := Outcome(s, turns); PathText(p) in w && w[PathText(p)] == p
  {
    LastChildLeft(s.Below(t.key), t.below.turns, child);
    BelowWins(s, t, [child.key]);
    LastTurnWins(s, turns, PathText(p));
  }

  /** Taken last, the container leaves its inner leaf under "/a/b". */
  lemma ContainerLastOutcome()
    ensures var w := Outcome(SLASHED, CONTAINER_LAST.turns); "/a/b" in w && w["/a/b"] == ["a", "b"]
  {
    SlashedBelow();
    SlashedTexts();
    LastGrandchildLeft(SLASHED, CONTAINER_LAST.turns, CONTAINER_TURN, CONTAINER_TURN.below.turns[0], ["a", "b"]);
  }

  /** Taken last, the leaf whose own name contains the "/" is what is left under "/a/b". */
  lemma LeafLastOutcome()
    ensures var w := Outcome(SLASHED, LEAF_LAST.turns); "/a/b" in w && w["/a/b"] == ["a/b"]
  {
    SlashedBelow();
    SlashedTexts();
    LastChildLeft(SLASHED, LEAF_LAST.turns, LEAF_TURN);
  }
}
