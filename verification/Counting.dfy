/** Finite sets: how many different results a function has on one, and the orders of its elements. */
module Counting {
  function Image<A, B>(s: set<A>, f: A -> B): set<B> {
    set x | x in s :: f(x)
  }

  ghost predicate InjectiveOn<A, B>(s: set<A>, f: A -> B) {
    forall x, y :: x in s && y in s && f(x) == f(y) ==> x == y
  }

  /** As many results as arguments exactly when no two arguments share a result. */
  lemma {:induction false} ImageSize<A, B>(s: set<A>, f: A -> B)
    ensures |Image(s, f)| <= |s|
    ensures |Image(s, f)| == |s| <==> InjectiveOn(s, f)
    decreases |s|
  {
    if s != {} {
      var x :| x in s;
      var rest := s - {x};
      ImageSize(rest, f);
      assert s == rest + {x};
      assert Image(s, f) == Image(rest, f) + {f(x)};
      if f(x) in Image(rest, f) {
        assert Image(s, f) == Image(rest, f);
      }
    }
  }

  /** `order` lists every element of the set once. */
  ghost predicate Lists<T(!new)>(order: seq<T>, elements: set<T>) {
    && (forall e :: e in order <==> e in elements)
    && forall i, j :: 0 <= i < j < |order| ==> order[i] != order[j]
  }

  /** Some listing. */
  ghost function ListOf<T(!new)>(elements: set<T>): (r: seq<T>)
    ensures Lists(r, elements)
    decreases |elements|
  {
    if elements == {} then []
    else
      var e :| e in elements;
      ListOf(elements - {e}) + [e]
  }

  lemma EmptyListing<T(!new)>(order: seq<T>, elements: set<T>)
    requires Lists(order, elements)
    ensures order == [] <==> elements == {}
  {
    if order != [] {
      assert order[0] in order;
    }
  }

  lemma ListsInTwo<T(!new)>(all: set<T>, later: set<T>)
    requires later <= all
    ensures Lists(ListOf(all - later) + ListOf(later), all)
  {
    var first, last := ListOf(all - later), ListOf(later);
    forall i, j | 0 <= i < j < |first + last| ensures (first + last)[i] != (first + last)[j] {
      assert i < |first| <= j ==> first[i] in first && last[j - |first|] in last;
    }
  }
}
