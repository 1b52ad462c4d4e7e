/** Media types: parameters in a map that ignores the case of its keys, equality, hashing and compatibility. */
module MediaTypes {
  import opened Wrappers
  import opened Text
  import opened Counting

  const CHARSET_PARAMETER := "charset"
  const WILDCARD := "*"

  datatype MediaType = MediaType(primary: string, subtype: string, parameters: map<string, string>)

  /** What every constructor establishes. */
  ghost predicate LowerKeys(m: map<string, string>) {
    forall k :: k in m ==> Lower(k) == k
  }

  function Lowered(keys: set<string>): set<string> {
    set k | k in keys :: Lower(k)
  }

  /** `m` is what lower-casing the keys of `initial` can give, the later of two meeting entries winning. */
  ghost predicate CanBecome(initial: map<string, string>, m: map<string, string>) {
    && m.Keys == Lowered(initial.Keys)
    && forall x :: x in m ==> Keeps(initial, m, x)
  }

  /** Under `x` there is the value of an entry whose key is `x` when case is ignored. */
  ghost predicate Keeps(initial: map<string, string>, m: map<string, string>, x: string)
    requires x in m
  {
    exists k :: k in initial && Lower(k) == x && m[x] == initial[k]
  }

  /** The map after the keys in `order` have been put, each in lower case. */
  function Lowering(initial: map<string, string>, order: seq<string>): map<string, string>
    requires forall k :: k in order ==> k in initial
  {
    if order == [] then map[]
    else
      var key := order[|order| - 1];
      Lowering(initial, order[..|order| - 1])[Lower(key) := initial[key]]
  }

  /** `order` is the order in which the given map lists its entries, whatever it is. */
  method CreateParametersMap(initial: Option<map<string, string>>, order: seq<string>)
    returns (m: map<string, string>)
    requires Lists(order, initial.GetOr(map[]).Keys)
    ensures m == Lowering(initial.GetOr(map[]), order)
    ensures LowerKeys(m) && CanBecome(initial.GetOr(map[]), m)
  {
    m := map[];
    var entries := initial.GetOr(map[]);
    for i := 0 to |order|
      invariant m == Lowering(entries, order[..i])
    {
      TakeOneMore(order, i);
      m := m[Lower(order[i]) := entries[order[i]]];
    }
    assert order[..|order|] == order;
    LoweringCanBecome(entries, order);
    CanBecomeIsLower(entries, m);
  }

  lemma CanBecomeIsLower(initial: map<string, string>, m: map<string, string>)
    requires CanBecome(initial, m)
    ensures LowerKeys(m)
  {
    forall x | x in m ensures Lower(x) == x {
      assert Keeps(initial, m, x);
      var k :| k in initial && Lower(k) == x && m[x] == initial[k];
      LowerTwice(k);
    }
  }

  ghost predicate Consistent(initial: map<string, string>) {
    forall j, k :: j in initial && k in initial && Lower(j) == Lower(k) ==> initial[j] == initial[k]
  }

  lemma {:induction false} LoweringKeys(initial: map<string, string>, order: seq<string>)
    requires forall k :: k in order ==> k in initial
    ensures forall x :: x in Lowering(initial, order)
                   ==> exists k :: k in order && Lower(k) == x && Lowering(initial, order)[x] == initial[k]
    ensures forall k :: k in order ==> Lower(k) in Lowering(initial, order)
  {
    if order != [] {
      LoweringKeys(initial, order[..|order| - 1]);
    }
  }

  lemma LoweringCanBecome(initial: map<string, string>, order: seq<string>)
    requires Lists(order, initial.Keys)
    ensures CanBecome(initial, Lowering(initial, order))
  {
    LoweringKeys(initial, order);
    var m := Lowering(initial, order);
    forall x | x in m ensures x in Lowered(initial.Keys) && Keeps(initial, m, x) {
      var k :| k in order && Lower(k) == x && m[x] == initial[k];
    }
  }

  /** The entry whose key no later one meets is what stays. */
  lemma {:induction false} LastStays(initial: map<string, string>, order: seq<string>, i: nat)
    requires forall k :: k in order ==> k in initial
    requires i < |order| && forall j :: i < j < |order| ==> Lower(order[j]) != Lower(order[i])
    ensures Lower(order[i]) in Lowering(initial, order)
    ensures Lowering(initial, order)[Lower(order[i])] == initial[order[i]]
  {
    if i < |order| - 1 {
      LastStays(initial, order[..|order| - 1], i);
    }
  }

  ghost function Winner(initial: map<string, string>, m: map<string, string>, x: string): (k: string)
    requires CanBecome(initial, m) && x in m
    ensures k in initial && Lower(k) == x && m[x] == initial[k]
  {
    assert Keeps(initial, m, x);
    var k :| k in initial && Lower(k) == x && m[x] == initial[k];
    k
  }

  /** The keys of the entries that `m` keeps. */
  ghost function Winners(initial: map<string, string>, m: map<string, string>): (r: set<string>)
    requires CanBecome(initial, m)
    ensures r <= initial.Keys
    ensures forall x :: x in m ==> Winner(initial, m, x) in r
    ensures forall k :: k in r ==> Lower(k) in m && k == Winner(initial, m, Lower(k))
  {
    set x | x in m :: Winner(initial, m, x)
  }

  /** An order that ends with them. */
  ghost function OrderTo(initial: map<string, string>, m: map<string, string>): (order: seq<string>)
    requires CanBecome(initial, m)
    ensures Lists(order, initial.Keys)
  {
    ListsInTwo(initial.Keys, Winners(initial, m));
    ListOf(initial.Keys - Winners(initial, m)) + ListOf(Winners(initial, m))
  }

  lemma OrderToGives(initial: map<string, string>, m: map<string, string>)
    requires CanBecome(initial, m)
    ensures Lowering(initial, OrderTo(initial, m)) == m
  {
    LoweringCanBecome(initial, OrderTo(initial, m));
    WinnersStay(initial, m);
    SameWhereKept(initial, Lowering(initial, OrderTo(initial, m)), m);
  }

  lemma WinnersStay(initial: map<string, string>, m: map<string, string>)
    requires CanBecome(initial, m)
    ensures forall x :: x in m ==>
              x in Lowering(initial, OrderTo(initial, m)) && Lowering(initial, OrderTo(initial, m))[x] == m[x]
  {
    forall x | x in m
      ensures x in Lowering(initial, OrderTo(initial, m)) && Lowering(initial, OrderTo(initial, m))[x] == m[x]
    {
      WinnerStays(initial, m, x);
    }
  }

  lemma SameWhereKept(initial: map<string, string>, m1: map<string, string>, m2: map<string, string>)
    requires m1.Keys == Lowered(initial.Keys) == m2.Keys
    requires forall x :: x in m2 ==> x in m1 && m1[x] == m2[x]
    ensures m1 == m2
  {}

  lemma WinnerStays(initial: map<string, string>, m: map<string, string>, x: string)
    requires CanBecome(initial, m) && x in m
    ensures x in Lowering(initial, OrderTo(initial, m)) && Lowering(initial, OrderTo(initial, m))[x] == m[x]
  {
    var first, last := ListOf(initial.Keys - Winners(initial, m)), ListOf(Winners(initial, m));
    var key := Winner(initial, m, x);
    assert key in last;
    var i :| 0 <= i < |last| && last[i] == key;
    forall j | 0 <= j < |last| && j != i ensures Lower(last[j]) != x {
      assert last[j] in Winners(initial, m) && last[j] != key;
    }
    LastListedStays(initial, first, last, i);
  }

  lemma LastListedStays(initial: map<string, string>, first: seq<string>, last: seq<string>, i: nat)
    requires forall k :: k in first + last ==> k in initial
    requires i < |last| && forall j :: 0 <= j < |last| && j != i ==> Lower(last[j]) != Lower(last[i])
    ensures var m := Lowering(initial, first + last);
      last[i] in initial && Lower(last[i]) in m && m[Lower(last[i])] == initial[last[i]]
  {
    var order := first + last;
    assert order[|first| + i] == last[i];
    forall j | |first| + i < j < |order| ensures Lower(order[j]) != Lower(order[|first| + i]) {
      assert order[j] == last[j - |first|];
    }
    LastStays(initial, order, |first| + i);
  }

  /** The maps that an order of the given entries can lead to are exactly those that keep, for every key
      in lower case, one of the entries that meet there. */
  lemma SomeOrderGivesExactlyWhen(initial: map<string, string>, m: map<string, string>)
    ensures CanBecome(initial, m) <==> exists order :: Lists(order, initial.Keys) && Lowering(initial, order) == m
  {
    if CanBecome(initial, m) {
      OrderToGives(initial, m);
    }
    if order :| Lists(order, initial.Keys) && Lowering(initial, order) == m {
      LoweringCanBecome(initial, order);
    }
  }

  /** The iteration order of the given parameters does not matter exactly when no two names that differ
      in case only carry different values. */
  lemma OrderDoesNotMatterExactlyWhen(initial: map<string, string>)
    ensures Consistent(initial)
       <==> forall o1, o2 :: Lists(o1, initial.Keys) && Lists(o2, initial.Keys)
                        ==> Lowering(initial, o1) == Lowering(initial, o2)
  {
    if Consistent(initial) {
      forall o1, o2 | Lists(o1, initial.Keys) && Lists(o2, initial.Keys)
        ensures Lowering(initial, o1) == Lowering(initial, o2)
      {
        LoweringCanBecome(initial, o1);
        LoweringCanBecome(initial, o2);
        ConsistentAgree(initial, Lowering(initial, o1), Lowering(initial, o2));
      }
    } else {
      var o1, o2 := DisagreeingOrders(initial);
    }
  }

  lemma ConsistentAgree(initial: map<string, string>, m1: map<string, string>, m2: map<string, string>)
    requires Consistent(initial) && CanBecome(initial, m1) && CanBecome(initial, m2)
    ensures m1 == m2
  {
    forall x | x in m1 ensures m1[x] == m2[x] {
      assert Keeps(initial, m1, x) && Keeps(initial, m2, x);
    }
  }

  lemma DisagreeingOrders(initial: map<string, string>) returns (o1: seq<string>, o2: seq<string>)
    requires !Consistent(initial)
    ensures Lists(o1, initial.Keys) && Lists(o2, initial.Keys) && Lowering(initial, o1) != Lowering(initial, o2)
  {
    var j, k :| j in initial && k in initial && Lower(j) == Lower(k) && initial[j] != initial[k];
    o1 := TakenLast(initial, j);
    o2 := TakenLast(initial, k);
  }

  /** Any entry wins when it comes last. */
  lemma TakenLast(initial: map<string, string>, k: string) returns (order: seq<string>)
    requires k in initial
    ensures Lists(order, initial.Keys)
    ensures Lower(k) in Lowering(initial, order) && Lowering(initial, order)[Lower(k)] == initial[k]
  {
    order := ListOf(initial.Keys - {k}) + [k];
    LastStays(initial, order, |order| - 1);
  }

  const MIXED_CASE := map["A" := "x", "a" := "y"]

  /** Names that differ in case only and carry different values make the order matter. */
  lemma OrderMattersForMixedCase()
    ensures Lists(["A", "a"], MIXED_CASE.Keys) && Lists(["a", "A"], MIXED_CASE.Keys)
    ensures Lowering(MIXED_CASE, ["A", "a"]) == map["a" := "y"]
    ensures Lowering(MIXED_CASE, ["a", "A"]) == map["a" := "x"]
    ensures !Consistent(MIXED_CASE)
  {
    assert Lower("A") == "a" && Lower("a") == "a";
    PutTwo(MIXED_CASE, "A", "a");
    PutTwo(MIXED_CASE, "a", "A");
    assert "A" in MIXED_CASE && "a" in MIXED_CASE && MIXED_CASE["A"] == "x" && MIXED_CASE["a"] == "y" && "x" != "y";
  }

  lemma PutTwo(initial: map<string, string>, j: string, k: string)
    requires j in initial && k in initial
    ensures Lowering(initial, [j, k]) == map[Lower(j) := initial[j]][Lower(k) := initial[k]]
  {
    assert [j, k][..1] == [j] && [j][..0] == [];
    assert Lowering(initial, [j]) == Lowering(initial, [])[Lower(j) := initial[j]] == map[Lower(j) := initial[j]];
  }

  /** Lower-casing the keys of a map that has lower-case keys changes nothing. */
  lemma LowerKeysStay(initial: map<string, string>, m: map<string, string>)
    requires LowerKeys(initial) && CanBecome(initial, m)
    ensures m == initial
  {}

  /** The private constructor, to which all others delegate; an absent name is the wildcard. */
  method Construct(primary: Option<string>, subtype: Option<string>, charset: Option<string>,
                   parameterMap: Option<map<string, string>>)
    returns (t: MediaType)
    requires LowerKeys(parameterMap.GetOr(map[]))
    ensures t.primary == primary.GetOr(WILDCARD) && t.subtype == subtype.GetOr(WILDCARD)
    ensures primary == None ==> t.primary == "*"
    ensures subtype == None ==> t.subtype == "*"
    ensures LowerKeys(t.parameters)
    ensures var given := parameterMap.GetOr(map[]);
      t.parameters == if charset.GetOr("") != "" then given["charset" := charset.value] else given
  {
    var m := parameterMap.GetOr(map[]);
    assert Lower(CHARSET_PARAMETER) == CHARSET_PARAMETER;
    if charset.Some? && charset.value != "" {
      m := m[CHARSET_PARAMETER := charset.value];
    }
    t := MediaType(primary.GetOr(WILDCARD), subtype.GetOr(WILDCARD), m);
  }

  /** The copy differs in the charset only, and not at all when none is given, in whatever order the
      parameters are listed. */
  method WithCharset(t: MediaType, order: seq<string>, charset: Option<string>) returns (u: MediaType)
    requires LowerKeys(t.parameters) && Lists(order, t.parameters.Keys)
    ensures LowerKeys(u.parameters)
    ensures u == if charset.GetOr("") == "" then t
                 else t.(parameters := t.parameters["charset" := charset.value])
  {
    var copy := CreateParametersMap(Some(t.parameters), order);
    LowerKeysStay(t.parameters, copy);
    u := Construct(Some(t.primary), Some(t.subtype), charset, Some(copy));
  }

  /** A look-up in the parameter map, which ignores the case of keys, finds `value`. */
  ghost predicate Finds(m: map<string, string>, key: string, value: string) {
    exists k :: k in m && Lower(k) == Lower(key) && m[k] == value
  }

  /** Map equality of the Java library: same size, and every entry is found in the other map. */
  ghost predicate SameParameters(p: map<string, string>, q: map<string, string>) {
    |p| == |q| && forall k :: k in p ==> Finds(q, k, p[k])
  }

  ghost predicate EqualTo(t: MediaType, u: MediaType) {
    && Lower(t.primary) == Lower(u.primary)
    && Lower(t.subtype) == Lower(u.subtype)
    && SameParameters(t.parameters, u.parameters)
  }

  /** With lower-case keys the equality of the library is the equality of the maps. */
  lemma SameParametersExactlyWhen(p: map<string, string>, q: map<string, string>)
    requires LowerKeys(p) && LowerKeys(q)
    ensures SameParameters(p, q) <==> p == q
  {
    if SameParameters(p, q) {
      assert p.Keys <= q.Keys;
      assert |q.Keys - p.Keys| == |q.Keys| - |p.Keys|;
      assert |p.Keys| == |p| && |q.Keys| == |q|;
      assert q.Keys == p.Keys + (q.Keys - p.Keys);
    }
    if p == q {
      forall k | k in p ensures Finds(q, k, p[k]) {
        assert Lower(k) == Lower(k) && q[k] == p[k];
      }
    }
  }

  /** Constructed media types are equal exactly when their names differ in the case of letters at most and
      their parameters are the same. */
  lemma EqualExactlyWhen(t: MediaType, u: MediaType)
    requires LowerKeys(t.parameters) && LowerKeys(u.parameters)
    ensures EqualTo(t, u)
       <==> && SameIgnoringCase(t.primary, u.primary) && SameIgnoringCase(t.subtype, u.subtype)
            && t.parameters == u.parameters
  {
    LowerSameExactlyWhen(t.primary, u.primary);
    LowerSameExactlyWhen(t.subtype, u.subtype);
    SameParametersExactlyWhen(t.parameters, u.parameters);
  }

  const WRAP := 0x1_0000_0000

  /** Hashes have 32 bits and wrap around; a negative one stands here as the word with its bits. */
  type Word = w: int | 0 <= w < WRAP

  /** Exclusive or, bit by bit. */
  function Xor(a: nat, b: nat): nat {
    if a == 0 && b == 0 then 0 else 2 * Xor(a / 2, b / 2) + (a % 2 + b % 2) % 2
  }

  /** The hash of strings in the Java library. */
  function StringHash(s: string): Word {
    if s == "" then 0 else (31 * StringHash(s[..|s| - 1]) + s[|s| - 1] as int) % WRAP
  }

  /** The sum of the characters, each times a power of 31. */
  function Polynomial(s: string): nat {
    if s == "" then 0 else s[0] as int * Power31(|s| - 1) + Polynomial(s[1..])
  }

  function Power31(n: nat): nat {
    if n == 0 then 1 else 31 * Power31(n - 1)
  }

  lemma {:induction false} PolynomialSnoc(s: string, c: char)
    ensures Polynomial(s + [c]) == 31 * Polynomial(s) + c as int
  {
    if s == "" {
      assert [c][1..] == "";
    } else {
      assert (s + [c])[1..] == s[1..] + [c];
      PolynomialSnoc(s[1..], c);
    }
  }

  /** s[0] * 31^(n-1) + ... + s[n-1], as the Java library documents it, in 32 bits. */
  lemma {:induction false} StringHashMeaning(s: string)
    ensures StringHash(s) == Polynomial(s) % WRAP
  {
    if s != "" {
      var front, c := s[..|s| - 1], s[|s| - 1];
      StringHashMeaning(front);
      assert s == front + [c];
      PolynomialSnoc(front, c);
      WrapInside(Polynomial(front), c as int);
    }
  }

  lemma WrapInside(a: nat, c: nat)
    ensures (31 * (a % WRAP) + c) % WRAP == (31 * a + c) % WRAP
  {
    var k := a / WRAP;
    assert 31 * a + c == 31 * (a % WRAP) + c + 31 * k * WRAP;
    WrapMultiple(31 * (a % WRAP) + c, 31 * k);
  }

  lemma {:induction false} WrapMultiple(a: nat, k: nat)
    ensures (a + k * WRAP) % WRAP == a % WRAP
  {
    if k > 0 {
      WrapMultiple(a, k - 1);
    }
  }

  /** The hash of a map in the Java library over the hash of strings: the sum over its entries. Wrapping around
      once gives the word that wrapping around after every addition gives. */
  ghost function MapHash(m: map<string, string>, hash: string -> Word): Word {
    Sum(ListOf(m.Keys), EntryHash(m, hash)) % WRAP
  }

  function EntryHash(m: map<string, string>, hash: string -> Word): string -> nat {
    k => if k in m then Xor(hash(k), hash(m[k])) else 0
  }

  function Sum(order: seq<string>, f: string -> nat): nat {
    if order == [] then 0 else Sum(order[..|order| - 1], f) + f(order[|order| - 1])
  }

  /** The hash code over the hash of strings. */
  ghost function HashCode(t: MediaType, hash: string -> Word): Word {
    (hash(Lower(t.primary) + Lower(t.subtype)) + MapHash(t.parameters, hash)) % WRAP
  }

  function Without(order: seq<string>, i: nat): seq<string>
    requires i < |order|
  {
    order[..i] + order[i + 1..]
  }

  /** An entry adds the same wherever it is listed. */
  lemma {:induction false} SumWithout(order: seq<string>, i: nat, f: string -> nat)
    requires i < |order|
    ensures Sum(order, f) == Sum(Without(order, i), f) + f(order[i])
  {
    var last := |order| - 1;
    if i == last {
      assert Without(order, i) == order[..last];
    } else {
      var shorter := Without(order, i);
      assert shorter[..|shorter| - 1] == Without(order[..last], i) && shorter[|shorter| - 1] == order[last];
      SumWithout(order[..last], i, f);
    }
  }

  lemma WithoutLists(order: seq<string>, keys: set<string>, i: nat)
    requires Lists(order, keys) && i < |order|
    ensures Lists(Without(order, i), keys - {order[i]})
  {
    forall k | k in keys - {order[i]} ensures k in Without(order, i) {
      var j :| 0 <= j < |order| && order[j] == k;
      assert Without(order, i)[if j < i then j else j - 1] == k;
    }
  }

  lemma {:induction false} SumInAnyOrder(keys: set<string>, o1: seq<string>, o2: seq<string>, f: string -> nat)
    requires Lists(o1, keys) && Lists(o2, keys)
    ensures Sum(o1, f) == Sum(o2, f)
    decreases |o1|
  {
    EmptyListing(o1, keys);
    EmptyListing(o2, keys);
    if keys != {} {
      var last := |o1| - 1;
      assert o1[last] in keys;
      var i :| 0 <= i < |o2| && o2[i] == o1[last];
      WithoutLists(o1, keys, last);
      WithoutLists(o2, keys, i);
      SumInAnyOrder(keys - {o2[i]}, Without(o1, last), Without(o2, i), f);
      SumWithout(o1, last, f);
      SumWithout(o2, i, f);
    }
  }

  /** The hash of a map is the same sum in whatever order its entries are listed. */
  lemma HashInAnyOrder(m: map<string, string>, order: seq<string>, hash: string -> Word)
    requires Lists(order, m.Keys)
    ensures Sum(order, EntryHash(m, hash)) % WRAP == MapHash(m, hash)
  {
    SumInAnyOrder(m.Keys, order, ListOf(m.Keys), EntryHash(m, hash));
  }

  lemma HashOfOne(k: string, v: string, hash: string -> Word)
    ensures MapHash(map[k := v], hash) == Xor(hash(k), hash(v)) % WRAP
  {
    var m := map[k := v];
    var f := EntryHash(m, hash);
    assert Lists([k], m.Keys);
    HashInAnyOrder(m, [k], hash);
    assert Sum([k], f) == Sum([k][..0], f) + f(k);
  }

  lemma {:induction false} XorAtMost(a: nat, b: nat)
    ensures Xor(a, b) <= a + b
  {
    if a != 0 || b != 0 {
      XorAtMost(a / 2, b / 2);
    }
  }

  lemma {:induction false} XorCancels(a: nat, b: nat, c: nat)
    ensures Xor(a, c) == Xor(b, c) ==> a == b
  {
    if a != 0 || b != 0 {
      XorCancels(a / 2, b / 2, c / 2);
    }
  }

  lemma XorsDiffer(a: nat, b: nat, c: nat)
    requires a != b && a + c < WRAP && b + c < WRAP
    ensures Xor(a, c) % WRAP != Xor(b, c) % WRAP
  {
    XorAtMost(a, c);
    XorAtMost(b, c);
    XorCancels(a, b, c);
    NoWrap(Xor(a, c), Xor(b, c));
  }

  lemma NoWrap(p: nat, q: nat)
    requires p != q && p < WRAP && q < WRAP
    ensures p % WRAP != q % WRAP
  {}

  /** For every hash that tells two keys apart. */
  lemma MapHashesApart(j: string, k: string, v: string, hash: string -> Word)
    requires hash(j) != hash(k) && hash(j) + hash(v) < WRAP && hash(k) + hash(v) < WRAP
    ensures MapHash(map[j := v], hash) != MapHash(map[k := v], hash)
  {
    XorsDiffer(hash(j), hash(k), hash(v));
    HashOfOne(j, v, hash);
    HashOfOne(k, v, hash);
  }

  lemma WrapsOnce(a: nat)
    requires a < 2 * WRAP
    ensures a % WRAP == if a < WRAP then a else a - WRAP
  {}

  lemma SumsDiffer(x: Word, p: Word, q: Word)
    requires p != q
    ensures (x + p) % WRAP != (x + q) % WRAP
  {
    WrapsOnce(x + p);
    WrapsOnce(x + q);
  }

  lemma HashCodesApart(t: MediaType, u: MediaType, hash: string -> Word)
    requires t.primary == u.primary && t.subtype == u.subtype
    requires MapHash(t.parameters, hash) != MapHash(u.parameters, hash)
    ensures HashCode(t, hash) != HashCode(u, hash)
  {
    var x := hash(Lower(t.primary) + Lower(t.subtype));
    SumsDiffer(x, MapHash(t.parameters, hash), MapHash(u.parameters, hash));
  }

  lemma HashOfChar(s: string)
    requires |s| == 1
    ensures StringHash(s) == s[0] as int % WRAP
  {
    assert s[..|s| - 1] == "";
  }

  /** Without lower-case keys equal media types have different hash codes: keys are hashed as they are. */
  lemma CaseInKeysBreaksHashing()
    ensures var t, u := MediaType("a", "b", map["A" := "x"]), MediaType("a", "b", map["a" := "x"]);
      EqualTo(t, u) && HashCode(t, StringHash) != HashCode(u, StringHash)
  {
    var t, u := MediaType("a", "b", map["A" := "x"]), MediaType("a", "b", map["a" := "x"]);
    FoundInOther();
    HashOfChar("A");
    HashOfChar("a");
    HashOfChar("x");
    MapHashesApart("A", "a", "x", StringHash);
    HashCodesApart(t, u, StringHash);
  }

  lemma FoundInOther()
    ensures SameParameters(map["A" := "x"], map["a" := "x"])
  {
    var p, q := map["A" := "x"], map["a" := "x"];
    assert Lower("A") == Lower("a");
    assert "a" in q && Finds(q, "A", p["A"]);
  }

  /** The two names are hashed as one text in lower case, and the hash of the parameters is added. */
  lemma HashOfPlain()
    ensures HashCode(MediaType("A", "b", map[]), StringHash) == 97 * 31 + 98
  {
    EmptyListing(ListOf<string>({}), {});
    assert Lower("A") + Lower("b") == "ab";
    StringHashMeaning("ab");
    assert "ab"[1..] == "b" && "b"[1..] == "";
    assert Power31(0) == 1 && Power31(1) == 31;
    assert Polynomial("b") == 98;
    assert Polynomial("ab") == 97 * 31 + 98;
  }

  /** Equality is an equivalence on constructed media types, and equal ones have equal hash codes,
      whatever the hash of strings. */
  lemma EqualityContract(t: MediaType, u: MediaType, v: MediaType)
    requires LowerKeys(t.parameters) && LowerKeys(u.parameters) && LowerKeys(v.parameters)
    ensures EqualTo(t, t)
    ensures EqualTo(t, u) ==> EqualTo(u, t)
    ensures EqualTo(t, u) && EqualTo(u, v) ==> EqualTo(t, v)
    ensures EqualTo(t, u) ==> forall hash: string -> Word :: HashCode(t, hash) == HashCode(u, hash)
  {
    SameParametersExactlyWhen(t.parameters, t.parameters);
    SameParametersExactlyWhen(t.parameters, u.parameters);
    SameParametersExactlyWhen(u.parameters, t.parameters);
    SameParametersExactlyWhen(u.parameters, v.parameters);
    SameParametersExactlyWhen(t.parameters, v.parameters);
    EqualHashes(t, u);
  }

  lemma EqualHashes(t: MediaType, u: MediaType)
    requires LowerKeys(t.parameters) && LowerKeys(u.parameters)
    ensures EqualTo(t, u) ==> forall hash: string -> Word :: HashCode(t, hash) == HashCode(u, hash)
  {
    SameParametersExactlyWhen(t.parameters, u.parameters);
  }

  predicate IsCompatible(t: MediaType, u: MediaType) {
    || t.primary == WILDCARD || u.primary == WILDCARD
    || (Lower(t.primary) == Lower(u.primary) && (t.subtype == WILDCARD || u.subtype == WILDCARD))
    || (Lower(t.primary) == Lower(u.primary) && Lower(t.subtype) == Lower(u.subtype))
  }

  lemma LowerWildcard(s: string)
    ensures Lower(s) == WILDCARD <==> s == WILDCARD
  {
    if Lower(s) == WILDCARD {
      assert |s| == 1 && LowerChar(s[0]) == '*';
    }
  }

  /** A media type that may hold wildcards covers the concrete names `p`/`s`. */
  ghost predicate Covers(t: MediaType, p: string, s: string) {
    t.primary == "*" || (SameIgnoringCase(t.primary, p) && (t.subtype == "*" || SameIgnoringCase(t.subtype, s)))
  }

  lemma CoversExactlyWhen(t: MediaType, p: string, s: string)
    ensures Covers(t, p, s)
       <==> t.primary == "*" || (Lower(t.primary) == Lower(p) && (t.subtype == "*" || Lower(t.subtype) == Lower(s)))
  {
    LowerSameExactlyWhen(t.primary, p);
    LowerSameExactlyWhen(t.subtype, s);
  }

  lemma CommonNames(t: MediaType, u: MediaType) returns (p: string, s: string)
    requires IsCompatible(t, u)
    ensures Covers(t, p, s) && Covers(u, p, s)
  {
    p := if t.primary == "*" then u.primary else t.primary;
    s := if t.primary == "*" || t.subtype == "*" then u.subtype else t.subtype;
    CoversExactlyWhen(t, p, s);
    CoversExactlyWhen(u, p, s);
  }

  /** Two media types are compatible exactly when some names are covered by both. */
  lemma CompatibleExactlyWhen(t: MediaType, u: MediaType)
    ensures IsCompatible(t, u) <==> exists p, s :: Covers(t, p, s) && Covers(u, p, s)
  {
    if IsCompatible(t, u) {
      var p, s := CommonNames(t, u);
    }
    if p, s :| Covers(t, p, s) && Covers(u, p, s) {
      CoversExactlyWhen(t, p, s);
      CoversExactlyWhen(u, p, s);
    }
  }

  /** Compatibility is commutative and does not tell equal media types apart. */
  lemma CompatibilityContract(t: MediaType, u: MediaType, v: MediaType)
    ensures IsCompatible(t, u) == IsCompatible(u, t)
    ensures EqualTo(t, u) ==> IsCompatible(t, v) == IsCompatible(u, v)
  {
    LowerWildcard(t.primary);
    LowerWildcard(u.primary);
    LowerWildcard(t.subtype);
    LowerWildcard(u.subtype);
  }
}
