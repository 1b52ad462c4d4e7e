/** A parsed YIN file and the value dictionary of a model instance, and which value paths the schema knows. */
module YinTree {
  import opened Wrappers
  import opened Text
  import opened EditHistory

  /** An XML element. */
  datatype Element = Element(tag: string, attrib: map<string, string>, children: seq<Element>)

  /** The value tree of a model: a nested dictionary, or anything else. */
  datatype Value = Leaf | Dict(items: map<string, Value>)

  const IMPORTANT_KEYWORDS: seq<string> :=
    ["container", "list", "leaf", "leaf-list", "choice", "anyxml", "uses"]

  /** The XML namespace of a file, from the "{namespace}tag" of its root. */
  function NamespaceOf(root: Element): Option<string> {
    if root.tag != "" && root.tag[0] == '{' then Some(Split(root.tag[1..], '}')[0]) else None
  }

  function WithNamespace(ns: Option<string>, name: string): string {
    if ns.None? then name else "{" + ns.value + "}" + name
  }

  function Keywords(ns: Option<string>): set<string> {
    set kw | kw in IMPORTANT_KEYWORDS :: WithNamespace(ns, kw)
  }

  function NameOf(n: Element): string {
    if "name" in n.attrib then n.attrib["name"] else ""
  }

  predicate IsNamed(ns: Option<string>, n: Element, key: string) {
    "name" in n.attrib && n.tag in Keywords(ns) && n.attrib["name"] == key
  }

  /** The first child that carries a keyword tag and the name `key`. */
  function ChildFrom(ns: Option<string>, children: seq<Element>, key: string): (c: Option<Element>)
    ensures c.Some? ==> IsNamed(ns, c.value, key) && c.value in children
    ensures c.None? ==> forall n :: n in children ==> !IsNamed(ns, n, key)
  {
    if children == [] then None
    else if IsNamed(ns, children[0], key) then Some(children[0])
    else ChildFrom(ns, children[1..], key)
  }

  function Child(ns: Option<string>, n: Element, key: string): Option<Element> {
    ChildFrom(ns, n.children, key)
  }

  /** The first child with the given tag. */
  function FindFrom(children: seq<Element>, tag: string): (c: Option<Element>)
    ensures c.Some? ==> c.value in children && c.value.tag == tag
    ensures c.None? ==> forall n :: n in children ==> n.tag != tag
  {
    if children == [] then None
    else if children[0].tag == tag then Some(children[0])
    else FindFrom(children[1..], tag)
  }

  function ConfigStatement(ns: Option<string>, n: Element): Option<Element> {
    FindFrom(n.children, WithNamespace(ns, "config"))
  }

  /** The node carries a config statement without its "value" argument. */
  predicate BadConfig(ns: Option<string>, n: Element) {
    var c := ConfigStatement(ns, n);
    c.Some? && "value" !in c.value.attrib
  }

  /** The node itself says config "false". */
  predicate SaysFalse(ns: Option<string>, n: Element) {
    var c := ConfigStatement(ns, n);
    c.Some? && "value" in c.value.attrib && Lower(c.value.attrib["value"]) == "false"
  }

  // ---------- What these mean in the text of a file ----------

  /** The namespace is what stands between the braces in front of the root's tag; without a brace there is none. */
  lemma NamespaceOfTag(root: Element, n: string, rest: string)
    ensures '}' !in n && root.tag == "{" + n + "}" + rest ==> NamespaceOf(root) == Some(n)
    ensures '}' !in n && root.tag == "{" + n ==> NamespaceOf(root) == Some(n)
    ensures root.tag == "" || root.tag[0] != '{' ==> NamespaceOf(root) == None
  {
    if '}' !in n {
      SplitWhole(n, '}');
      SplitPeel(n, rest, '}');
      if root.tag == "{" + n + "}" + rest {
        assert root.tag[1..] == n + ['}'] + rest;
      }
      if root.tag == "{" + n {
        assert root.tag[1..] == n;
      }
    }
  }

  /** The prefix that a keyword carries in the tags of a file. */
  function TagPrefix(ns: Option<string>): string {
    if ns.Some? then "{" + ns.value + "}" else ""
  }

  lemma WithNamespaceIsPrefixed(ns: Option<string>, name: string)
    ensures WithNamespace(ns, name) == TagPrefix(ns) + name
  {
    assert "" + name == name;
  }

  lemma KeywordLiterals(kw: string)
    ensures kw in IMPORTANT_KEYWORDS
       <==> kw in {"container", "list", "leaf", "leaf-list", "choice", "anyxml", "uses"}
  {
    var all := IMPORTANT_KEYWORDS;
    assert all[0] == "container" && all[1] == "list" && all[2] == "leaf" && all[3] == "leaf-list";
    assert all[4] == "choice" && all[5] == "anyxml" && all[6] == "uses";
  }

  /** The node has that name and, in the namespace of the file, one of the seven keywords as its tag. */
  ghost predicate IsTaggedNamed(ns: Option<string>, n: Element, key: string) {
    && "name" in n.attrib && n.attrib["name"] == key
    && exists kw :: kw in {"container", "list", "leaf", "leaf-list", "choice", "anyxml", "uses"}
                    && n.tag == TagPrefix(ns) + kw
  }

  lemma NamedExactlyWhen(ns: Option<string>, n: Element, key: string)
    ensures IsNamed(ns, n, key) <==> IsTaggedNamed(ns, n, key)
  {
    forall kw ensures WithNamespace(ns, kw) == TagPrefix(ns) + kw {
      WithNamespaceIsPrefixed(ns, kw);
    }
    if "name" in n.attrib && n.attrib["name"] == key {
      if n.tag in Keywords(ns) {
        var kw :| kw in IMPORTANT_KEYWORDS && n.tag == WithNamespace(ns, kw);
        KeywordLiterals(kw);
      }
      if kw :| kw in {"container", "list", "leaf", "leaf-list", "choice", "anyxml", "uses"}
               && n.tag == TagPrefix(ns) + kw {
        KeywordLiterals(kw);
        assert WithNamespace(ns, kw) in Keywords(ns);
      }
    }
  }

  /** Of several children with that name and a keyword the first one is taken. */
  lemma {:induction false} FirstChildIsTaken(ns: Option<string>, before: seq<Element>, c: Element,
                                             after: seq<Element>, key: string)
    requires forall i :: 0 <= i < |before| ==> !IsNamed(ns, before[i], key)
    requires IsNamed(ns, c, key)
    ensures ChildFrom(ns, before + [c] + after, key) == Some(c)
  {
    if before != [] {
      FirstChildIsTaken(ns, before[1..], c, after, key);
      assert (before + [c] + after)[1..] == before[1..] + [c] + after;
    }
  }

  lemma {:induction false} FirstTagIsFound(before: seq<Element>, c: Element, after: seq<Element>, tag: string)
    requires forall i :: 0 <= i < |before| ==> before[i].tag != tag
    requires c.tag == tag
    ensures FindFrom(before + [c] + after, tag) == Some(c)
  {
    if before != [] {
      FirstTagIsFound(before[1..], c, after, tag);
      assert (before + [c] + after)[1..] == before[1..] + [c] + after;
    }
  }

  /** Of several config statements the first one counts. It says config "false" in any mix of cases, and
      it is bad exactly when it has no value. */
  lemma FirstConfigCounts(ns: Option<string>, n: Element, before: seq<Element>, c: Element, after: seq<Element>)
    requires n.children == before + [c] + after && c.tag == TagPrefix(ns) + "config"
    requires forall i :: 0 <= i < |before| ==> before[i].tag != TagPrefix(ns) + "config"
    ensures BadConfig(ns, n) <==> "value" !in c.attrib
    ensures SaysFalse(ns, n) <==> "value" in c.attrib && SameIgnoringCase(c.attrib["value"], "false")
  {
    WithNamespaceIsPrefixed(ns, "config");
    FirstTagIsFound(before, c, after, TagPrefix(ns) + "config");
    if "value" in c.attrib {
      LowerSameExactlyWhen(c.attrib["value"], "false");
      LowerFalse();
    }
  }

  lemma LowerFalse()
    ensures Lower("false") == "false"
  {}

  lemma NoConfigStatement(ns: Option<string>, n: Element)
    requires forall c :: c in n.children ==> c.tag != TagPrefix(ns) + "config"
    ensures !BadConfig(ns, n) && !SaysFalse(ns, n)
  {
    WithNamespaceIsPrefixed(ns, "config");
  }

  // ---------- The value and the schema in step ----------

  /** A value together with the schema node it is walked in step with. */
  datatype Scope = Scope(ns: Option<string>, value: Value, node: Element) {
    /** `key` is in the value and has a matching keyword child in the schema. */
    predicate Knows(key: string) {
      value.Dict? && key in value.items && Child(ns, node, key).Some?
    }

    function Below(key: string): Scope
      requires Knows(key)
    {
      Scope(ns, value.items[key], Child(ns, node, key).value)
    }

    function Keys(): set<string> {
      if value.Dict? then value.items.Keys else {}
    }
  }

  /** A key is known exactly when the value has it and some child of the schema node has that name and a keyword tag. */
  lemma KnowsExactlyWhen(s: Scope, key: string)
    ensures s.Knows(key)
       <==> && s.value.Dict? && key in s.value.items
            && exists n :: n in s.node.children && IsTaggedNamed(s.ns, n, key)
  {
    forall n | n in s.node.children ensures IsNamed(s.ns, n, key) <==> IsTaggedNamed(s.ns, n, key) {
      NamedExactlyWhen(s.ns, n, key);
    }
  }

  /** The schema node of the path `p`, if every component is known. */
  function Locate(s: Scope, p: Path): Option<Element>
    decreases |p|
  {
    if p == [] then Some(s.node)
    else if s.Knows(p[0]) then Locate(s.Below(p[0]), p[1..])
    else None
  }

  /** The schema node of `p` itself says config "false". */
  ghost predicate OffAt(s: Scope, p: Path) {
    Locate(s, p).Some? && SaysFalse(s.ns, Locate(s, p).value)
  }

  /** Config as the walk works it out, one known node after the other. */
  ghost predicate ConfigOn(s: Scope, p: Path)
    decreases |p|
  {
    p != [] && s.Knows(p[0]) ==> !SaysFalse(s.ns, s.Below(p[0]).node) && ConfigOn(s.Below(p[0]), p[1..])
  }

  /** The walk reads a missing "value": `p` still inherits config "true" and its own config statement has none. */
  ghost predicate CrashAt(s: Scope, inherited: bool, p: Path) {
    && p != []
    && Locate(s, p).Some?
    && BadConfig(s.ns, Locate(s, p).value)
    && inherited && ConfigOn(s, p[..|p| - 1])
  }

  lemma LocateStep(s: Scope, key: string, q: Path)
    ensures Locate(s, [key] + q) == if s.Knows(key) then Locate(s.Below(key), q) else None
  {
    assert ([key] + q)[1..] == q;
  }

  /** The located paths are closed under dropping components at the end. */
  lemma {:induction false} LocatePrefixClosed(s: Scope, p: Path, i: nat)
    requires i <= |p| && Locate(s, p).Some?
    ensures Locate(s, p[..i]).Some?
    decreases |p|
  {
    if i > 0 {
      LocatePrefixClosed(s.Below(p[0]), p[1..], i - 1);
      assert p[..i][1..] == p[1..][..i - 1];
    }
  }

  lemma OffAtStep(s: Scope, p: Path, i: nat)
    requires 0 < i <= |p| && s.Knows(p[0])
    ensures OffAt(s, p[..i]) <==> OffAt(s.Below(p[0]), p[1..][..i - 1])
  {
    assert p[..i][1..] == p[1..][..i - 1];
  }

  lemma {:induction false} ConfigOnMeansNoneOff(s: Scope, p: Path, i: nat)
    requires ConfigOn(s, p) && 0 < i <= |p|
    ensures !OffAt(s, p[..i])
    decreases |p|
  {
    if s.Knows(p[0]) {
      OffAtStep(s, p, i);
      if i > 1 {
        ConfigOnMeansNoneOff(s.Below(p[0]), p[1..], i - 1);
      }
    }
  }

  lemma {:induction false} NoneOffMeansConfigOn(s: Scope, p: Path)
    requires forall i :: 0 < i <= |p| ==> !OffAt(s, p[..i])
    ensures ConfigOn(s, p)
    decreases |p|
  {
    if p != [] && s.Knows(p[0]) {
      OffAtStep(s, p, 1);
      forall i | 0 < i <= |p| - 1 ensures !OffAt(s.Below(p[0]), p[1..][..i]) {
        OffAtStep(s, p, i + 1);
      }
      NoneOffMeansConfigOn(s.Below(p[0]), p[1..]);
    }
  }

  /** The inheritance rule of section 7.19.1 of RFC 6020: a node is configuration exactly when no
      schema node on the way down to it, itself included, says config "false". */
  lemma ConfigExactlyWhen(s: Scope, p: Path)
    ensures ConfigOn(s, p) <==> forall i :: 0 < i <= |p| ==> !OffAt(s, p[..i])
  {
    if ConfigOn(s, p) {
      forall i | 0 < i <= |p| ensures !OffAt(s, p[..i]) {
        ConfigOnMeansNoneOff(s, p, i);
      }
    } else if forall i :: 0 < i <= |p| ==> !OffAt(s, p[..i]) {
      NoneOffMeansConfigOn(s, p);
    }
  }

  lemma ConfigOnStep(s: Scope, key: string, q: Path)
    requires s.Knows(key)
    ensures ConfigOn(s, [key] + q) <==> !SaysFalse(s.ns, s.Below(key).node) && ConfigOn(s.Below(key), q)
  {}

  /** A path with config on stays so when components are dropped at the end. */
  lemma {:induction false} ConfigOnPrefix(s: Scope, p: Path, i: nat)
    requires i <= |p| && ConfigOn(s, p)
    ensures ConfigOn(s, p[..i])
    decreases |p|
  {
    if i > 0 && s.Knows(p[0]) {
      ConfigOnPrefix(s.Below(p[0]), p[1..], i - 1);
      assert p[..i][1..] == p[1..][..i - 1];
    }
  }

  /** Where the walk crashes: at the first component, or further down with the inherited flag updated. */
  lemma CrashAtStep(s: Scope, inherited: bool, key: string, q: Path)
    ensures CrashAt(s, inherited, [key] + q)
       <==> s.Knows(key) &&
            if q == [] then inherited && BadConfig(s.ns, s.Below(key).node)
            else CrashAt(s.Below(key), inherited && !SaysFalse(s.ns, s.Below(key).node), q)
  {
    var p := [key] + q;
    LocateStep(s, key, q);
    if q == [] {
      assert p[..|p| - 1] == [];
    } else if s.Knows(key) {
      assert p[..|p| - 1] == [key] + q[..|q| - 1];
      ConfigOnStep(s, key, q[..|q| - 1]);
    }
  }

  /** The walk crashes at a path that starts with one of `keys`. */
  ghost predicate CrashIn(s: Scope, inherited: bool, keys: set<string>) {
    exists p :: CrashAt(s, inherited, p) && p[0] in keys
  }

  ghost predicate Crashes(s: Scope, inherited: bool) { exists p :: CrashAt(s, inherited, p) }

  lemma CrashesInSomeKey(s: Scope, inherited: bool)
    ensures Crashes(s, inherited) <==> CrashIn(s, inherited, s.Keys())
  {}

  lemma CrashInUnion(s: Scope, inherited: bool, keys: set<string>, more: set<string>)
    ensures CrashIn(s, inherited, keys + more) <==> CrashIn(s, inherited, keys) || CrashIn(s, inherited, more)
  {}

  lemma CrashAtOwnNode(s: Scope, inherited: bool, key: string)
    requires s.Knows(key) && inherited && BadConfig(s.ns, s.Below(key).node)
    ensures CrashIn(s, inherited, {key})
  {
    CrashAtStep(s, inherited, key, []);
    assert [key] + [] == [key];
  }

  lemma CrashFurtherDown(s: Scope, inherited: bool, key: string)
    requires s.Knows(key) && Crashes(s.Below(key), inherited && !SaysFalse(s.ns, s.Below(key).node))
    ensures CrashIn(s, inherited, {key})
  {
    var q :| CrashAt(s.Below(key), inherited && !SaysFalse(s.ns, s.Below(key).node), q);
    CrashAtStep(s, inherited, key, q);
  }

  lemma CrashAtBelowKey(s: Scope, inherited: bool, key: string, q: Path)
    requires CrashAt(s, inherited, [key] + q)
    ensures s.Knows(key)
    ensures || (inherited && BadConfig(s.ns, s.Below(key).node))
            || Crashes(s.Below(key), inherited && !SaysFalse(s.ns, s.Below(key).node))
  {
    CrashAtStep(s, inherited, key, q);
  }

  lemma CrashOnlyThere(s: Scope, inherited: bool, key: string)
    requires CrashIn(s, inherited, {key})
    ensures s.Knows(key)
    ensures || (inherited && BadConfig(s.ns, s.Below(key).node))
            || Crashes(s.Below(key), inherited && !SaysFalse(s.ns, s.Below(key).node))
  {
    var p :| CrashAt(s, inherited, p) && p[0] in {key};
    assert p == [p[0]] + p[1..];
    CrashAtBelowKey(s, inherited, p[0], p[1..]);
  }

  /** The walk crashes below a key exactly when it knows the key and crashes at its node or in the
      recursive call with the updated flag. */
  lemma CrashInKey(s: Scope, inherited: bool, key: string)
    ensures CrashIn(s, inherited, {key})
       <==> s.Knows(key) && ((inherited && BadConfig(s.ns, s.Below(key).node))
                             || Crashes(s.Below(key), inherited && !SaysFalse(s.ns, s.Below(key).node)))
  {
    if CrashIn(s, inherited, {key}) {
      CrashOnlyThere(s, inherited, key);
    } else if s.Knows(key) {
      if inherited && BadConfig(s.ns, s.Below(key).node) {
        CrashAtOwnNode(s, inherited, key);
      }
      if Crashes(s.Below(key), inherited && !SaysFalse(s.ns, s.Below(key).node)) {
        CrashFurtherDown(s, inherited, key);
      }
    }
  }

  const BAD_LEAF := Element("leaf", map["name" := "b"], [Element("config", map[], [])])
  const BAD_ROOT := Element("module", map[], [BAD_LEAF])
  const BAD_VALUE := Dict(map["b" := Leaf])

  /** A config statement without a value makes the walk crash where config "true" is inherited, and
      goes unnoticed where it is not. */
  lemma MissingConfigValue()
    ensures var s := Scope(None, BAD_VALUE, BAD_ROOT); Crashes(s, true) && !Crashes(s, false)
  {
    var s := Scope(None, BAD_VALUE, BAD_ROOT);
    PlainKeywords();
    assert Child(None, BAD_ROOT, "b") == Some(BAD_LEAF);
    assert ConfigStatement(None, BAD_LEAF) == Some(Element("config", map[], []));
    CrashAtOwnNode(s, true, "b");
  }

  /** A path of the value whose every component the schema knows. */
  ghost predicate Known(s: Scope, p: Path) { p != [] && Locate(s, p).Some? }

  // ---------- Paths as text ----------

  /** "/" in front of every component. */
  function PathText(p: Path): string {
    if p == [] then "" else "/" + Join(p, '/')
  }

  lemma PathTextBelow(key: string, q: Path)
    ensures PathText([key] + q) == "/" + key + PathText(q)
  {
    assert ([key] + q)[1..] == q;
    if q == [] {
      assert "/" + key + "" == "/" + key;
    } else {
      assert "/" + (key + ['/'] + Join(q, '/')) == "/" + key + ("/" + Join(q, '/'));
    }
  }

  /** Without "/" in the component names, different paths have different texts. */
  lemma PathTextInjective(p: Path, q: Path)
    requires Free(p, '/') && Free(q, '/') && PathText(p) == PathText(q)
    ensures p == q
  {
    if p != [] && q != [] {
      assert Join(p, '/') == PathText(p)[1..] && Join(q, '/') == PathText(q)[1..];
      SplitJoin(p, '/');
      SplitJoin(q, '/');
    }
  }

  /** No two paths that the walk will find share a text: a condition on the value and the schema. */
  ghost predicate KnownTextsDiffer(s: Scope) {
    forall p, q :: Known(s, p) && Known(s, q) && PathText(p) == PathText(q) ==> p == q
  }

  /** No dictionary key anywhere in the value contains "/". */
  ghost predicate SlashFree(v: Value) {
    v.Dict? ==> forall k :: k in v.items ==> '/' !in k && SlashFree(v.items[k])
  }

  lemma {:induction false} LocatedSlashFree(s: Scope, p: Path)
    requires SlashFree(s.value) && Locate(s, p).Some?
    ensures Free(p, '/')
    decreases |p|
  {
    if p != [] {
      LocatedSlashFree(s.Below(p[0]), p[1..]);
      forall i | 0 <= i < |p| ensures '/' !in p[i] {
        if i > 0 { assert p[i] == p[1..][i - 1]; }
      }
    }
  }

  /** Keys without "/" never make two known paths share a text. */
  lemma SlashFreeTextsDiffer(s: Scope)
    requires SlashFree(s.value)
    ensures KnownTextsDiffer(s)
  {
    forall p, q | Known(s, p) && Known(s, q) && PathText(p) == PathText(q) ensures p == q {
      LocatedSlashFree(s, p);
      LocatedSlashFree(s, q);
      PathTextInjective(p, q);
    }
  }

  /** A leaf that says config "false" and whose name contains "/", beside a container "a" with a leaf "b". */
  const OFF_LEAF := Element("leaf", map["name" := "a/b"], [Element("config", map["value" := "false"], [])])
  const INNER_LEAF := Element("leaf", map["name" := "b"], [])
  const CONTAINER := Element("container", map["name" := "a"], [INNER_LEAF])
  const SLASHED_ROOT := Element("module", map[], [CONTAINER, OFF_LEAF])
  const SLASHED_VALUE := Dict(map["a" := Dict(map["b" := Leaf]), "a/b" := Leaf])

  lemma PlainKeywords()
    ensures "container" in Keywords(None) && "leaf" in Keywords(None)
  {
    assert WithNamespace(None, IMPORTANT_KEYWORDS[0]) == "container";
    assert WithNamespace(None, IMPORTANT_KEYWORDS[2]) == "leaf";
  }

  lemma SlashedChildren()
    ensures Child(None, SLASHED_ROOT, "a") == Some(CONTAINER)
    ensures Child(None, SLASHED_ROOT, "a/b") == Some(OFF_LEAF)
    ensures Child(None, CONTAINER, "b") == Some(INNER_LEAF)
  {
    PlainKeywords();
    assert "a" != "a/b";
    assert ChildFrom(None, [OFF_LEAF], "a/b") == Some(OFF_LEAF);
    assert SLASHED_ROOT.children[1..] == [OFF_LEAF];
  }

  lemma SlashedTexts()
    ensures PathText(["a", "b"]) == "/a/b" && PathText(["a/b"]) == "/a/b"
  {
    PathTextBelow("a", ["b"]);
    assert ["a"] + ["b"] == ["a", "b"];
    assert PathText(["b"]) == "/b" && PathText(["a/b"]) == "/a/b";
  }

  /** With a "/" inside a key two located paths can share one text although only one of them is configuration. */
  lemma SlashCollision()
    ensures var s := Scope(None, SLASHED_VALUE, SLASHED_ROOT);
      && Locate(s, ["a", "b"]) == Some(INNER_LEAF)
      && Locate(s, ["a/b"]) == Some(OFF_LEAF)
      && PathText(["a", "b"]) == PathText(["a/b"])
      && !KnownTextsDiffer(s)
      && ConfigOn(s, ["a", "b"]) && !ConfigOn(s, ["a/b"])
  {
    SlashedChildren();
    SlashedTexts();
    var s := Scope(None, SLASHED_VALUE, SLASHED_ROOT);
    LocateStep(s, "a", ["b"]);
    LocateStep(s.Below("a"), "b", []);
    assert ["a"] + ["b"] == ["a", "b"] && ["b"] + [] == ["b"];
    assert Known(s, ["a", "b"]) && Known(s, ["a/b"]) && |["a", "b"]| != |["a/b"]|;
    SlashedConfig();
  }

  lemma SlashedStatements()
    ensures SaysFalse(None, OFF_LEAF) && !SaysFalse(None, CONTAINER) && !SaysFalse(None, INNER_LEAF)
  {
    var falseText := "false";
    assert Lower(falseText) == falseText;
  }

  lemma SlashedConfig()
    ensures var s := Scope(None, SLASHED_VALUE, SLASHED_ROOT); ConfigOn(s, ["a", "b"]) && !ConfigOn(s, ["a/b"])
  {
    SlashedChildren();
    var s := Scope(None, SLASHED_VALUE, SLASHED_ROOT);
    SlashedStatements();
    ConfigOnStep(s, "a", ["b"]);
    ConfigOnStep(s.Below("a"), "b", []);
    ConfigOnStep(s, "a/b", []);
    assert ["a"] + ["b"] == ["a", "b"] && ["b"] + [] == ["b"] && ["a/b"] + [] == ["a/b"];
  }

  lemma CrashInOne(s: Scope, inherited: bool) returns (key: string)
    requires Crashes(s, inherited)
    ensures key in s.Keys() && CrashIn(s, inherited, {key})
  {
    CrashesInSomeKey(s, inherited);
    var p :| CrashAt(s, inherited, p) && p[0] in s.Keys();
    key := p[0];
  }

  lemma NothingToRead(s: Scope, inherited: bool, key: string)
    requires s.Knows(key) && !BadConfig(s.ns, s.Below(key).node) && s.Below(key).Keys() == {}
    ensures !CrashIn(s, inherited, {key})
  {
    CrashInKey(s, inherited, key);
    if Crashes(s.Below(key), inherited && !SaysFalse(s.ns, s.Below(key).node)) {
      var k := CrashInOne(s.Below(key), inherited && !SaysFalse(s.ns, s.Below(key).node));
    }
  }

  /** Every config statement of that schema has its value. */
  lemma SlashedRuns()
    ensures !Crashes(Scope(None, SLASHED_VALUE, SLASHED_ROOT), true)
  {
    var s := Scope(None, SLASHED_VALUE, SLASHED_ROOT);
    SlashedChildren();
    SlashedStatements();
    NothingToRead(s, true, "a/b");
    NothingToRead(s.Below("a"), true, "b");
    CrashInKey(s, true, "a");
    if Crashes(s.Below("a"), true) {
      var k := CrashInOne(s.Below("a"), true);
    }
    if Crashes(s, true) {
      var k := CrashInOne(s, true);
    }
  }
}
