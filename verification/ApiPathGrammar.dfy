/** The api-path grammar of RESTCONF (draft 10, section 3.5.1.1; now section 3.5.3.1 of RFC 8040)
    as an abstract syntax with a printer, and what a path means: its segments grouped by module.
    Nothing here splits text; the parser in DataResource.dfy is proved against it. */
module ApiPathGrammar {
  import opened Wrappers
  import opened Text

  predicate GoodStart(c: char) { 'a' <= c <= 'z' || 'A' <= c <= 'Z' || c == '_' }

  predicate ValidChar(c: char) { GoodStart(c) || '0' <= c <= '9' || c == '-' || c == '.' }

  /** identifier = (ALPHA / "_") *(ALPHA / DIGIT / "_" / "-" / ".") */
  predicate ValidIdentifier(s: string) {
    |s| > 0 && GoodStart(s[0]) && forall i :: 0 <= i < |s| ==> ValidChar(s[i])
  }

  lemma GoodStartExactlyWhen(c: char)
    ensures GoodStart(c) <==> c in LOWER || c in UPPER || c == '_'
  {
    InLower(c);
    InUpper(c);
  }

  /** The characters of identifiers: letters, digits, "_", "-" and ".". */
  lemma ValidCharExactlyWhen(c: char)
    ensures ValidChar(c) <==> c in LOWER || c in UPPER || c in DIGITS || c in {'_', '-', '.'}
  {
    GoodStartExactlyWhen(c);
    InDigits(c);
  }

  /** An identifier is a letter or "_" followed by any number of letters, digits, "_", "-" and ".". */
  lemma IdentifierExactlyWhen(s: string)
    ensures ValidIdentifier(s)
       <==> && s != ""
            && (s[0] in LOWER || s[0] in UPPER || s[0] == '_')
            && forall i :: 1 <= i < |s| ==> s[i] in LOWER || s[i] in UPPER || s[i] in DIGITS || s[i] in {'_', '-', '.'}
  {
    forall i | 0 <= i < |s|
      ensures ValidChar(s[i]) <==> s[i] in LOWER || s[i] in UPPER || s[i] in DIGITS || s[i] in {'_', '-', '.'}
    {
      ValidCharExactlyWhen(s[i]);
    }
    if s != "" {
      GoodStartExactlyWhen(s[0]);
    }
  }

  /** One step of a path. No keys means a plain identifier, keys mean a list-instance. */
  datatype Segment = Segment(prefix: Option<string>, name: string, keys: seq<string>)

  function ShowInstance(name: string, keys: seq<string>): string {
    name + "=" + Join(keys, ',')
  }

  function ShowBody(s: Segment): string {
    if s.keys == [] then s.name else ShowInstance(s.name, s.keys)
  }

  function Show(s: Segment): string {
    if s.prefix.Some? then s.prefix.value + ":" + ShowBody(s) else ShowBody(s)
  }

  /** A list-instance: the keys may individually be empty but not all of them blank. */
  ghost predicate WellFormedInstance(name: string, keys: seq<string>) {
    && ValidIdentifier(name)
    && keys != []
    && Free(keys, '=') && Free(keys, ',')
    && !Blank(Join(keys, ','))
  }

  ghost predicate WellFormedBody(s: Segment) {
    if s.keys == [] then ValidIdentifier(s.name) else WellFormedInstance(s.name, s.keys)
  }

  ghost predicate WellFormed(s: Segment) {
    && WellFormedBody(s)
    && Free(s.keys, ':')
    && (s.prefix.Some? ==> ValidIdentifier(s.prefix.value))
  }

  /** `text`, with no module name in front, is the body of `s`. */
  ghost predicate IsBody(text: string, s: Segment) {
    WellFormedBody(s) && text == ShowBody(s)
  }

  ghost predicate Denotes(text: string, s: Segment) {
    WellFormed(s) && text == Show(s)
  }

  function Shows(segments: seq<Segment>): (r: seq<string>)
    ensures |r| == |segments|
    ensures forall i :: 0 <= i < |r| ==> r[i] == Show(segments[i])
  {
    seq(|segments|, i requires 0 <= i < |segments| => Show(segments[i]))
  }

  function ShowPath(segments: seq<Segment>): string { Join(Shows(segments), '/') }

  ghost predicate WellFormedPath(segments: seq<Segment>) {
    forall i :: 0 <= i < |segments| ==> WellFormed(segments[i]) && '/' !in Show(segments[i])
  }

  /** The paths the code accepts: "/", or segments joined by "/" with or without one in front. */
  ghost predicate IsPath(resource: string, segments: seq<Segment>) {
    && WellFormedPath(segments)
    && if segments == [] then resource == "/"
       else resource == "/" + ShowPath(segments) || resource == ShowPath(segments)
  }

  // ---------- What a path means ----------

  /** The text filed for a segment: the name alone, or the name with its stripped key text in brackets. */
  function Stored(s: Segment): string {
    if s.keys == [] then s.name else s.name + "[" + Strip(Join(s.keys, ',')) + "]"
  }

  /** The nearest module name at or before position `i`, "" when there is none. */
  function ModuleAt(segments: seq<Segment>, i: nat): string
    requires i < |segments|
  {
    if segments[i].prefix.Some? then segments[i].prefix.value
    else if i == 0 then ""
    else ModuleAt(segments, i - 1)
  }

  function Modules(segments: seq<Segment>): set<string> {
    set i | 0 <= i < |segments| :: ModuleAt(segments, i)
  }

  /** The stored texts, in path order, of the first `n` segments that belong to module `m`. */
  function Under(segments: seq<Segment>, n: nat, m: string): seq<string>
    requires n <= |segments|
  {
    if n == 0 then []
    else Under(segments, n - 1, m) + (if ModuleAt(segments, n - 1) == m then [Stored(segments[n - 1])] else [])
  }

  /** The dictionary a path stands for: per module, precisely the segments that belong to it. */
  function GroupedBy(segments: seq<Segment>): map<string, seq<string>> {
    map m | m in Modules(segments) :: Under(segments, |segments|, m)
  }

  function Append(groups: map<string, seq<string>>, m: string, text: string): map<string, seq<string>> {
    groups[m := (if m in groups then groups[m] else []) + [text]]
  }

  lemma {:induction false} ModuleAtPrefix(segments: seq<Segment>, s: Segment, i: nat)
    requires i < |segments|
    ensures ModuleAt(segments + [s], i) == ModuleAt(segments, i)
  {
    if !segments[i].prefix.Some? && i > 0 {
      ModuleAtPrefix(segments, s, i - 1);
    }
  }

  lemma {:induction false} UnderPrefix(segments: seq<Segment>, s: Segment, n: nat, m: string)
    requires n <= |segments|
    ensures Under(segments + [s], n, m) == Under(segments, n, m)
  {
    if n > 0 {
      UnderPrefix(segments, s, n - 1, m);
      ModuleAtPrefix(segments, s, n - 1);
    }
  }

  lemma {:induction false} UnderForeignModule(segments: seq<Segment>, n: nat, m: string)
    requires n <= |segments| && m !in Modules(segments)
    ensures Under(segments, n, m) == []
  {
    if n > 0 {
      UnderForeignModule(segments, n - 1, m);
      assert ModuleAt(segments, n - 1) in Modules(segments);
    }
  }

  lemma ModuleKept(segments: seq<Segment>, s: Segment, m: string)
    requires m in Modules(segments)
    ensures m in Modules(segments + [s])
  {
    var i :| 0 <= i < |segments| && ModuleAt(segments, i) == m;
    ModuleAtPrefix(segments, s, i);
    assert ModuleAt(segments + [s], i) == m;
  }

  lemma ModuleNew(segments: seq<Segment>, s: Segment, m: string)
    requires m in Modules(segments + [s]) && m != ModuleAt(segments + [s], |segments|)
    ensures m in Modules(segments)
  {
    var i :| 0 <= i < |segments + [s]| && ModuleAt(segments + [s], i) == m;
    ModuleAtPrefix(segments, s, i);
    assert ModuleAt(segments, i) == m;
  }

  lemma ModulesSnoc(segments: seq<Segment>, s: Segment)
    ensures Modules(segments + [s]) == Modules(segments) + {ModuleAt(segments + [s], |segments|)}
  {
    var all, here := segments + [s], ModuleAt(segments + [s], |segments|);
    forall m | m in Modules(segments) ensures m in Modules(all) {
      ModuleKept(segments, s, m);
    }
    forall m | m in Modules(all) && m != here ensures m in Modules(segments) {
      ModuleNew(segments, s, m);
    }
    assert here in Modules(all);
  }

  lemma MapFromUnder(after: map<string, seq<string>>, before: map<string, seq<string>>, m: string, text: string)
    requires after.Keys == before.Keys + {m}
    requires forall k :: k in after ==>
               after[k] == (if k in before then before[k] else []) + (if k == m then [text] else [])
    ensures after == Append(before, m, text)
  {
    var appended := Append(before, m, text);
    forall k | k in after ensures after[k] == appended[k] {
      if k != m { assert after[k] == before[k] + []; }
    }
    assert after.Keys == appended.Keys;
  }

  lemma UnderSnoc(segments: seq<Segment>, s: Segment, m: string)
    ensures Under(segments + [s], |segments| + 1, m)
         == (if m in Modules(segments) then Under(segments, |segments|, m) else [])
          + (if m == ModuleAt(segments + [s], |segments|) then [Stored(s)] else [])
  {
    UnderPrefix(segments, s, |segments|, m);
    if m !in Modules(segments) {
      UnderForeignModule(segments, |segments|, m);
    }
  }

  /** Adding one more segment to a path appends its text under its module and changes nothing else. */
  lemma {:induction false} GroupedBySnoc(segments: seq<Segment>, s: Segment)
    ensures GroupedBy(segments + [s])
         == Append(GroupedBy(segments), ModuleAt(segments + [s], |segments|), Stored(s))
  {
    var all := segments + [s];
    ModulesSnoc(segments, s);
    forall m ensures Under(all, |all|, m)
         == (if m in Modules(segments) then Under(segments, |segments|, m) else [])
          + (if m == ModuleAt(all, |segments|) then [Stored(s)] else [])
    {
      UnderSnoc(segments, s, m);
    }
    MapFromUnder(GroupedBy(all), GroupedBy(segments), ModuleAt(all, |segments|), Stored(s));
  }

  // ---------- Conservation ----------

  /** The number of texts filed in a dictionary. */
  ghost function TotalLength(groups: map<string, seq<string>>): nat
    decreases |groups|
  {
    if groups == map[] then 0
    else
      var m :| m in groups;
      |groups[m]| + TotalLength(groups - {m})
  }

  lemma {:induction false} TotalLengthTakeOut(groups: map<string, seq<string>>, m: string)
    requires m in groups
    ensures TotalLength(groups) == |groups[m]| + TotalLength(groups - {m})
    decreases |groups|
  {
    var first :| first in groups && TotalLength(groups) == |groups[first]| + TotalLength(groups - {first});
    if first != m {
      TotalLengthTakeOut(groups - {first}, m);
      TotalLengthTakeOut(groups - {m}, first);
      assert groups - {first} - {m} == groups - {m} - {first};
    }
  }

  lemma TotalLengthAppend(groups: map<string, seq<string>>, m: string, text: string)
    ensures TotalLength(Append(groups, m, text)) == TotalLength(groups) + 1
  {
    var more := Append(groups, m, text);
    TotalLengthTakeOut(more, m);
    if m in groups {
      TotalLengthTakeOut(groups, m);
    }
    assert more - {m} == groups - {m};
    if m !in groups {
      assert groups - {m} == groups;
    }
  }

  /** Grouping neither drops nor repeats a segment. */
  lemma {:induction false} GroupingConserves(segments: seq<Segment>)
    ensures TotalLength(GroupedBy(segments)) == |segments|
  {
    if segments == [] {
      assert GroupedBy(segments) == map[];
    } else {
      var init, last := segments[..|segments| - 1], segments[|segments| - 1];
      assert segments == init + [last];
      GroupingConserves(init);
      GroupedBySnoc(init, last);
      TotalLengthAppend(GroupedBy(init), ModuleAt(segments, |init|), Stored(last));
    }
  }

  // ---------- Unambiguity ----------

  lemma IdentifierFree(s: string)
    requires ValidIdentifier(s)
    ensures ':' !in s && '=' !in s && ',' !in s && '/' !in s && '[' !in s
  {}

  lemma BodyHasEquals(s: Segment)
    requires WellFormedBody(s)
    ensures '=' in ShowBody(s) <==> s.keys != []
  {}

  /** A list-instance text fixes its name and its keys, empty keys included. */
  lemma InstanceUnambiguous(name1: string, keys1: seq<string>, name2: string, keys2: seq<string>)
    requires WellFormedInstance(name1, keys1) && WellFormedInstance(name2, keys2)
    requires ShowInstance(name1, keys1) == ShowInstance(name2, keys2)
    ensures name1 == name2 && keys1 == keys2
  {
    IdentifierFree(name1);
    IdentifierFree(name2);
    FirstCutUnique(name1, Join(keys1, ','), name2, Join(keys2, ','), '=');
    SplitJoin(keys1, ',');
    SplitJoin(keys2, ',');
  }

  lemma BodyUnambiguous(text: string, s: Segment, t: Segment)
    requires IsBody(text, s) && IsBody(text, t)
    ensures s.name == t.name && s.keys == t.keys
  {
    BodyHasEquals(s);
    BodyHasEquals(t);
    if s.keys != [] {
      InstanceUnambiguous(s.name, s.keys, t.name, t.keys);
    }
  }

  lemma BodyHasNoColon(s: Segment)
    requires WellFormed(s)
    ensures ':' !in ShowBody(s)
  {
    IdentifierFree(s.name);
    InJoin(s.keys, ',', ':');
  }

  lemma PrefixShows(s: Segment)
    requires WellFormed(s)
    ensures ':' in Show(s) <==> s.prefix.Some?
  {
    BodyHasNoColon(s);
    if s.prefix.Some? {
      assert Show(s)[|s.prefix.value|] == ':';
    }
  }

  /** No text is the text of two different segments. */
  lemma SegmentUnambiguous(text: string, s: Segment, t: Segment)
    requires Denotes(text, s) && Denotes(text, t)
    ensures s == t
  {
    PrefixShows(s);
    PrefixShows(t);
    if s.prefix.Some? {
      IdentifierFree(s.prefix.value);
      IdentifierFree(t.prefix.value);
      FirstCutUnique(s.prefix.value, ShowBody(s), t.prefix.value, ShowBody(t), ':');
    }
    BodyUnambiguous(ShowBody(s), s, t);
  }

  lemma ShowHasEquals(s: Segment)
    requires WellFormed(s)
    ensures '=' in Show(s) <==> s.keys != []
  {
    BodyHasEquals(s);
    if s.prefix.Some? {
      IdentifierFree(s.prefix.value);
      assert Show(s) == s.prefix.value + ":" + ShowBody(s);
    }
  }

  lemma ShowNotEmpty(s: Segment)
    requires WellFormed(s)
    ensures Show(s) != ""
  {}

  // ---------- Stored texts ----------

  /** When two segments are filed under the same text: same name, and the same key text up to the
      white space that is stripped from its ends. A plain identifier never meets a list-instance. */
  lemma StoredSameExactlyWhen(s: Segment, t: Segment)
    requires WellFormedBody(s) && WellFormedBody(t)
    ensures Stored(s) == Stored(t)
       <==> && s.name == t.name
            && (s.keys == [] <==> t.keys == [])
            && (s.keys != [] ==> Strip(Join(s.keys, ',')) == Strip(Join(t.keys, ',')))
  {
    IdentifierFree(s.name);
    IdentifierFree(t.name);
    if s.keys != [] {
      assert Stored(s)[|s.name|] == '[';
    }
    if t.keys != [] {
      assert Stored(t)[|t.name|] == '[';
    }
    if Stored(s) == Stored(t) && s.keys != [] && t.keys != [] {
      var a, b := Strip(Join(s.keys, ',')), Strip(Join(t.keys, ','));
      assert Stored(s) == s.name + ['['] + (a + "]");
      assert Stored(t) == t.name + ['['] + (b + "]");
      FirstCutUnique(s.name, a + "]", t.name, b + "]", '[');
      assert a == (a + "]")[..|a|] && b == (b + "]")[..|b|];
    }
  }

  /** Without white space at the ends of the key text the stored text determines the segment's body. */
  lemma StoredInjective(s: Segment, t: Segment)
    requires WellFormedBody(s) && WellFormedBody(t) && Stored(s) == Stored(t)
    requires s.keys != [] ==> var k := Join(s.keys, ','); !IsSpace(k[0]) && !IsSpace(k[|k| - 1])
    requires t.keys != [] ==> var k := Join(t.keys, ','); !IsSpace(k[0]) && !IsSpace(k[|k| - 1])
    ensures s.name == t.name && s.keys == t.keys
  {
    StoredSameExactlyWhen(s, t);
    if s.keys != [] {
      StripMeaning(Join(s.keys, ','));
      StripMeaning(Join(t.keys, ','));
      SplitJoin(s.keys, ',');
      SplitJoin(t.keys, ',');
    }
  }

  /** Stripping loses information: "a= k" and "a=k" are different list-instances filed under "a[k]". */
  lemma StoredCollision()
    ensures var s, t := Segment(None, "a", [" k"]), Segment(None, "a", ["k"]);
      WellFormed(s) && WellFormed(t) && s != t && Stored(s) == Stored(t) == "a[k]"
  {
    assert !Blank(" k") by { assert " k"[1] == 'k'; }
    assert !Blank("k") by { assert "k"[0] == 'k'; }
    assert StripLeft(" k") == StripLeft("k") == "k" by { assert " k"[1..] == "k"; }
  }

  // ---------- Explicit module names ----------

  /** Every segment with its inherited module name written in front of it. */
  function Explicit(segments: seq<Segment>): (r: seq<Segment>)
    ensures |r| == |segments|
    ensures forall i :: 0 <= i < |r| ==> r[i] == segments[i].(prefix := Some(ModuleAt(segments, i)))
  {
    seq(|segments|, i requires 0 <= i < |segments| => segments[i].(prefix := Some(ModuleAt(segments, i))))
  }

  ghost predicate AllPrefixed(segments: seq<Segment>) {
    forall i :: 0 <= i < |segments| ==> segments[i].prefix.Some?
  }

  lemma {:induction false} InheritedModuleValid(segments: seq<Segment>, i: nat)
    requires i < |segments| && WellFormedPath(segments) && segments[0].prefix.Some?
    ensures ValidIdentifier(ModuleAt(segments, i))
  {
    if !segments[i].prefix.Some? {
      InheritedModuleValid(segments, i - 1);
    }
  }

  lemma {:induction false} UnderExplicit(segments: seq<Segment>, n: nat, m: string)
    requires n <= |segments|
    ensures Under(Explicit(segments), n, m) == Under(segments, n, m)
  {
    if n > 0 {
      UnderExplicit(segments, n - 1, m);
      assert ModuleAt(Explicit(segments), n - 1) == ModuleAt(segments, n - 1);
    }
  }

  /** Writing the inherited module names out leaves the meaning of the path as it was. */
  lemma ExplicitKeepsGroups(segments: seq<Segment>)
    ensures GroupedBy(Explicit(segments)) == GroupedBy(segments)
  {
    var e := Explicit(segments);
    forall i | 0 <= i < |segments| ensures ModuleAt(e, i) == ModuleAt(segments, i) {}
    assert Modules(e) == Modules(segments);
    forall m | m in Modules(segments) ensures Under(e, |e|, m) == Under(segments, |segments|, m) {
      UnderExplicit(segments, |segments|, m);
    }
  }

  lemma ExplicitIsWellFormed(segments: seq<Segment>)
    requires WellFormedPath(segments) && segments != [] && segments[0].prefix.Some?
    ensures WellFormedPath(Explicit(segments)) && AllPrefixed(Explicit(segments))
    ensures IsPath("/" + ShowPath(Explicit(segments)), Explicit(segments))
  {
    var e := Explicit(segments);
    forall i | 0 <= i < |e| ensures WellFormed(e[i]) && '/' !in Show(e[i]) {
      InheritedModuleValid(segments, i);
      IdentifierFree(ModuleAt(segments, i));
      assert '/' !in ShowBody(segments[i]) by {
        if segments[i].prefix.Some? {
          var p := segments[i].prefix.value + ":";
          assert Show(segments[i])[|p|..] == ShowBody(segments[i]);
        }
      }
    }
  }

  /** A path can be rewritten with a module name on every segment and still mean the same
      exactly when its first segment carries one. */
  lemma ExplicitFormExists(segments: seq<Segment>)
    requires WellFormedPath(segments) && segments != []
    ensures segments[0].prefix.Some?
       <==> exists e :: WellFormedPath(e) && AllPrefixed(e) && GroupedBy(e) == GroupedBy(segments)
  {
    if segments[0].prefix.Some? {
      ExplicitIsWellFormed(segments);
      ExplicitKeepsGroups(segments);
    } else {
      assert ModuleAt(segments, 0) == "";
      forall e | WellFormedPath(e) && AllPrefixed(e) ensures "" !in GroupedBy(e) {
        forall i | 0 <= i < |e| ensures ModuleAt(e, i) != "" {
          assert WellFormed(e[i]);
        }
      }
      assert "" in GroupedBy(segments);
    }
  }

  // ---------- A path of the jukebox model ----------

  const JUKEBOX := Segment(Some("example-jukebox"), "jukebox", [])
  const ARTIST := Segment(None, "artist", ["Foo", "1 "])

  lemma TwoSegments(a: Segment, b: Segment, x: string, y: string)
    requires WellFormed(a) && Show(a) == x && '/' !in x
    requires WellFormed(b) && Show(b) == y && '/' !in y
    ensures IsPath("/" + (x + ['/'] + y), [a, b])
  {
    assert Shows([a, b]) == [x, y] && [x, y][1..] == [y];
    assert Join([x, y], '/') == x + ['/'] + Join([y], '/');
  }

  lemma TwoInOneModule(m: string, a: Segment, b: Segment)
    requires a.prefix == Some(m) && b.prefix == None
    ensures GroupedBy([a, b]) == map[m := [Stored(a), Stored(b)]]
  {
    GroupedBySnoc([], a);
    GroupedBySnoc([a], b);
    assert [] + [a] == [a] && [a] + [b] == [a, b];
    assert GroupedBy([]) == map[];
    assert ModuleAt([a], 0) == m && ModuleAt([a, b], 1) == ModuleAt([a, b], 0) == m;
    assert GroupedBy([a]) == map[m := [Stored(a)]] by {
      assert [] + [Stored(a)] == [Stored(a)];
    }
    assert [Stored(a)] + [Stored(b)] == [Stored(a), Stored(b)];
  }

  lemma JukeboxShows()
    ensures WellFormed(JUKEBOX) && Show(JUKEBOX) == "example-jukebox:jukebox"
  {
    assert "example-jukebox" + ":" + "jukebox" == "example-jukebox:jukebox";
  }

  lemma ArtistKeys()
    ensures Join(ARTIST.keys, ',') == "Foo,1 "
  {
    assert ["Foo", "1 "][1..] == ["1 "];
    assert "Foo" + [','] + "1 " == "Foo,1 ";
  }

  lemma ArtistShows()
    ensures WellFormed(ARTIST) && Show(ARTIST) == "artist=Foo,1 "
  {
    ArtistKeys();
    var text := "Foo,1 ";
    InSpaces('F');
    assert !IsSpace(text[0]);
    assert "artist" + "=" + text == "artist=Foo,1 ";
  }

  lemma ArtistStored()
    ensures Stored(ARTIST) == "artist[Foo,1]"
  {
    ArtistKeys();
    InSpaces('F');
    InSpaces('1');
    InSpaces(' ');
    assert "" + "Foo,1" + " " == "Foo,1 ";
    StripAround("", "Foo,1", " ");
    assert "artist" + "[" + "Foo,1" + "]" == "artist[Foo,1]";
  }

  lemma JukeboxText()
    ensures "/" + ("example-jukebox:jukebox" + ['/'] + "artist=Foo,1 ") == "/example-jukebox:jukebox/artist=Foo,1 "
  {}

  /** A path with a module, a hyphen, a list-instance and white space at the end of a key. */
  lemma JukeboxPath()
    ensures IsPath("/example-jukebox:jukebox/artist=Foo,1 ", [JUKEBOX, ARTIST])
  {
    JukeboxShows();
    ArtistShows();
    JukeboxText();
    TwoSegments(JUKEBOX, ARTIST, "example-jukebox:jukebox", "artist=Foo,1 ");
  }

  /** It stands for one module with two stored texts. */
  lemma JukeboxGroups()
    ensures GroupedBy([JUKEBOX, ARTIST]) == map["example-jukebox" := ["jukebox", "artist[Foo,1]"]]
  {
    TwoInOneModule("example-jukebox", JUKEBOX, ARTIST);
    ArtistStored();
  }
}
