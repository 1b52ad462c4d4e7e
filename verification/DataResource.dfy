/** The api-path parser: splits a resource into segments, carries the module name forward and files
    every segment under its module. Proved against the grammar in ApiPathGrammar.dfy. */
module DataResources {
  import opened Wrappers
  import opened Text
  import opened ApiPathGrammar
  import opened ListInstances

  /** `resource.split('/')` without the empty piece in front of a leading "/"; "/" itself has no segments. */
  function SegmentTexts(resource: string): seq<string> {
    if resource == "/" then []
    else if resource != "" && resource[0] == '/' then Split(resource[1..], '/')
    else Split(resource, '/')
  }

  ghost predicate DenotesAll(texts: seq<string>, segments: seq<Segment>) {
    |texts| == |segments| && forall i :: 0 <= i < |texts| ==> Denotes(texts[i], segments[i])
  }

  lemma DenotesAllAt(texts: seq<string>, segments: seq<Segment>, i: nat)
    requires DenotesAll(texts, segments) && i < |texts|
    ensures Denotes(texts[i], segments[i])
  {}

  /** The pieces of a resource are the texts of `segments` exactly when the resource is a path with those segments. */
  lemma PathExactlyWhenPiecesDenote(resource: string, segments: seq<Segment>)
    ensures IsPath(resource, segments) <==> DenotesAll(SegmentTexts(resource), segments)
  {
    var texts := SegmentTexts(resource);
    if IsPath(resource, segments) && segments != [] {
      PathPieces(resource, segments);
    }
    if DenotesAll(texts, segments) && resource != "/" {
      var body := if resource != "" && resource[0] == '/' then resource[1..] else resource;
      assert texts == Split(body, '/');
      SplitPiecesAreFree(body, '/');
      JoinSplit(body, '/');
      assert texts == Shows(segments);
      forall i | 0 <= i < |segments| ensures '/' !in Show(segments[i]) {
        assert texts[i] == Show(segments[i]);
      }
      assert resource == body || resource == "/" + body;
    }
  }

  lemma PathPieces(resource: string, segments: seq<Segment>)
    requires IsPath(resource, segments) && segments != []
    ensures SegmentTexts(resource) == Shows(segments)
  {
    var texts, body := Shows(segments), ShowPath(segments);
    SplitJoin(texts, '/');
    ShowNotEmpty(segments[0]);
    assert texts[0] == Show(segments[0]);
    assert body[0] == texts[0][0];
    assert body[0] != '/';
    if resource == "/" + body {
      assert resource[1..] == body;
    }
  }

  /** A resource has at most one reading as a path. */
  lemma PathUnambiguous(resource: string, a: seq<Segment>, b: seq<Segment>)
    requires IsPath(resource, a) && IsPath(resource, b)
    ensures a == b
  {
    PathExactlyWhenPiecesDenote(resource, a);
    PathExactlyWhenPiecesDenote(resource, b);
    forall i | 0 <= i < |a| ensures a[i] == b[i] {
      SegmentUnambiguous(SegmentTexts(resource)[i], a[i], b[i]);
    }
  }

  /** The paths of the grammar in the comment of the parser: a "/" in front, and no keys on the first segment. */
  ghost predicate IsDocumentedPath(resource: string, segments: seq<Segment>) {
    && WellFormedPath(segments)
    && if segments == [] then resource == "/"
       else resource == "/" + ShowPath(segments) && segments[0].keys == []
  }

  /** Of the accepted resources the documented ones are exactly those that start with "/" and have no
      "=" in their first piece. */
  lemma DocumentedExactlyWhen(resource: string)
    ensures (exists segments :: IsDocumentedPath(resource, segments))
       <==> && (exists segments :: IsPath(resource, segments))
            && resource[..1] == "/"
            && (SegmentTexts(resource) == [] || '=' !in SegmentTexts(resource)[0])
  {
    forall segments | IsDocumentedPath(resource, segments)
      ensures IsPath(resource, segments) && resource[..1] == "/"
    {}
    forall segments | IsPath(resource, segments) && resource[..1] == "/"
      ensures IsDocumentedPath(resource, segments)
              <==> SegmentTexts(resource) == [] || '=' !in SegmentTexts(resource)[0]
    {
      DocumentedSegments(resource, segments);
    }
  }

  lemma DocumentedSegments(resource: string, segments: seq<Segment>)
    requires IsPath(resource, segments) && resource[..1] == "/"
    ensures IsDocumentedPath(resource, segments)
       <==> SegmentTexts(resource) == [] || '=' !in SegmentTexts(resource)[0]
  {
    if segments != [] {
      PathPieces(resource, segments);
      ShowHasEquals(segments[0]);
      assert SegmentTexts(resource)[0] == Show(segments[0]);
      NoSlashInFront(segments);
    } else {
      assert SegmentTexts(resource) == [];
    }
  }

  lemma NoSlashInFront(segments: seq<Segment>)
    requires WellFormedPath(segments) && segments != []
    ensures ShowPath(segments) != "" && ShowPath(segments)[0] != '/'
  {
    ShowNotEmpty(segments[0]);
    assert Shows(segments)[0] == Show(segments[0]);
    assert ShowPath(segments)[0] == Show(segments[0])[0];
  }

  /** A resource without "/" in front is accepted and not documented. */
  lemma UndocumentedWithoutSlash()
    ensures IsPath("abcd", [Segment(None, "abcd", [])])
    ensures forall segments :: !IsDocumentedPath("abcd", segments)
  {
    var s := Segment(None, "abcd", []);
    assert Shows([s]) == ["abcd"];
    assert "abcd"[..1] == "a";
    DocumentedExactlyWhen("abcd");
  }

  /** A first segment with keys is accepted and not documented. */
  lemma UndocumentedFirstKeys()
    ensures IsPath("/a=k", [Segment(None, "a", ["k"])])
    ensures forall segments :: !IsDocumentedPath("/a=k", segments)
  {
    var s := Segment(None, "a", ["k"]);
    assert "k"[0] == 'k' && !IsSpace("k"[0]);
    assert Join(s.keys, ',') == "k" && Show(s) == "a" + "=" + "k" == "a=k";
    assert Shows([s]) == ["a=k"];
    assert "/a=k" == "/" + ShowPath([s]);
    PathPieces("/a=k", [s]);
    assert "a=k"[1] == '=';
    DocumentedExactlyWhen("/a=k");
  }

  lemma ModuleExampleText()
    ensures IsPath("a:b/c:d", [Segment(Some("a"), "b", []), Segment(Some("c"), "d", [])])
  {
    var s, t := Segment(Some("a"), "b", []), Segment(Some("c"), "d", []);
    assert Show(s) == "a" + ":" + "b" == "a:b" && Show(t) == "c" + ":" + "d" == "c:d";
    assert Shows([s, t]) == ["a:b", "c:d"];
    assert ["a:b", "c:d"][1..] == ["c:d"];
    assert ShowPath([s, t]) == "a:b" + ['/'] + "c:d" == "a:b/c:d";
  }

  lemma ModuleExampleGroups()
    ensures GroupedBy([Segment(Some("a"), "b", []), Segment(Some("c"), "d", [])]) == map["a" := ["b"], "c" := ["d"]]
  {
    var s, t := Segment(Some("a"), "b", []), Segment(Some("c"), "d", []);
    GroupedBySnoc([], s);
    GroupedBySnoc([s], t);
    assert [] + [s] == [s] && [s] + [t] == [s, t];
    assert [] + ["b"] == ["b"] && [] + ["d"] == ["d"];
    assert GroupedBy([]) == map[];
    assert "a" != "c";
  }

  /** In "a:b/c:d" the names in front of ":" are the modules, c being one of them. */
  lemma NameInFrontIsModule(segments: seq<Segment>)
    requires IsPath("a:b/c:d", segments)
    ensures GroupedBy(segments) == map["a" := ["b"], "c" := ["d"]]
  {
    ModuleExampleText();
    ModuleExampleGroups();
    PathUnambiguous("a:b/c:d", segments, [Segment(Some("a"), "b", []), Segment(Some("c"), "d", [])]);
  }

  /** The segments in front of the first piece that is none. */
  ghost predicate StopsAt(texts: seq<string>, parsed: seq<Segment>) {
    && |parsed| < |texts|
    && DenotesAll(texts[..|parsed|], parsed)
    && forall s :: !Denotes(texts[|parsed|], s)
  }

  /** The text is cut in two by its only ":". */
  ghost predicate CutAtColon(text: string, m: string, b: string) {
    text == m + ":" + b && ':' !in m && ':' !in b
  }

  /** What is left of the text after a valid module name, if it has a ":", else all of it. */
  ghost predicate BodyOf(text: string, b: string) {
    (':' !in text && text == b) || exists m :: ValidIdentifier(m) && CutAtColon(text, m, b)
  }

  /** What the error says is wrong with a piece that is no segment: too many colons, a bad module name,
      or a bad identifier or list-instance after it. */
  ghost predicate Blames(e: ApiError, text: string) {
    match e
    case NoError => false
    case InvalidModuleAndIdentity(whole) => whole == text && |Split(text, ':')| > 2
    case InvalidModule(m) => !ValidIdentifier(m) && exists b :: CutAtColon(text, m, b)
    case InvalidIdentifier(b) => BodyOf(text, b) && '=' !in b && !ValidIdentifier(b)
    case InvalidListInstance(b) =>
      BodyOf(text, b) && '=' in b && forall n, k :: WellFormedInstance(n, k) ==> b != ShowInstance(n, k)
  }

  lemma OneCut(text: string, m: string, b: string)
    requires CutAtColon(text, m, b)
    ensures ':' in text && |Split(text, ':')| == 2
    ensures forall m2, b2 :: CutAtColon(text, m2, b2) ==> m2 == m && b2 == b
  {
    assert text[|m|] == ':';
    SplitPeel(m, b, ':');
    SplitWhole(b, ':');
    forall m2, b2 | CutAtColon(text, m2, b2) ensures m2 == m && b2 == b {
      FirstCutUnique(m, b, m2, b2, ':');
    }
  }

  lemma CutHasColon(text: string)
    ensures (exists m, b :: CutAtColon(text, m, b)) ==> ':' in text
  {
    if m, b :| CutAtColon(text, m, b) {
      assert text[|m|] == ':';
    }
  }

  lemma OneBody(text: string, b: string, c: string)
    requires BodyOf(text, b) && BodyOf(text, c)
    ensures b == c && |Split(text, ':')| <= 2
    ensures forall m, d :: CutAtColon(text, m, d) ==> ValidIdentifier(m)
  {
    if ':' !in text {
      SplitWhole(text, ':');
      CutHasColon(text);
    } else {
      var m :| ValidIdentifier(m) && CutAtColon(text, m, b);
      OneCut(text, m, b);
    }
  }

  /** No piece deserves two different errors. */
  lemma BlamesOne(e: ApiError, f: ApiError, text: string)
    requires Blames(e, text) && Blames(f, text)
    ensures e == f
  {
    forall m, b | CutAtColon(text, m, b) ensures |Split(text, ':')| == 2 {
      OneCut(text, m, b);
    }
    forall b, c | BodyOf(text, b) && BodyOf(text, c) ensures b == c && |Split(text, ':')| <= 2 {
      OneBody(text, b, c);
    }
    if e.InvalidModule? {
      var b :| CutAtColon(text, e.moduleName, b);
      OneCut(text, e.moduleName, b);
      BodyKeepsModule(text);
    }
    if f.InvalidModule? {
      var b :| CutAtColon(text, f.moduleName, b);
      OneCut(text, f.moduleName, b);
      BodyKeepsModule(text);
    }
  }

  lemma BodyKeepsModule(text: string)
    ensures forall m, b, c :: CutAtColon(text, m, b) && BodyOf(text, c) ==> ValidIdentifier(m)
  {
    forall m, b, c | CutAtColon(text, m, b) && BodyOf(text, c) ensures ValidIdentifier(m) {
      OneBody(text, c, c);
    }
  }

  lemma BodyIsBlamed(text: string, b: string)
    requires BodyOf(text, b) && forall s :: !IsBody(b, s)
    ensures Blames(if '=' in b then InvalidListInstance(b) else InvalidIdentifier(b), text)
  {
    if '=' in b {
      forall n, k | WellFormedInstance(n, k) ensures b != ShowInstance(n, k) {
        assert !IsBody(b, Segment(None, n, k));
      }
    } else {
      assert !IsBody(b, Segment(None, b, []));
    }
  }

  /** A text without ":" denotes a segment exactly when it is the body of a segment with no prefix. */
  lemma PlainSegment(text: string)
    requires ':' !in text
    ensures forall s :: Denotes(text, s) <==> IsBody(text, s) && s.prefix.None?
  {
    forall s ensures Denotes(text, s) <==> IsBody(text, s) && s.prefix.None? {
      if Denotes(text, s) {
        PrefixShows(s);
      }
      if IsBody(text, s) && s.prefix.None? {
        BodyKeysFree(text, s, ':');
      }
    }
  }

  lemma BodyKeysFree(text: string, s: Segment, c: char)
    requires IsBody(text, s) && c !in text
    ensures Free(s.keys, c)
  {
    InJoin(s.keys, ',', c);
  }

  /** A text "m:b" with no further ":" denotes a segment exactly when m is an identifier and b a body. */
  lemma PrefixedSegment(text: string, m: string, b: string)
    requires text == m + ":" + b && ':' !in m && ':' !in b
    ensures forall s :: Denotes(text, s) <==> ValidIdentifier(m) && IsBody(b, s) && s.prefix == Some(m)
  {
    forall s ensures Denotes(text, s) <==> ValidIdentifier(m) && IsBody(b, s) && s.prefix == Some(m) {
      if Denotes(text, s) {
        assert text[|m|] == ':';
        PrefixShows(s);
        IdentifierFree(s.prefix.value);
        FirstCutUnique(m, b, s.prefix.value, ShowBody(s), ':');
      }
      if IsBody(b, s) {
        BodyKeysFree(b, s, ':');
      }
    }
  }

  /** More than one ":" is never a segment. */
  lemma ManyColons(text: string, s: Segment)
    requires Denotes(text, s)
    ensures |Split(text, ':')| <= 2
  {
    BodyHasNoColon(s);
    SplitWhole(ShowBody(s), ':');
    if s.prefix.Some? {
      IdentifierFree(s.prefix.value);
      SplitPeel(s.prefix.value, ShowBody(s), ':');
    }
  }

  /** A failed parse leaves the dictionary empty exactly when the very first piece is no segment. */
  lemma EmptyExactlyWhen(texts: seq<string>, parsed: seq<Segment>)
    requires StopsAt(texts, parsed)
    ensures GroupedBy(parsed) == map[] <==> forall s :: !Denotes(texts[0], s)
  {
    if parsed == [] {
      assert GroupedBy(parsed) == map[];
    } else {
      DenotesAllAt(texts[..|parsed|], parsed, 0);
      assert Denotes(texts[0], parsed[0]);
      assert ModuleAt(parsed, 0) in Modules(parsed);
      assert ModuleAt(parsed, 0) in GroupedBy(parsed);
    }
  }

  function CurrentModule(segments: seq<Segment>): string {
    if segments == [] then "" else ModuleAt(segments, |segments| - 1)
  }

  lemma ModuleSnoc(segments: seq<Segment>, s: Segment)
    ensures CurrentModule(segments + [s]) == if s.prefix.Some? then s.prefix.value else CurrentModule(segments)
  {
    if segments != [] {
      ModuleAtPrefix(segments, s, |segments| - 1);
    }
  }

  lemma DenotesOneMore(texts: seq<string>, i: nat, segments: seq<Segment>, s: Segment)
    requires i < |texts| && DenotesAll(texts[..i], segments) && Denotes(texts[i], s)
    ensures DenotesAll(texts[..i + 1], segments + [s])
  {
    forall j | 0 <= j <= i ensures Denotes(texts[..i + 1][j], (segments + [s])[j]) {
      if j < i {
        DenotesAllAt(texts[..i], segments, j);
      }
    }
  }

  lemma OneMoreSegment(texts: seq<string>, i: nat, segments: seq<Segment>, s: Segment)
    requires i < |texts| && DenotesAll(texts[..i], segments) && Denotes(texts[i], s)
    ensures DenotesAll(texts[..i + 1], segments + [s])
    ensures var m := CurrentModule(segments + [s]);
      && m == (if s.prefix.Some? then s.prefix.value else CurrentModule(segments))
      && GroupedBy(segments + [s]) == Append(GroupedBy(segments), m, Stored(s))
  {
    ModuleSnoc(segments, s);
    GroupedBySnoc(segments, s);
    DenotesOneMore(texts, i, segments, s);
  }

  class DataResource {
    const resource: string
    const conversions: Conversions
    var resourceDict: map<string, seq<string>>
    var valid: bool
    var error: ApiError

    /** Valid exactly for the paths of the grammar; the dictionary of a valid resource is the
        grouping of its segments by module. */
    constructor (resource: string, conversions: Conversions)
      ensures this.resource == resource && this.conversions == conversions
      ensures valid <==> exists segments :: IsPath(resource, segments)
      ensures forall segments :: IsPath(resource, segments) ==> resourceDict == GroupedBy(segments)
      ensures !valid ==> exists parsed :: StopsAt(SegmentTexts(resource), parsed) && resourceDict == GroupedBy(parsed)
                                          && Blames(error, SegmentTexts(resource)[|parsed|])
      ensures !valid ==> SegmentTexts(resource) != []
                         && (resourceDict == map[] <==> forall s :: !Denotes(SegmentTexts(resource)[0], s))
      ensures valid <==> error == NoError
    {
      this.resource, this.conversions := resource, conversions;
      resourceDict, valid, error := map[], true, NoError;
      new;
      ghost var parsed := ParseApiPath();
      forall segments | IsPath(resource, segments) ensures valid && parsed == segments {
        PathExactlyWhenPiecesDenote(resource, segments);
        if valid {
          PathExactlyWhenPiecesDenote(resource, parsed);
          PathUnambiguous(resource, parsed, segments);
        } else {
          DenotesAllAt(SegmentTexts(resource), segments, |parsed|);
        }
      }
      if valid {
        PathExactlyWhenPiecesDenote(resource, parsed);
      } else {
        assert StopsAt(SegmentTexts(resource), parsed);
        EmptyExactlyWhen(SegmentTexts(resource), parsed);
      }
    }

    /** Files the segments up to the first bad one, which also decides validity. */
    method ParseApiPath() returns (ghost parsed: seq<Segment>)
      requires resourceDict == map[] && valid && error == NoError
      modifies this`resourceDict, this`valid, this`error
      ensures var texts := SegmentTexts(resource);
        && |parsed| <= |texts|
        && DenotesAll(texts[..|parsed|], parsed)
        && resourceDict == GroupedBy(parsed)
        && (valid <==> |parsed| == |texts|)
        && (!valid ==> Blames(error, texts[|parsed|]) && forall s :: !Denotes(texts[|parsed|], s))
      ensures valid <==> error == NoError
    {
      var texts := SegmentTexts(resource);
      var moduleName := "";
      parsed := [];
      assert GroupedBy([]) == map[];
      for i := 0 to |texts|
        invariant valid && error == NoError
        invariant |parsed| == i && DenotesAll(texts[..i], parsed)
        invariant resourceDict == GroupedBy(parsed)
        invariant moduleName == CurrentModule(parsed)
      {
        var step, segment := ParseSegment(moduleName, texts[i]);
        if step == None {
          valid := false;
          break;
        }
        moduleName := step.value.0;
        FileUnder(moduleName, step.value.1);
        OneMoreSegment(texts, i, parsed, segment);
        parsed := parsed + [segment];
      }
      assert texts[..|texts|] == texts;
    }

    /** Appends to the module's list, which is made on first use. */
    method FileUnder(moduleName: string, stored: string)
      modifies this`resourceDict
      ensures resourceDict == Append(old(resourceDict), moduleName, stored)
    {
      if moduleName !in resourceDict {
        resourceDict := resourceDict[moduleName := []];
      }
      resourceDict := resourceDict[moduleName := resourceDict[moduleName] + [stored]];
    }

    /** One segment: a ":" names its module, otherwise the module carried forward stays. */
    method ParseSegment(moduleName: string, text: string)
      returns (step: Option<(string, string)>, ghost segment: Segment)
      modifies this`error
      ensures step.Some? ==> Denotes(text, segment) && error == old(error)
                             && step.value == (if segment.prefix.Some? then segment.prefix.value else moduleName,
                                               Stored(segment))
      ensures step.None? ==> Blames(error, text) && forall s :: !Denotes(text, s)
    {
      if ':' in text {
        var moduleAndIdentifier := Split(text, ':');
        SplitPiecesAreFree(text, ':');
        JoinSplit(text, ':');
        if |moduleAndIdentifier| == 2 {
          assert moduleAndIdentifier[1..] == [moduleAndIdentifier[1]];
          PrefixedSegment(text, moduleAndIdentifier[0], moduleAndIdentifier[1]);
          step, segment := ParseModuleAndIdentifier(moduleAndIdentifier[0], moduleAndIdentifier[1]);
          segment := segment.(prefix := Some(moduleAndIdentifier[0]));
          assert CutAtColon(text, moduleAndIdentifier[0], moduleAndIdentifier[1]);
          if step == None && ValidIdentifier(moduleAndIdentifier[0]) {
            BodyIsBlamed(text, moduleAndIdentifier[1]);
          }
        } else {
          forall s ensures !Denotes(text, s) {
            if Denotes(text, s) {
              ManyColons(text, s);
            }
          }
          SplitHasSeparator(text, ':');
          error := InvalidModuleAndIdentity(text);
          step, segment := None, Segment(None, "", []);
        }
      } else {
        PlainSegment(text);
        step, segment := ParseIdentifierOrListInstance(moduleName, text);
        segment := segment.(prefix := None);
        if step == None {
          BodyIsBlamed(text, text);
        }
      }
    }

    method ParseModuleAndIdentifier(moduleName: string, identifier: string)
      returns (step: Option<(string, string)>, ghost segment: Segment)
      modifies this`error
      ensures step.Some? ==> ValidIdentifier(moduleName) && IsBody(identifier, segment)
                             && step.value == (moduleName, Stored(segment)) && error == old(error)
      ensures step.None? && !ValidIdentifier(moduleName) ==> error == InvalidModule(moduleName)
      ensures step.None? && ValidIdentifier(moduleName) ==>
                (forall s :: !IsBody(identifier, s))
                && error == if '=' in identifier then InvalidListInstance(identifier) else InvalidIdentifier(identifier)
    {
      if !ValidIdentifier(moduleName) {
        error := InvalidModule(moduleName);
        segment := Segment(None, "", []);
        return None, segment;
      }
      step, segment := ParseIdentifierOrListInstance(moduleName, identifier);
    }

    method ParseIdentifierOrListInstance(currentModule: string, identifier: string)
      returns (step: Option<(string, string)>, ghost segment: Segment)
      modifies this`error
      ensures step.Some? ==> IsBody(identifier, segment)
                             && step.value == (currentModule, Stored(segment)) && error == old(error)
      ensures step.None? ==>
                (forall s :: !IsBody(identifier, s))
                && error == if '=' in identifier then InvalidListInstance(identifier) else InvalidIdentifier(identifier)
    {
      forall s | IsBody(identifier, s) ensures '=' in identifier <==> s.keys != [] {
        BodyHasEquals(s);
      }
      if '=' in identifier {
        step, segment := ParseListInstance(currentModule, identifier);
        return;
      }
      segment := Segment(None, identifier, []);
      if !ValidIdentifier(identifier) {
        error := InvalidIdentifier(identifier);
        return None, segment;
      }
      step := Some((currentModule, identifier));
    }

    method ParseListInstance(currentModule: string, listInstance: string)
      returns (step: Option<(string, string)>, ghost segment: Segment)
      modifies this`error
      ensures step.Some? ==> IsBody(listInstance, segment) && segment.keys != []
                             && step.value == (currentModule, Stored(segment)) && error == old(error)
      ensures step.None? ==> error == InvalidListInstance(listInstance)
                             && forall s :: IsBody(listInstance, s) ==> s.keys == []
    {
      var instance := new ListInstance(listInstance, Some(currentModule), conversions);
      var keyText := instance.keyText;
      segment := Segment(None, instance.identifier, Split(keyText, ','));
      forall n, k | WellFormedInstance(n, k) && listInstance == ShowInstance(n, k) ensures segment.keys == k {
        SplitJoin(k, ',');
      }
      if Strip(keyText) == "" {
        StripMeaning(keyText);
        error := InvalidListInstance(listInstance);
        return None, segment;
      }
      var identifier := instance.identifier;
      // The second check of the identifier cannot fail: the list-instance has made it already.
      assert ValidIdentifier(identifier);
      step := Some((currentModule, identifier + "[" + Strip(keyText) + "]"));
    }
  }

  /** Where the parser stops there is no path. */
  lemma StoppedIsNoPath(resource: string, parsed: seq<Segment>)
    requires StopsAt(SegmentTexts(resource), parsed)
    ensures forall segments :: !IsPath(resource, segments)
  {
    forall segments ensures !IsPath(resource, segments) {
      PathExactlyWhenPiecesDenote(resource, segments);
      if IsPath(resource, segments) {
        DenotesAllAt(SegmentTexts(resource), segments, |parsed|);
      }
    }
  }

  lemma TrailingSlashPieces()
    ensures SegmentTexts("/abcd/") == ["abcd", ""]
  {
    SplitPeel("abcd", "", '/');
    assert "/abcd/"[1..] == "abcd" + ['/'] + "";
    assert ["abcd"] + [""] == ["abcd", ""];
  }

  lemma OnePlainSegment()
    ensures Denotes("abcd", Segment(None, "abcd", []))
    ensures GroupedBy([Segment(None, "abcd", [])]) == map["" := ["abcd"]]
  {
    var s := Segment(None, "abcd", []);
    GroupedBySnoc([], s);
    assert [] + [s] == [s] && GroupedBy([]) == map[];
    assert ModuleAt([s], 0) == "" && [] + ["abcd"] == ["abcd"];
  }

  /** "/abcd/" stops at its empty second piece. */
  lemma TrailingSlashStops()
    ensures StopsAt(SegmentTexts("/abcd/"), [Segment(None, "abcd", [])])
  {
    TrailingSlashPieces();
    OnePlainSegment();
    assert ["abcd", ""][..1] == ["abcd"];
    forall t ensures !Denotes("", t) {
      if WellFormed(t) {
        ShowNotEmpty(t);
      }
    }
  }

  /** "/abcd/" is refused, and its first segment stays in the dictionary. */
  method FailureKeepsSegments(conversions: Conversions) returns (r: DataResource)
    ensures !r.valid && r.resourceDict == map["" := ["abcd"]]
  {
    r := new DataResource("/abcd/", conversions);
    ghost var first := [Segment(None, "abcd", [])];
    TrailingSlashStops();
    StoppedIsNoPath("/abcd/", first);
    ghost var parsed :| StopsAt(SegmentTexts("/abcd/"), parsed) && r.resourceDict == GroupedBy(parsed);
    StopsOnce(SegmentTexts("/abcd/"), parsed, first);
    OnePlainSegment();
  }

  /** Where the parser stops, and with what, is determined by the pieces. */
  lemma StopsOnce(texts: seq<string>, a: seq<Segment>, b: seq<Segment>)
    requires StopsAt(texts, a) && StopsAt(texts, b)
    ensures a == b
  {
    forall i | 0 <= i < |a| && i < |b| ensures a[i] == b[i] {
      DenotesAllAt(texts[..|a|], a, i);
      DenotesAllAt(texts[..|b|], b, i);
      SegmentUnambiguous(texts[i], a[i], b[i]);
    }
    if |a| < |b| {
      DenotesAllAt(texts[..|b|], b, |a|);
    } else if |b| < |a| {
      DenotesAllAt(texts[..|a|], a, |b|);
    }
  }

  /** "/example-jukebox:jukebox/artist=Foo,1 " is accepted and filed under its module. */
  method JukeboxResource(conversions: Conversions) returns (r: DataResource)
    ensures r.valid && r.resourceDict == map["example-jukebox" := ["jukebox", "artist[Foo,1]"]]
  {
    JukeboxPath();
    JukeboxGroups();
    r := new DataResource("/example-jukebox:jukebox/artist=Foo,1 ", conversions);
  }

  /** Reading a path again after writing every inherited module name out gives the same dictionary. */
  method ReparseExplicit(resource: string, segments: seq<Segment>, conversions: Conversions)
    returns (again: DataResource)
    requires IsPath(resource, segments) && segments != [] && segments[0].prefix.Some?
    ensures again.valid && again.resourceDict == GroupedBy(segments)
  {
    ExplicitIsWellFormed(segments);
    ExplicitKeepsGroups(segments);
    again := new DataResource("/" + ShowPath(Explicit(segments)), conversions);
  }
}
