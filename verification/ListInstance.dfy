/** The list-instance parser and printer: `identifier "=" key-value *("," key-value)`. */
module ListInstances {
  import opened Wrappers
  import opened Text
  import opened ApiPathGrammar

  /** What the error messages of the two parsers report. */
  datatype ApiError =
    | NoError
    | InvalidModuleAndIdentity(segment: string)
    | InvalidModule(moduleName: string)
    | InvalidIdentifier(identifier: string)
    | InvalidListInstance(instance: string)

  /** How text is read as a float and as a long integer; the result is the number as it prints. */
  datatype Conversions = Conversions(toFloat: string -> Option<string>, toLong: string -> Option<string>)

  datatype Key = TextKey(text: string) | FloatKey(number: string) | LongKey(number: string) | FlagKey(flag: bool) {
    function Shown(): string {
      match this
      case TextKey(t) => t
      case FloatKey(n) => n
      case LongKey(n) => n
      case FlagKey(f) => if f then "True" else "False"
    }
  }

  /** No white space character is missing: the test that lets a key be converted. */
  predicate HoldsAllSpaces(key: string) {
    forall c :: c in SPACES ==> c in key
  }

  /** The order of the attempts. A long integer stays one: the range test compares the text of the key with
      numbers, and text is never below a number. */
  function Convert(conversions: Conversions, key: string): Key {
    if !HoldsAllSpaces(key) then TextKey(key)
    else if conversions.toFloat(key).Some? then FloatKey(conversions.toFloat(key).value)
    else if key in {"True", "true"} then FlagKey(true)
    else if key in {"False", "false"} then FlagKey(false)
    else if conversions.toLong(key).Some? then LongKey(conversions.toLong(key).value)
    else TextKey(key)
  }

  function ConvertAll(conversions: Conversions, keys: seq<string>): (r: seq<Key>)
    ensures |r| == |keys|
    ensures forall i :: 0 <= i < |keys| ==> r[i] == Convert(conversions, keys[i])
  {
    seq(|keys|, i requires 0 <= i < |keys| => Convert(conversions, keys[i]))
  }

  function ShownAll(keys: seq<Key>): (r: seq<string>)
    ensures |r| == |keys|
    ensures forall i :: 0 <= i < |keys| ==> r[i] == keys[i].Shown()
  {
    seq(|keys|, i requires 0 <= i < |keys| => keys[i].Shown())
  }

  predicate IsNumber(conversions: Conversions, key: string) {
    conversions.toFloat(key).Some? || conversions.toLong(key).Some?
  }

  /** Numbers print without white space and without commas. */
  ghost predicate PrintsNumbers(conversions: Conversions) {
    && (forall k :: conversions.toFloat(k).Some? ==>
          ' ' !in conversions.toFloat(k).value && ',' !in conversions.toFloat(k).value)
    && (forall k :: conversions.toLong(k).Some? ==>
          ' ' !in conversions.toLong(k).value && ',' !in conversions.toLong(k).value)
  }

  /** The test looks for space, tab, line feed, carriage return, vertical tab and form feed. */
  lemma HoldsAllSpacesExactlyWhen(key: string)
    ensures HoldsAllSpaces(key)
       <==> ' ' in key && '\t' in key && '\n' in key && '\r' in key && '\U{0B}' in key && '\U{0C}' in key
  {
    assert ' ' in SPACES && '\t' in SPACES && '\n' in SPACES && '\r' in SPACES;
    assert '\U{0B}' in SPACES && '\U{0C}' in SPACES;
    forall c | c in SPACES ensures c in {' ', '\t', '\n', '\r', '\U{0B}', '\U{0C}'} {
      InSpaces(c);
    }
  }

  /** A converted key shows as its float, or else as its long integer. */
  lemma ConvertedShows(conversions: Conversions, key: string)
    requires HoldsAllSpaces(key)
    ensures conversions.toFloat(key).Some? ==> Some(Convert(conversions, key).Shown()) == conversions.toFloat(key)
    ensures conversions.toFloat(key).None? && conversions.toLong(key).Some? ==>
              Some(Convert(conversions, key).Shown()) == conversions.toLong(key)
  {
    assert ' ' in key;
    assert ' ' !in "True" && ' ' !in "true" && ' ' !in "False" && ' ' !in "false";
  }

  /** A key stays what it is exactly when it lacks some white space character or is no number; none
      ever becomes a flag. */
  lemma KeptExactlyWhen(conversions: Conversions, key: string)
    requires PrintsNumbers(conversions)
    ensures Convert(conversions, key).Shown() == key <==> !(HoldsAllSpaces(key) && IsNumber(conversions, key))
    ensures !Convert(conversions, key).FlagKey?
    ensures ',' !in key ==> ',' !in Convert(conversions, key).Shown()
  {
    assert HoldsAllSpaces(key) ==> ' ' in key;
    assert ' ' !in "True" && ' ' !in "true" && ' ' !in "False" && ' ' !in "false";
  }

  /** The text is cut by its only "=" and something stands behind it. */
  ghost predicate CutAtEquals(text: string, n: string, k: string) {
    text == n + "=" + k && '=' !in n && '=' !in k && !Blank(k)
  }

  /** What the error says is wrong: the name in front of the only "=", or else the text as a whole. */
  ghost predicate BlamesInstance(e: ApiError, text: string) {
    match e
    case InvalidIdentifier(n) => !ValidIdentifier(n) && exists k :: CutAtEquals(text, n, k)
    case InvalidListInstance(whole) => whole == text && forall n, k :: !CutAtEquals(text, n, k)
    case _ => false
  }

  /** The pieces of a text that is cut this way. */
  lemma CutPieces(text: string, n: string, k: string)
    ensures CutAtEquals(text, n, k) <==> Split(text, '=') == [n, k] && Strip(k) != ""
  {
    StripMeaning(k);
    if CutAtEquals(text, n, k) {
      SplitPeel(n, k, '=');
      SplitWhole(k, '=');
    }
    if Split(text, '=') == [n, k] {
      JoinSplit(text, '=');
      SplitPiecesAreFree(text, '=');
      assert [n, k][1..] == [k] && n == [n, k][0] && k == [n, k][1];
    }
  }

  class ListInstance {
    var identifier: string
    const moduleName: Option<string>
    const conversions: Conversions
    var keyText: string
    var keys: seq<Key>
    var valid: bool
    var error: ApiError

    /** A text is valid exactly when it is a well-formed list-instance, and then the name, the key text and
        the converted keys of that list-instance are the ones stored. */
    constructor (text: string, moduleName: Option<string>, conversions: Conversions)
      ensures this.moduleName == moduleName && this.conversions == conversions
      ensures valid <==> exists n, k :: WellFormedInstance(n, k) && text == ShowInstance(n, k)
      ensures forall n, k :: WellFormedInstance(n, k) && text == ShowInstance(n, k) ==>
                identifier == n && keyText == Join(k, ',') && keys == ConvertAll(conversions, k)
      ensures !valid ==> keyText == "" && keys == [] && BlamesInstance(error, text)
      ensures valid <==> error == NoError
    {
      this.moduleName, this.conversions := moduleName, conversions;
      identifier, keyText, keys, valid, error := "", "", [], false, NoError;
      new;
      valid := ParseListInstance(text);
    }

    method ParseListInstance(text: string) returns (ok: bool)
      requires keyText == "" && keys == [] && error == NoError
      modifies this`identifier, this`keyText, this`keys, this`error
      ensures ok <==> exists n, k :: WellFormedInstance(n, k) && text == ShowInstance(n, k)
      ensures forall n, k :: WellFormedInstance(n, k) && text == ShowInstance(n, k) ==>
                identifier == n && keyText == Join(k, ',') && keys == ConvertAll(conversions, k)
      ensures !ok ==> keyText == "" && keys == [] && BlamesInstance(error, text)
      ensures ok <==> error == NoError
    {
      var instanceAndKeys := Split(text, '=');
      forall n, k | WellFormedInstance(n, k) && text == ShowInstance(n, k)
        ensures instanceAndKeys == [n, Join(k, ',')] && k == Split(Join(k, ','), ',') && !Blank(Join(k, ','))
      {
        IdentifierFree(n);
        InJoin(k, ',', '=');
        SplitPeel(n, Join(k, ','), '=');
        SplitWhole(Join(k, ','), '=');
        SplitJoin(k, ',');
      }
      if |instanceAndKeys| != 2 || Strip(instanceAndKeys[1]) == "" {
        if |instanceAndKeys| == 2 { StripMeaning(instanceAndKeys[1]); }
        forall n, k ensures !CutAtEquals(text, n, k) {
          CutPieces(text, n, k);
        }
        error := InvalidListInstance(text);
        return false;
      }
      identifier := instanceAndKeys[0];
      CutPieces(text, identifier, instanceAndKeys[1]);
      if !ValidIdentifier(identifier) {
        error := InvalidIdentifier(identifier);
        return false;
      }
      SplitGivesInstance(text, instanceAndKeys);
      keyText := instanceAndKeys[1];
      ok := ValidateAndModifyKeys(Split(keyText, ','));
      assert keys == ConvertAll(conversions, Split(keyText, ','));
    }

    /** The keys are converted one by one, in order. */
    method ValidateAndModifyKeys(keyList: seq<string>) returns (ok: bool)
      modifies this`keys
      ensures ok && keys == old(keys) + ConvertAll(conversions, keyList)
    {
      for i := 0 to |keyList|
        invariant keys == old(keys) + ConvertAll(conversions, keyList[..i])
      {
        keys := keys + [Convert(conversions, keyList[i])];
        assert ConvertAll(conversions, keyList[..i + 1])
            == ConvertAll(conversions, keyList[..i]) + [Convert(conversions, keyList[i])];
      }
      assert keyList[..|keyList|] == keyList;
      ok := true;
    }

    method ToString() returns (text: string)
      ensures text == ShowInstance(identifier, ShownAll(keys))
    {
      text := identifier + "=";
      var first := true;
      for i := 0 to |keys|
        invariant first <==> i == 0
        invariant text == ShowInstance(identifier, ShownAll(keys)[..i])
      {
        if !first {
          text := text + ",";
        }
        text := text + keys[i].Shown();
        first := false;
        TakeOneMore(ShownAll(keys), i);
        JoinSnoc(ShownAll(keys)[..i], keys[i].Shown());
      }
      assert ShownAll(keys)[..|keys|] == ShownAll(keys);
    }
  }

  lemma {:induction false} JoinSnoc(parts: seq<string>, last: string)
    ensures Join(parts + [last], ',') == if parts == [] then last else Join(parts, ',') + "," + last
  {
    if |parts| > 1 {
      JoinSnoc(parts[1..], last);
      assert (parts + [last])[1..] == parts[1..] + [last];
    } else if |parts| == 1 {
      assert (parts + [last])[1..] == [last];
    }
  }

  /** The two pieces around the only "=" form a list-instance once the name and the key text are checked. */
  lemma SplitGivesInstance(text: string, pieces: seq<string>)
    requires pieces == Split(text, '=') && |pieces| == 2
    requires ValidIdentifier(pieces[0]) && Strip(pieces[1]) != ""
    ensures WellFormedInstance(pieces[0], Split(pieces[1], ','))
    ensures text == ShowInstance(pieces[0], Split(pieces[1], ','))
  {
    var keys := Split(pieces[1], ',');
    JoinSplit(pieces[1], ',');
    SplitPiecesAreFree(pieces[1], ',');
    SplitPiecesAreFree(text, '=');
    StripMeaning(pieces[1]);
    InJoin(keys, ',', '=');
    JoinSplit(text, '=');
    assert pieces[1..] == [pieces[1]];
  }

  /** The text that is printed is the one that was parsed exactly when no key holds all white space
      characters and reads as a number. */
  lemma PrintedIsParsedExactlyWhen(conversions: Conversions, n: string, k: seq<string>)
    requires PrintsNumbers(conversions) && WellFormedInstance(n, k)
    ensures ShowInstance(n, ShownAll(ConvertAll(conversions, k))) == ShowInstance(n, k)
       <==> forall i :: 0 <= i < |k| ==> !(HoldsAllSpaces(k[i]) && IsNumber(conversions, k[i]))
  {
    var shown := ShownAll(ConvertAll(conversions, k));
    forall i | 0 <= i < |k|
      ensures shown[i] == k[i] <==> !(HoldsAllSpaces(k[i]) && IsNumber(conversions, k[i]))
      ensures ',' !in shown[i]
    {
      KeptExactlyWhen(conversions, k[i]);
    }
    if ShowInstance(n, shown) == ShowInstance(n, k) {
      SameTailAfter(n + "=", Join(shown, ','), Join(k, ','));
      SplitJoin(shown, ',');
      SplitJoin(k, ',');
    } else {
      assert shown != k;
    }
  }

  /** Where the number one, followed by the white space characters, reads as a float, it prints differently. */
  lemma NumberAmongSpaces(conversions: Conversions)
    requires conversions.toFloat("1" + SPACES) == Some("1.0")
    ensures WellFormedInstance("x", ["1" + SPACES])
    ensures ShowInstance("x", ShownAll(ConvertAll(conversions, ["1" + SPACES]))) == "x=1.0"
    ensures ShowInstance("x", ["1" + SPACES]) != "x=1.0"
  {
    var key := "1" + SPACES;
    assert key[0] == '1' && !IsSpace('1');
    forall c | c in SPACES ensures c in key {
      var i :| 0 <= i < |SPACES| && SPACES[i] == c;
      assert key[i + 1] == c;
    }
    assert Convert(conversions, key) == FloatKey("1.0");
    assert ShownAll(ConvertAll(conversions, [key])) == ["1.0"];
    assert "x" + "=" + "1.0" == "x=1.0";
    assert |ShowInstance("x", [key])| > |"x=1.0"|;
  }

  lemma SameTailAfter(front: string, a: string, b: string)
    requires front + a == front + b
    ensures a == b
  {
    assert a == (front + a)[|front|..] == (front + b)[|front|..];
  }

  /** Parsing and then printing, with the exact condition for getting the same text back. */
  method PrintParsed(text: string, conversions: Conversions) returns (printed: Option<string>)
    requires PrintsNumbers(conversions)
    ensures printed.Some? <==> exists n, k :: WellFormedInstance(n, k) && text == ShowInstance(n, k)
    ensures forall n, k :: WellFormedInstance(n, k) && text == ShowInstance(n, k) ==>
              && printed == Some(ShowInstance(n, ShownAll(ConvertAll(conversions, k))))
              && (printed.value == text
                  <==> forall i :: 0 <= i < |k| ==> !(HoldsAllSpaces(k[i]) && IsNumber(conversions, k[i])))
  {
    var instance := new ListInstance(text, None, conversions);
    if !instance.valid {
      return None;
    }
    var s := instance.ToString();
    printed := Some(s);
    forall n, k | WellFormedInstance(n, k) && text == ShowInstance(n, k)
      ensures printed.value == text
         <==> forall i :: 0 <= i < |k| ==> !(HoldsAllSpaces(k[i]) && IsNumber(conversions, k[i]))
    {
      PrintedIsParsedExactlyWhen(conversions, n, k);
    }
  }
}
