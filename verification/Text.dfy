/** The string operations of the Python and Java code that the model relies on:
    `split`, `join`, `strip`, `lower` and decimal printing, over ASCII text. */
module Text {

  /** The pieces of `s` between the occurrences of `sep`; never empty, as Python's `split`. */
  function Split(s: string, sep: char): (parts: seq<string>)
    ensures |parts| >= 1
  {
    if s == "" then [""]
    else
      var rest := Split(s[1..], sep);
      if s[0] == sep then [""] + rest else [[s[0]] + rest[0]] + rest[1..]
  }

  /** The parts in order with `sep` between neighbours. */
  function Join(parts: seq<string>, sep: char): string
  {
    if |parts| == 0 then ""
    else if |parts| == 1 then parts[0]
    else parts[0] + [sep] + Join(parts[1..], sep)
  }

  ghost predicate Free(parts: seq<string>, c: char) {
    forall i :: 0 <= i < |parts| ==> c !in parts[i]
  }

  lemma {:induction false} SplitPiecesAreFree(s: string, sep: char)
    ensures Free(Split(s, sep), sep)
  {
    if s != "" {
      SplitPiecesAreFree(s[1..], sep);
    }
  }

  /** Joining the pieces of a split restores the text. */
  lemma {:induction false} JoinSplit(s: string, sep: char)
    ensures Join(Split(s, sep), sep) == s
  {
    if s != "" {
      JoinSplit(s[1..], sep);
      var rest := Split(s[1..], sep);
      if s[0] == sep {
        assert ([""] + rest)[1..] == rest;
      } else {
        var parts := [[s[0]] + rest[0]] + rest[1..];
        assert parts[1..] == rest[1..];
        if |rest| > 1 {
          assert Join(parts, sep) == [s[0]] + (rest[0] + [sep] + Join(rest[1..], sep));
        }
      }
    }
  }

  /** Splitting a text that starts with a separator-free piece peels that piece off. */
  lemma {:induction false} SplitPeel(head: string, tail: string, sep: char)
    requires sep !in head
    ensures Split(head + [sep] + tail, sep) == [head] + Split(tail, sep)
  {
    var s := head + [sep] + tail;
    if head == "" {
      assert s[1..] == tail;
    } else {
      SplitPeel(head[1..], tail, sep);
      assert s[1..] == head[1..] + [sep] + tail;
      assert Split(s, sep) == [[s[0]] + head[1..]] + Split(tail, sep);
      assert [s[0]] + head[1..] == head;
    }
  }

  lemma {:induction false} SplitWhole(s: string, sep: char)
    requires sep !in s
    ensures Split(s, sep) == [s]
  {
    if s != "" {
      SplitWhole(s[1..], sep);
      assert [s[0]] + s[1..] == s;
    }
  }

  /** Splitting is the inverse of joining on separator-free parts. */
  lemma {:induction false} SplitJoin(parts: seq<string>, sep: char)
    requires parts != [] && Free(parts, sep)
    ensures Split(Join(parts, sep), sep) == parts
  {
    if |parts| == 1 {
      SplitWhole(parts[0], sep);
    } else {
      SplitJoin(parts[1..], sep);
      SplitPeel(parts[0], Join(parts[1..], sep), sep);
    }
  }

  /** A text is cut at its first separator in only one way. */
  lemma FirstCutUnique(a: string, restA: string, b: string, restB: string, sep: char)
    requires sep !in a && sep !in b
    requires a + [sep] + restA == b + [sep] + restB
    ensures a == b && restA == restB
  {
    SplitPeel(a, restA, sep);
    SplitPeel(b, restB, sep);
    assert a == ([a] + Split(restA, sep))[0] == b;
    assert restA == (a + [sep] + restA)[|a| + 1..];
    assert restB == (b + [sep] + restB)[|b| + 1..];
  }

  lemma {:induction false} SplitLast(s: string, last: string, sep: char)
    requires sep !in last
    ensures var parts := Split(s + [sep] + last, sep); parts[|parts| - 1] == last
  {
    var t := s + [sep] + last;
    if s == "" {
      assert t[1..] == last;
      SplitWhole(last, sep);
    } else {
      SplitLast(s[1..], last, sep);
      assert t[1..] == s[1..] + [sep] + last;
      assert t[1..][|s| - 1] == sep;
      SplitHasSeparator(t[1..], sep);
    }
  }

  lemma {:induction false} SplitHasSeparator(s: string, sep: char)
    ensures |Split(s, sep)| > 1 <==> sep in s
  {
    if s != "" {
      SplitHasSeparator(s[1..], sep);
    }
  }

  /** A text is cut at its last separator in only one way. */
  lemma LastCutUnique(a: string, lastA: string, b: string, lastB: string, sep: char)
    requires sep !in lastA && sep !in lastB
    requires a + [sep] + lastA == b + [sep] + lastB
    ensures a == b && lastA == lastB
  {
    SplitLast(a, lastA, sep);
    SplitLast(b, lastB, sep);
    assert a == (a + [sep] + lastA)[..|a + [sep] + lastA| - |lastA| - 1];
    assert b == (b + [sep] + lastB)[..|b + [sep] + lastB| - |lastB| - 1];
  }

  /** A joined text contains a character exactly when one of the parts does, or it is the separator in use. */
  lemma {:induction false} InJoin(parts: seq<string>, sep: char, c: char)
    ensures c in Join(parts, sep) <==> (c == sep && |parts| > 1) || exists i :: 0 <= i < |parts| && c in parts[i]
  {
    if |parts| > 1 {
      InJoin(parts[1..], sep, c);
      var rest := parts[1..];
      if i :| 0 <= i < |rest| && c in rest[i] {
        assert c in parts[i + 1];
      }
      if i :| 0 <= i < |parts| && c in parts[i] {
        if i > 0 { assert c in rest[i - 1]; }
      }
    }
  }

  /** Python's white space characters, which `str.strip` removes. */
  const SPACES := " \t\n\r\U{0B}\U{0C}"

  predicate IsSpace(c: char) { c in SPACES }

  /** Space, tab, line feed, vertical tab, form feed and carriage return, by their codes. */
  lemma InSpaces(c: char)
    ensures IsSpace(c) <==> c as int in {9, 10, 11, 12, 13, 32}
  {
    assert SPACES[0] as int == 32 && SPACES[1] as int == 9 && SPACES[2] as int == 10;
    assert SPACES[3] as int == 13 && SPACES[4] as int == 11 && SPACES[5] as int == 12;
  }

  ghost predicate Blank(s: string) { forall i :: 0 <= i < |s| ==> IsSpace(s[i]) }

  function StripLeft(s: string): string {
    if s != "" && IsSpace(s[0]) then StripLeft(s[1..]) else s
  }

  function StripRight(s: string): string {
    if s != "" && IsSpace(s[|s| - 1]) then StripRight(s[..|s| - 1]) else s
  }

  function Strip(s: string): string { StripRight(StripLeft(s)) }

  lemma {:induction false} StripLeftMeaning(s: string)
    ensures StripLeft(s) == "" <==> Blank(s)
    ensures StripLeft(s) != "" ==> !IsSpace(StripLeft(s)[0])
    ensures s != "" && !IsSpace(s[0]) ==> StripLeft(s) == s
  {
    if s != "" && IsSpace(s[0]) {
      StripLeftMeaning(s[1..]);
      assert Blank(s[1..]) ==> Blank(s) by {
        if Blank(s[1..]) {
          forall i | 0 <= i < |s| ensures IsSpace(s[i]) {
            if i > 0 { assert s[i] == s[1..][i - 1]; }
          }
        }
      }
    }
  }

  lemma {:induction false} StripRightKeepsFirst(s: string)
    requires s != "" && !IsSpace(s[0])
    ensures StripRight(s) != "" && StripRight(s)[0] == s[0]
  {
    if IsSpace(s[|s| - 1]) {
      StripRightKeepsFirst(s[..|s| - 1]);
    }
  }

  lemma {:induction false} StripLeftAround(a: string, s: string)
    requires Blank(a)
    ensures StripLeft(a + s) == StripLeft(s)
  {
    if a == "" {
      assert a + s == s;
    } else {
      assert (a + s)[1..] == a[1..] + s;
      StripLeftAround(a[1..], s);
    }
  }

  lemma {:induction false} StripRightAround(s: string, b: string)
    requires Blank(b)
    ensures StripRight(s + b) == StripRight(s)
  {
    if b == "" {
      assert s + b == s;
    } else {
      assert (s + b)[..|s + b| - 1] == s + b[..|b| - 1];
      StripRightAround(s, b[..|b| - 1]);
    }
  }

  /** White space cut off in front. */
  lemma {:induction false} CutLeft(s: string) returns (a: string)
    ensures Blank(a) && s == a + StripLeft(s)
  {
    a := "";
    if s != "" && IsSpace(s[0]) {
      var rest := CutLeft(s[1..]);
      a := [s[0]] + rest;
    }
  }

  lemma {:induction false} CutRight(s: string) returns (b: string)
    ensures Blank(b) && s == StripRight(s) + b
    ensures StripRight(s) != "" ==> !IsSpace(StripRight(s)[|StripRight(s)| - 1])
  {
    b := "";
    if s != "" && IsSpace(s[|s| - 1]) {
      var front, last := s[..|s| - 1], s[|s| - 1];
      var rest := CutRight(front);
      b := rest + [last];
      assert s == front + [last] == StripRight(front) + rest + [last];
      assert StripRight(s) == StripRight(front);
    }
  }

  /** Nothing is there, or both ends are no white space. */
  ghost predicate Solid(s: string) {
    s == "" || (!IsSpace(s[0]) && !IsSpace(s[|s| - 1]))
  }

  lemma StripAround(a: string, s: string, b: string)
    requires Blank(a) && Blank(b) && Solid(s)
    ensures Strip(a + s + b) == s
  {
    assert a + s + b == a + (s + b);
    StripLeftAround(a, s + b);
    if s == "" {
      assert s + b == b;
      StripLeftMeaning(b);
    } else {
      StripLeftMeaning(s + b);
      StripRightAround(s, b);
    }
  }

  /** Stripping cuts exactly the white space at both ends. */
  lemma StripExactlyWhen(s: string, r: string)
    ensures r == Strip(s) <==> Solid(r) && exists a, b :: Blank(a) && Blank(b) && s == a + r + b
  {
    var left := CutLeft(s);
    var right := CutRight(StripLeft(s));
    assert s == left + Strip(s) + right;
    StripLeftMeaning(s);
    if StripLeft(s) != "" {
      StripRightKeepsFirst(StripLeft(s));
    }
    if a, b :| Solid(r) && Blank(a) && Blank(b) && s == a + r + b {
      StripAround(a, r, b);
    }
  }

  /** Stripping leaves nothing exactly when the text is blank, and nothing changes if both ends are solid. */
  lemma StripMeaning(s: string)
    ensures Strip(s) == "" <==> Blank(s)
    ensures s != "" && !IsSpace(s[0]) && !IsSpace(s[|s| - 1]) ==> Strip(s) == s
  {
    StripLeftMeaning(s);
    if StripLeft(s) != "" {
      StripRightKeepsFirst(StripLeft(s));
    }
  }

  const UPPER := "ABCDEFGHIJKLMNOPQRSTUVWXYZ"
  const LOWER := "abcdefghijklmnopqrstuvwxyz"
  const DIGITS := "0123456789"

  lemma InUpper(c: char)
    ensures c in UPPER <==> 'A' <= c <= 'Z'
  {
    if 'A' <= c <= 'Z' {
      LetterAt(c as int - 'A' as int);
    } else if i :| 0 <= i < |UPPER| && UPPER[i] == c {
      LetterAt(i);
    }
  }

  lemma InLower(c: char)
    ensures c in LOWER <==> 'a' <= c <= 'z'
  {
    if 'a' <= c <= 'z' {
      LetterAt(c as int - 'a' as int);
    } else if i :| 0 <= i < |LOWER| && LOWER[i] == c {
      LetterAt(i);
    }
  }

  lemma InDigits(c: char)
    ensures c in DIGITS <==> '0' <= c <= '9'
  {
    if '0' <= c <= '9' {
      assert DIGITS[c as int - '0' as int] == c;
    }
  }

  lemma LetterAt(i: nat)
    requires i < 26
    ensures UPPER[i] as int == 'A' as int + i && LOWER[i] as int == 'a' as int + i
  {}

  function LowerChar(c: char): char {
    if 'A' <= c <= 'Z' then (c as int + 32) as char else c
  }

  /** `lower` on ASCII text. */
  function Lower(s: string): (r: string)
    ensures |r| == |s|
    ensures forall i :: 0 <= i < |s| ==> r[i] == LowerChar(s[i])
  {
    if s == "" then "" else [LowerChar(s[0])] + Lower(s[1..])
  }

  /** The same character, or the two forms of one letter. */
  ghost predicate SameLetter(c: char, d: char) {
    c == d || exists i :: 0 <= i < 26 && TwoForms(c, d, i)
  }

  ghost predicate TwoForms(c: char, d: char, i: nat)
    requires i < 26
  {
    (c == UPPER[i] && d == LOWER[i]) || (c == LOWER[i] && d == UPPER[i])
  }

  ghost predicate SameIgnoringCase(s: string, t: string) {
    |s| == |t| && forall i :: 0 <= i < |s| ==> SameLetter(s[i], t[i])
  }

  lemma SameFormsMeet(c: char, d: char)
    requires SameLetter(c, d)
    ensures LowerChar(c) == LowerChar(d)
  {
    if c != d {
      var i :| 0 <= i < 26 && TwoForms(c, d, i);
      LetterAt(i);
    }
  }

  lemma MeetingFormsAreSame(c: char, d: char)
    requires LowerChar(c) == LowerChar(d)
    ensures SameLetter(c, d)
  {
    if c != d {
      var i := LowerChar(c) as int - 'a' as int;
      LetterAt(i);
      assert TwoForms(c, d, i);
    }
  }

  lemma SameLetterExactlyWhen(c: char, d: char)
    ensures LowerChar(c) == LowerChar(d) <==> SameLetter(c, d)
  {
    if SameLetter(c, d) {
      SameFormsMeet(c, d);
    } else if LowerChar(c) == LowerChar(d) {
      MeetingFormsAreSame(c, d);
    }
  }

  /** Two texts have the same lower-case form exactly when they differ in the case of letters only. */
  lemma LowerSameExactlyWhen(s: string, t: string)
    ensures Lower(s) == Lower(t) <==> SameIgnoringCase(s, t)
  {
    forall i | 0 <= i < |s| && i < |t| ensures LowerChar(s[i]) == LowerChar(t[i]) <==> SameLetter(s[i], t[i]) {
      SameLetterExactlyWhen(s[i], t[i]);
    }
    if SameIgnoringCase(s, t) {
      assert forall i :: 0 <= i < |s| ==> Lower(s)[i] == Lower(t)[i];
    } else if |s| == |t| {
      var i :| 0 <= i < |s| && !SameLetter(s[i], t[i]);
      assert Lower(s)[i] != Lower(t)[i];
    }
  }

  /** The lower-case form differs in case only and holds no upper-case letter. */
  lemma LowerMeaning(s: string)
    ensures SameIgnoringCase(Lower(s), s)
    ensures forall c :: c in UPPER ==> c !in Lower(s)
  {
    LowerTwice(s);
    LowerSameExactlyWhen(Lower(s), s);
    forall c | c in UPPER ensures c !in Lower(s) {
      InUpper(c);
    }
  }

  lemma LowerTwice(s: string)
    ensures Lower(Lower(s)) == Lower(s)
  {}

  function Digit(d: nat): char
    requires d < 10
  {
    (d + '0' as int) as char
  }

  function DecimalNat(n: nat): (r: string)
    ensures r != ""
    ensures forall i :: 0 <= i < |r| ==> '0' <= r[i] <= '9'
  {
    if n < 10 then [Digit(n)] else DecimalNat(n / 10) + [Digit(n % 10)]
  }

  /** The decimal text of an integer, as Java's string conversion prints it. */
  function Decimal(n: int): string {
    if n < 0 then "-" + DecimalNat(-n) else DecimalNat(n)
  }

  lemma DecimalShape(n: int)
    ensures Decimal(n) != "" && (Decimal(n)[0] == '-' <==> n < 0)
    ensures ':' !in Decimal(n)
  {
    var digits := DecimalNat(if n < 0 then -n else n);
    assert '0' <= digits[0] <= '9';
    assert ':' !in digits;
  }

  /** The number that decimal digits stand for. */
  function Read(digits: string): int {
    if digits == "" then 0 else 10 * Read(digits[..|digits| - 1]) + (digits[|digits| - 1] as int - '0' as int)
  }

  function ReadSigned(s: string): int {
    if s != "" && s[0] == '-' then -Read(s[1..]) else Read(s)
  }

  /** Digits without a zero in front of others. */
  ghost predicate IsNumeral(s: string) {
    s != "" && (forall i :: 0 <= i < |s| ==> '0' <= s[i] <= '9') && (|s| > 1 ==> s[0] != '0')
  }

  /** A numeral, or a minus sign and a numeral other than zero. */
  ghost predicate IsDecimal(s: string) {
    IsNumeral(s) || (s != "" && s[0] == '-' && IsNumeral(s[1..]) && s[1..] != "0")
  }

  lemma {:induction false} DecimalNatReads(n: nat)
    ensures IsNumeral(DecimalNat(n)) && Read(DecimalNat(n)) == n
    ensures n > 0 ==> DecimalNat(n)[0] != '0'
  {
    if n >= 10 {
      DecimalNatReads(n / 10);
      assert DecimalNat(n)[..|DecimalNat(n)| - 1] == DecimalNat(n / 10);
    } else {
      assert DecimalNat(n)[..0] == "";
    }
  }

  lemma {:induction false} NumeralIsPositive(s: string)
    requires IsNumeral(s)
    ensures Read(s) >= 0 && (Read(s) == 0 <==> s == "0")
  {
    if |s| > 1 {
      NumeralIsPositive(s[..|s| - 1]);
    } else {
      assert s[..0] == "";
      assert s == [s[0]];
    }
  }

  lemma {:induction false} NumeralPrints(s: string)
    requires IsNumeral(s)
    ensures Read(s) >= 0 && DecimalNat(Read(s)) == s
  {
    NumeralIsPositive(s);
    if |s| > 1 {
      var front := s[..|s| - 1];
      NumeralPrints(front);
      NumeralIsPositive(front);
      assert Read(s) / 10 == Read(front);
      assert s == front + [s[|s| - 1]];
    } else {
      assert s[..0] == "";
      assert s == [s[0]];
    }
  }

  lemma DecimalReads(n: int)
    ensures IsDecimal(Decimal(n)) && ReadSigned(Decimal(n)) == n
  {
    DecimalNatReads(if n < 0 then -n else n);
    if n < 0 {
      assert Decimal(n)[1..] == DecimalNat(-n);
      NumeralIsPositive(DecimalNat(-n));
    }
  }

  lemma DecimalPrints(s: string)
    requires IsDecimal(s)
    ensures Decimal(ReadSigned(s)) == s
  {
    if s[0] == '-' {
      NumeralPrints(s[1..]);
      NumeralIsPositive(s[1..]);
      assert s == "-" + s[1..];
    } else {
      NumeralPrints(s);
    }
  }

  /** The decimal text of an integer is the only numeral that stands for it. */
  lemma DecimalExactlyWhen(n: int, s: string)
    ensures s == Decimal(n) <==> IsDecimal(s) && ReadSigned(s) == n
  {
    DecimalReads(n);
    if IsDecimal(s) {
      DecimalPrints(s);
    }
  }

  /** Different integers have different decimal texts. */
  lemma DecimalInjective(m: int, n: int)
    requires Decimal(m) == Decimal(n)
    ensures m == n
  {
    DecimalReads(m);
    DecimalReads(n);
  }
}
