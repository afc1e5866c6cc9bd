/** `get_sentences`: clean the raw text in three ordered steps, then split
    it into sentence fragments on every '.'. Each cleaning step is a
    left-to-right scanner standing for the library call it models. */
module Sentences {
  import opened Strings

  const CrLf: string := "\r\n"

  // ---------------------------------------------------------------------------
  // Step 1: `re.sub('\r\n', ' ', text)`
  // ---------------------------------------------------------------------------

  /** `s` starts with "\r\n". */
  predicate IsCrLfAt(s: string) {
    |s| >= 2 && s[0] == '\r' && s[1] == '\n'
  }

  lemma IsCrLfAtIff(s: string)
    ensures IsCrLfAt(s) <==> StartsWith(s, CrLf)
  {
    assert |s| >= 2 ==> s[..2] == [s[0], s[1]];
  }

  /** Replaces each "\r\n", leftmost first and without overlap, by one space. */
  function ReplaceCrLf(s: string): (r: string)
    ensures |r| <= |s|
    ensures |r| == 0 <==> |s| == 0
    decreases |s|
  {
    if IsCrLfAt(s) then " " + ReplaceCrLf(s[2..])
    else if s == [] then []
    else [s[0]] + ReplaceCrLf(s[1..])
  }

  /** The result contains no "\r\n": a kept '\r' is always followed by a
      character that is not '\n'. */
  lemma {:induction false} ReplaceCrLfLeavesNone(s: string)
    ensures !Contains(ReplaceCrLf(s), CrLf)
    decreases |s|
  {
    var r := ReplaceCrLf(s);
    IsCrLfAtIff(r);
    if IsCrLfAt(s) {
      ReplaceCrLfLeavesNone(s[2..]);
      assert r[1..] == ReplaceCrLf(s[2..]);
    } else if s != [] {
      ReplaceCrLfLeavesNone(s[1..]);
      assert r[1..] == ReplaceCrLf(s[1..]);
    }
  }

  /** Text without "\r\n" passes through unchanged. */
  lemma {:induction false} ReplaceCrLfIdentity(s: string)
    requires !Contains(s, CrLf)
    ensures ReplaceCrLf(s) == s
    decreases |s|
  {
    IsCrLfAtIff(s);
    if s != [] {
      ReplaceCrLfIdentity(s[1..]);
    }
  }

  /** Text with a "\r\n" gets strictly shorter. */
  lemma {:induction false} ReplaceCrLfShrinks(s: string)
    requires Contains(s, CrLf)
    ensures |ReplaceCrLf(s)| < |s|
    decreases |s|
  {
    IsCrLfAtIff(s);
    if !IsCrLfAt(s) {
      ReplaceCrLfShrinks(s[1..]);
    }
  }

  /** A text that does not start with "\r\n" keeps its first character. */
  lemma ReplaceCrLfCons(c: char, t: string)
    requires !IsCrLfAt([c] + t)
    ensures ReplaceCrLf([c] + t) == [c] + ReplaceCrLf(t)
  {
    assert ([c] + t)[1..] == t;
  }

  /** A leading "\r\n" becomes one space. */
  lemma ReplaceCrLfHead(t: string)
    ensures ReplaceCrLf(CrLf + t) == " " + ReplaceCrLf(t)
  {
    assert IsCrLfAt(CrLf + t);
    assert (CrLf + t)[2..] == t;
  }

  /** The scan of `x + y` is the scan of `x` followed by that of `y` unless a
      "\r\n" straddles the boundary. */
  lemma {:induction false} ReplaceCrLfAppend(x: string, y: string)
    requires !(x != [] && x[|x| - 1] == '\r' && y != [] && y[0] == '\n')
    ensures ReplaceCrLf(x + y) == ReplaceCrLf(x) + ReplaceCrLf(y)
    decreases |x|
  {
    if x == [] {
      assert x + y == y;
    } else if IsCrLfAt(x) {
      var t := x[2..];
      assert t != [] ==> t[|t| - 1] == x[|x| - 1];
      ReplaceCrLfAppend(t, y);
      TakeDrop(x, 2);
      assert x[..2] == CrLf;
      Assoc(CrLf, t, y);
      ReplaceCrLfHead(t);
      ReplaceCrLfHead(t + y);
      Assoc(" ", ReplaceCrLf(t), ReplaceCrLf(y));
    } else {
      var c, t := x[0], x[1..];
      assert t != [] ==> t[|t| - 1] == x[|x| - 1];
      ReplaceCrLfAppend(t, y);
      TakeDrop(x, 1);
      assert x[..1] == [c];
      Assoc([c], t, y);
      assert !IsCrLfAt([c] + (t + y)) by {
        if t == [] {
          assert [c] + (t + y) == [c] + y;
        }
      }
      ReplaceCrLfCons(c, t);
      ReplaceCrLfCons(c, t + y);
      Assoc([c], ReplaceCrLf(t), ReplaceCrLf(y));
    }
  }

  /** Every "\r\n" becomes exactly one space whatever surrounds it. */
  lemma CrLfBecomesSpace(a: string, b: string)
    ensures ReplaceCrLf(a + CrLf + b) == ReplaceCrLf(a) + " " + ReplaceCrLf(b)
  {
    Assoc(a, CrLf, b);
    ReplaceCrLfAppend(a, CrLf + b);
    ReplaceCrLfHead(b);
    Assoc(ReplaceCrLf(a), " ", ReplaceCrLf(b));
  }

  // ---------------------------------------------------------------------------
  // Step 2: `re.sub('\[\d+\]', '', text)`
  // ---------------------------------------------------------------------------

  /** Length of the run of digits that `s` starts with. */
  function DigitRun(s: string): (n: nat)
    ensures n <= |s|
    ensures forall i :: 0 <= i < n ==> IsDigit(s[i])
    ensures n < |s| ==> !IsDigit(s[n])
    decreases |s|
  {
    if s != [] && IsDigit(s[0]) then 1 + DigitRun(s[1..]) else 0
  }

  /** Length of the bracketed number marker `[<digits>]` at the start of `s`,
      0 when there is none. Because `\d+` is followed by ']', which is not a
      digit, the greedy digit run is the only candidate. */
  function MarkerLength(s: string): (m: nat)
    ensures m <= |s|
    ensures m == 0 || m >= 3
    decreases |s|
  {
    if s != [] && s[0] == '[' then
      var k := DigitRun(s[1..]);
      if k > 0 && k + 1 < |s| && s[k + 1] == ']' then k + 2 else 0
    else 0
  }

  /** A bracketed number marker: '[', one or more digits, ']'. */
  predicate IsMarker(m: string) {
    |m| >= 3 && m[0] == '[' && m[|m| - 1] == ']' && AllDigits(m[1..|m| - 1])
  }

  predicate AllDigits(s: string) {
    forall i :: 0 <= i < |s| ==> IsDigit(s[i])
  }

  /** What the scanner measures at the start of `s` is a marker, and a marker
      at the start of `s` is what it measures: the regex's leftmost match. */
  lemma MarkerLengthExact(s: string)
    ensures MarkerLength(s) > 0 ==> IsMarker(s[..MarkerLength(s)])
    ensures forall m :: IsMarker(m) && StartsWith(s, m) ==> MarkerLength(s) == |m|
  {
    if MarkerLength(s) > 0 {
      var k := MarkerLength(s) - 2;
      assert s[..k + 2][1..k + 1] == s[1..][..k];
    }
    forall m | IsMarker(m) && StartsWith(s, m)
      ensures MarkerLength(s) == |m|
    {
      assert s[1..] == m[1..|m| - 1] + s[|m| - 1..];
      DigitRunAll(m[1..|m| - 1], s[|m| - 1..]);
    }
  }

  /** Deletes every marker, scanning left to right; each position either
      starts a marker, which is skipped whole, or is copied. */
  function RemoveMarkers(s: string): (r: string)
    ensures |r| <= |s|
    decreases |s|
  {
    if s == [] then []
    else
      var m := MarkerLength(s);
      if m > 0 then RemoveMarkers(s[m..])
      else [s[0]] + RemoveMarkers(s[1..])
  }

  lemma {:induction false} DigitRunAppend(u: string, y: string)
    requires y == [] || !IsDigit(y[0])
    ensures DigitRun(u + y) == DigitRun(u)
    decreases |u|
  {
    if u == [] {
      assert u + y == y;
    } else {
      assert (u + y)[1..] == u[1..] + y;
      DigitRunAppend(u[1..], y);
    }
  }

  /** Appending text that cannot continue a marker leaves the marker at the
      start of `x` unchanged. */
  lemma MarkerLengthAppend(x: string, y: string)
    requires x != []
    requires y == [] || (!IsDigit(y[0]) && y[0] != ']')
    ensures MarkerLength(x + y) == MarkerLength(x)
  {
    if x[0] == '[' {
      assert (x + y)[1..] == x[1..] + y;
      DigitRunAppend(x[1..], y);
    }
  }

  /** The scan of `x + y` is the scan of `x` followed by that of `y` when `y`
      cannot finish a marker begun in `x`. */
  lemma {:induction false} RemoveMarkersAppend(x: string, y: string)
    requires y == [] || (!IsDigit(y[0]) && y[0] != ']')
    ensures RemoveMarkers(x + y) == RemoveMarkers(x) + RemoveMarkers(y)
    decreases |x|
  {
    if x == [] {
      assert x + y == y;
    } else {
      MarkerLengthAppend(x, y);
      var m := MarkerLength(x);
      if m > 0 {
        DropAppend(x, y, m);
        RemoveMarkersAppend(x[m..], y);
      } else {
        DropAppend(x, y, 1);
        RemoveMarkersAppend(x[1..], y);
        Assoc([x[0]], RemoveMarkers(x[1..]), RemoveMarkers(y));
      }
    }
  }

  /** A marker is deleted entirely, whatever surrounds it. */
  lemma MarkerDeleted(a: string, m: string, b: string)
    requires IsMarker(m)
    ensures RemoveMarkers(a + m + b) == RemoveMarkers(a) + RemoveMarkers(b)
  {
    Assoc(a, m, b);
    RemoveMarkersAppend(a, m + b);
    MarkerLengthExact(m + b);
    assert StartsWith(m + b, m);
    assert (m + b)[|m|..] == b;
  }

  lemma {:induction false} DigitRunAll(digits: string, y: string)
    requires AllDigits(digits)
    requires y == [] || !IsDigit(y[0])
    ensures DigitRun(digits + y) == |digits|
    decreases |digits|
  {
    if digits == [] {
      assert digits + y == y;
    } else {
      assert (digits + y)[1..] == digits[1..] + y;
      DigitRunAll(digits[1..], y);
    }
  }

  /** Step 2 keeps everything that is not a marker: text in which no marker
      starts at any position is left unchanged, digits, brackets and
      unclosed "[1" included. */
  lemma {:induction false} RemoveMarkersIdentity(s: string)
    requires forall i :: 0 <= i <= |s| ==> MarkerLength(s[i..]) == 0
    ensures RemoveMarkers(s) == s
    decreases |s|
  {
    if s != [] {
      assert s[0..] == s;
      forall i | 0 <= i <= |s| - 1
        ensures MarkerLength(s[1..][i..]) == 0
      {
        assert s[1..][i..] == s[i + 1..];
      }
      RemoveMarkersIdentity(s[1..]);
    }
  }

  /** Digit-free text has no marker to remove. */
  lemma RemoveMarkersNoDigits(s: string)
    requires NoDigits(s)
    ensures RemoveMarkers(s) == s
  {
    forall i | 0 <= i <= |s|
      ensures MarkerLength(s[i..]) == 0
    {
      var t := s[i..];
      if t != [] && t[0] == '[' && |t| > 1 {
        assert t[1..][0] == s[i + 1];
      }
    }
    RemoveMarkersIdentity(s);
  }

  /** A digit with no closing bracket is no marker: "[1x" survives step 2. */
  lemma UnclosedMarkerKept()
    ensures RemoveMarkers("[1x") == "[1x"
  {
    assert "[1x"[1..] == "1x";
    assert "[1x"[1..][1..] == "x";
  }

  // ---------------------------------------------------------------------------
  // Step 3: `text.translate(str.maketrans('', '', string.digits))`
  // ---------------------------------------------------------------------------

  /** Deletes every digit. */
  function RemoveDigits(s: string): (r: string)
    ensures |r| <= |s|
    ensures NoDigits(r)
    decreases |s|
  {
    if s == [] then []
    else if IsDigit(s[0]) then RemoveDigits(s[1..])
    else [s[0]] + RemoveDigits(s[1..])
  }

  /** Digits are deleted, not replaced: no digit is left, and every other
      character occurs exactly as often as in the input. */
  lemma {:induction false} RemoveDigitsCounts(s: string)
    ensures forall c ::
      multiset(RemoveDigits(s))[c] == if IsDigit(c) then 0 else multiset(s)[c]
    decreases |s|
  {
    if s != [] {
      RemoveDigitsCounts(s[1..]);
      assert s == [s[0]] + s[1..];
      assert multiset(s) == multiset([s[0]]) + multiset(s[1..]);
    }
  }

  /** Deleting digits works character by character: it distributes over
      concatenation. */
  lemma {:induction false} RemoveDigitsAppend(x: string, y: string)
    ensures RemoveDigits(x + y) == RemoveDigits(x) + RemoveDigits(y)
    decreases |x|
  {
    if x == [] {
      assert x + y == y;
    } else {
      assert (x + y)[1..] == x[1..] + y;
      RemoveDigitsAppend(x[1..], y);
      Assoc([x[0]], RemoveDigits(x[1..]), RemoveDigits(y));
    }
  }

  /** Digit-free text passes through unchanged. */
  lemma {:induction false} RemoveDigitsIdentity(s: string)
    requires NoDigits(s)
    ensures RemoveDigits(s) == s
    decreases |s|
  {
    if s != [] {
      RemoveDigitsIdentity(s[1..]);
    }
  }

  // ---------------------------------------------------------------------------
  // The three steps in order, then the split
  // ---------------------------------------------------------------------------

  /** The cleaned text: line endings, then markers, then digits. */
  function Clean(s: string): (r: string)
    ensures NoDigits(r)
    ensures |r| <= |s|
  {
    RemoveDigits(RemoveMarkers(ReplaceCrLf(s)))
  }

  /** `get_sentences`. */
  function GetSentences(text: string): (r: seq<string>)
    ensures |r| >= 1
  {
    Split(Clean(text), '.')
  }

  /** Joining the fragments with '.' gives back exactly the cleaned text;
      there is one fragment more than there are '.'s in it; no fragment
      holds a '.' or a digit. */
  lemma GetSentencesShape(text: string)
    ensures Join(GetSentences(text), ".") == Clean(text)
    ensures |GetSentences(text)| == multiset(Clean(text))['.'] + 1
    ensures forall k :: 0 <= k < |GetSentences(text)| ==>
      '.' !in GetSentences(text)[k] && NoDigits(GetSentences(text)[k])
  {
    var c := Clean(text);
    SplitJoin(c, '.');
    SplitCount(c, '.');
    SplitFragmentsLackDelimiter(c, '.');
    SplitFragmentsFromInput(c, '.');
    var r := Split(c, '.');
    forall k | 0 <= k < |r|
      ensures NoDigits(r[k])
    {
      forall i | 0 <= i < |r[k]|
        ensures !IsDigit(r[k][i])
      {
        assert r[k][i] in r[k];
        assert r[k][i] in c;
        var j :| 0 <= j < |c| && c[j] == r[k][i];
      }
    }
  }

  /** A marker contains no '\r', hence no "\r\n". */
  lemma MarkerHasNoCrLf(m: string)
    requires IsMarker(m)
    ensures !Contains(m, CrLf)
  {
    forall i | 0 <= i < |m|
      ensures m[i] != '\r'
    {
      if 1 <= i < |m| - 1 {
        assert m[1..|m| - 1][i - 1] == m[i];
      }
    }
    NoCarriageReturn(m);
  }

  lemma {:induction false} NoCarriageReturn(s: string)
    requires forall i :: 0 <= i < |s| ==> s[i] != '\r'
    ensures !Contains(s, CrLf)
    decreases |s|
  {
    IsCrLfAtIff(s);
    if s != [] {
      NoCarriageReturn(s[1..]);
    }
  }

  lemma RemoveMarkersCons(c: char, s: string)
    requires c != '['
    ensures RemoveMarkers([c] + s) == [c] + RemoveMarkers(s)
  {
    assert ([c] + s)[1..] == s;
  }

  lemma RemoveDigitsCons(c: char, s: string)
    requires !IsDigit(c)
    ensures RemoveDigits([c] + s) == [c] + RemoveDigits(s)
  {
    assert ([c] + s)[1..] == s;
  }

  /** A marker is deleted whole by cleaning, never left behind as "[]":
      markers go before digits do. */
  lemma CleanDeletesMarker(a: string, m: string, b: string)
    requires IsMarker(m)
    ensures Clean(a + m + b) == Clean(a) + Clean(b)
  {
    MarkerHasNoCrLf(m);
    ReplaceCrLfIdentity(m);
    Assoc(a, m, b);
    ReplaceCrLfAppend(a, m + b);
    ReplaceCrLfAppend(m, b);
    var ra, rb := ReplaceCrLf(a), ReplaceCrLf(b);
    Assoc(ra, m, rb);
    MarkerDeleted(ra, m, rb);
    RemoveDigitsAppend(RemoveMarkers(ra), RemoveMarkers(rb));
  }

  /** Every "\r\n" of the raw text comes out of cleaning as a single space. */
  lemma CleanCrLf(a: string, b: string)
    ensures Clean(a + CrLf + b) == Clean(a) + " " + Clean(b)
  {
    CrLfBecomesSpace(a, b);
    var ra, rb := ReplaceCrLf(a), ReplaceCrLf(b);
    Assoc(ra, " ", rb);
    RemoveMarkersAppend(ra, " " + rb);
    RemoveMarkersCons(' ', rb);
    var ma, mb := RemoveMarkers(ra), RemoveMarkers(rb);
    RemoveDigitsAppend(ma, " " + mb);
    RemoveDigitsCons(' ', mb);
    Assoc(RemoveDigits(ma), " ", RemoveDigits(mb));
  }

  /** The texts cleaning leaves alone are exactly those with no digit and no
      "\r\n". */
  lemma CleanFixedPoints(s: string)
    ensures Clean(s) == s <==> NoDigits(s) && !Contains(s, CrLf)
  {
    if NoDigits(s) && !Contains(s, CrLf) {
      ReplaceCrLfIdentity(s);
      RemoveMarkersNoDigits(s);
      RemoveDigitsIdentity(s);
    }
    if Contains(s, CrLf) {
      ReplaceCrLfShrinks(s);
    }
  }

  /** Cleaning a cleaned text changes it again exactly when the first pass
      left a "\r\n" behind (one put together by deleting a marker or a
      digit, as in "\r[1]\n" or "\r1\n"). */
  lemma CleanTwiceIff(s: string)
    ensures Clean(Clean(s)) == Clean(s) <==> !Contains(Clean(s), CrLf)
  {
    CleanFixedPoints(Clean(s));
  }

  /** Two lines joined by "\r\n" with a citation marker on the second:
      the "\r\n" becomes a space and the marker goes whole. */
  lemma CleanLines(x: string, y: string, m: string, z: string)
    requires IsMarker(m)
    ensures Clean(x + CrLf + y + m + CrLf + z) == Clean(x) + " " + Clean(y) + " " + Clean(z)
  {
    var t := y + m + CrLf + z;
    RegroupAround(x, CrLf, y, m, z);
    CleanCrLf(x, t);
    CleanCrLf(y + m, z);
    AppendEmpty(y + m);
    CleanDeletesMarker(y, m, []);
    EmptyClean();
    AppendEmpty(Clean(y));
    RegroupAround(Clean(x), " ", Clean(y), [], Clean(z));
  }


  // ---------------------------------------------------------------------------
  // Concrete cases. Each is put together from the lemmas above and from
  // one-line facts about short literals. The facts are separate lemmas so
  // that each proof stays within the verifier's resource budget: evaluating
  // several scanners on literals in one proof costs far more than the sum.
  // ---------------------------------------------------------------------------

  lemma EmptyClean() ensures Clean([]) == [] {}
  lemma TwelveIsMarker() ensures IsMarker("[12]") { assert "[12]"[1..3] == "12"; }
  lemma OneIsMarker() ensures IsMarker("[1]") { assert "[1]"[1..2] == "1"; }
  lemma TwoIsMarker() ensures IsMarker("[2]") { assert "[2]"[1..2] == "2"; }

  lemma AbcParts() ensures "abc[12]" == "abc" + "[12]" + [] {}
  lemma CleanAbc() ensures Clean("abc") == "abc" {}

  /** The example in the source's comment: `abc[12]` becomes `abc`. */
  lemma CleanExample()
    ensures Clean("abc[12]") == "abc"
  {
    AbcParts();
    TwelveIsMarker();
    CleanDeletesMarker("abc", "[12]", []);
    CleanAbc();
    EmptyClean();
    AppendEmpty("abc");
  }

  lemma NestedParts() ensures "[1[2]]" == "[1" + "[2]" + "]" {}
  lemma CleanOpenOne() ensures Clean("[1") == "[" {}
  lemma CleanClose() ensures Clean("]") == "]" {}
  lemma Brackets() ensures "[" + "]" == "[]" {}

  /** Each step is one pass: a marker completed only by deleting an inner
      one survives step 2, and step 3 then leaves its brackets behind. */
  lemma NestedMarkerLeavesBrackets()
    ensures Clean("[1[2]]") == "[]"
  {
    NestedParts();
    TwoIsMarker();
    CleanDeletesMarker("[1", "[2]", "]");
    CleanOpenOne();
    CleanClose();
    Brackets();
  }

  lemma SplitLineParts() ensures "\r[1]\n" == "\r" + "[1]" + "\n" {}
  lemma CleanCr() ensures Clean("\r") == "\r" {}
  lemma CleanLf() ensures Clean("\n") == "\n" {}
  lemma CrThenLf() ensures "\r" + "\n" == CrLf {}
  lemma CrLfParts() ensures CrLf == [] + CrLf + [] {}
  lemma SpaceParts() ensures [] + " " + [] == " " {}

  /** A "\r\n" put together by deleting a marker is not turned into a space,
      so cleaning is not idempotent in general. */
  lemma CleanNotIdempotent()
    ensures Clean("\r[1]\n") == "\r\n"
    ensures Clean("\r\n") == " "
  {
    SplitLineParts();
    OneIsMarker();
    CleanDeletesMarker("\r", "[1]", "\n");
    CleanCr();
    CleanLf();
    CrThenLf();
    CrLfParts();
    CleanCrLf([], []);
    EmptyClean();
    SpaceParts();
  }

  lemma CrLfDigitJoin() ensures ReplaceCrLf("\r1\n") == "\r1\n" {}
  lemma MarkersDigitJoin() ensures RemoveMarkers("\r1\n") == "\r1\n" {}
  lemma DigitsDigitJoin() ensures RemoveDigits("\r1\n") == "\r\n" {}

  /** Deleting a digit can put a "\r\n" together too. */
  lemma DigitJoinsCrLf()
    ensures Clean("\r1\n") == "\r\n"
  {
    CrLfDigitJoin();
    MarkersDigitJoin();
    DigitsDigitJoin();
  }

  lemma CrLfWordDigit() ensures ReplaceCrLf("Line1") == "Line1" {}
  lemma MarkersWordDigit() ensures RemoveMarkers("Line1") == "Line1" {}
  lemma DigitsWordDigit() ensures RemoveDigits("Line1") == "Line" {}
  lemma CleanWordDigit() ensures Clean("Line1") == "Line" {
    CrLfWordDigit();
    MarkersWordDigit();
    DigitsWordDigit();
  }

  lemma CrLfWordSpace() ensures ReplaceCrLf("Line ") == "Line " {}
  lemma MarkersWordSpace() ensures RemoveMarkers("Line ") == "Line " {}
  lemma DigitsWordSpace() ensures RemoveDigits("Line ") == "Line " {}
  lemma CleanWordSpace() ensures Clean("Line ") == "Line " {
    CrLfWordSpace();
    MarkersWordSpace();
    DigitsWordSpace();
  }

  lemma CrLfWordDot() ensures ReplaceCrLf("End3.") == "End3." {}
  lemma MarkersWordDot() ensures RemoveMarkers("End3.") == "End3." {}
  lemma DigitsWordDot() ensures RemoveDigits("End3.") == "End." {}
  lemma CleanWordDot() ensures Clean("End3.") == "End." {
    CrLfWordDot();
    MarkersWordDot();
    DigitsWordDot();
  }

  lemma LinesJoined() ensures "Line" + " " + "Line " + " " + "End." == "Line Line  End." {}

  /** Each "\r\n" becomes a space, the marker goes whole, the digits go. */
  lemma CleanLinesExample()
    ensures Clean("Line1" + CrLf + "Line " + "[12]" + CrLf + "End3.") == "Line Line  End."
  {
    CleanWordDigit();
    CleanWordSpace();
    CleanWordDot();
    TwelveIsMarker();
    CleanLines("Line1", "Line ", "[12]", "End3.");
    LinesJoined();
  }

  lemma CrLfDots() ensures ReplaceCrLf("A.B..C") == "A.B..C" {}
  lemma MarkersDots() ensures RemoveMarkers("A.B..C") == "A.B..C" {}
  lemma DigitsDots() ensures RemoveDigits("A.B..C") == "A.B..C" {}

  /** Splitting keeps empty fragments. */
  lemma SplitExample()
    ensures GetSentences("A.B..C") == ["A", "B", "", "C"]
    ensures GetSentences("") == [""]
  {
    CrLfDots();
    MarkersDots();
    DigitsDots();
    SplitKeepsEmpty();
    EmptyClean();
  }
}
