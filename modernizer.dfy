/** `modernize_sentences`: in every fragment replace the archaic "’d" by
    "ed", then strip the surrounding whitespace. */
module Modernizer {
  import opened Strings

  /** U+2019 RIGHT SINGLE QUOTATION MARK, the apostrophe of "belov’d". */
  const Apostrophe: char := '\U{2019}'

  /** "’d" starts at position `i` of `s`. */
  predicate IsContractionAt(s: string, i: int) {
    0 <= i && i + 1 < |s| && s[i] == Apostrophe && s[i + 1] == 'd'
  }

  predicate NoContraction(s: string) {
    forall i :: 0 <= i < |s| ==> !IsContractionAt(s, i)
  }

  /** `s.replace('’d', 'ed')`, scanning left to right. */
  function ReplaceContraction(s: string): (r: string)
    ensures |r| == |s|
    decreases |s|
  {
    if |s| >= 2 && s[0] == Apostrophe && s[1] == 'd' then "ed" + ReplaceContraction(s[2..])
    else if s == [] then []
    else [s[0]] + ReplaceContraction(s[1..])
  }

  /** Since "’d" cannot overlap itself, every occurrence is replaced: the
      apostrophe of each becomes 'e' and nothing else changes. */
  lemma {:induction false} ReplaceContractionAt(s: string)
    ensures forall i :: 0 <= i < |s| ==>
      ReplaceContraction(s)[i] == if IsContractionAt(s, i) then 'e' else s[i]
    decreases |s|
  {
    if |s| >= 2 && s[0] == Apostrophe && s[1] == 'd' {
      var t := s[2..];
      ReplaceContractionAt(t);
      assert forall i :: 2 <= i < |s| ==> (IsContractionAt(s, i) <==> IsContractionAt(t, i - 2));
    } else if s != [] {
      var t := s[1..];
      ReplaceContractionAt(t);
      assert forall i :: 1 <= i < |s| ==> (IsContractionAt(s, i) <==> IsContractionAt(t, i - 1));
    }
  }

  /** One fragment: replace, then strip. */
  function ModernizeSentence(s: string): (r: string)
    ensures |r| <= |s|
  {
    Strip(ReplaceContraction(s))
  }

  /** `list(map(lambda s: s.replace('’d', 'ed').strip(), sentences))`. */
  function ModernizeSentences(fs: seq<string>): (r: seq<string>)
    ensures |r| == |fs|
  {
    seq(|fs|, k requires 0 <= k < |fs| => ModernizeSentence(fs[k]))
  }

  /** No "’d" is left after the replacement: the 'e' written for an
      apostrophe is no apostrophe, and a kept apostrophe is not followed by 'd'. */
  lemma ReplaceLeavesNone(s: string)
    ensures NoContraction(ReplaceContraction(s))
  {
    var r := ReplaceContraction(s);
    ReplaceContractionAt(s);
    forall i | 0 <= i < |r|
      ensures !IsContractionAt(r, i)
    {
      if r[i] == Apostrophe && i + 1 < |r| {
        assert !IsContractionAt(s, i);
        assert s[i + 1] != 'd';
      }
    }
  }

  /** Text without "’d" is left unchanged, so replacing twice is replacing once. */
  lemma ReplaceIdentity(s: string)
    requires NoContraction(s)
    ensures ReplaceContraction(s) == s
  {
    ReplaceContractionAt(s);
  }

  /** The replacement never turns whitespace into text or text into whitespace. */
  lemma ReplaceKeepsSpaces(s: string)
    ensures forall i :: 0 <= i < |s| ==> (IsSpace(ReplaceContraction(s)[i]) <==> IsSpace(s[i]))
  {
    ReplaceContractionAt(s);
  }

  /** Cutting a slice out of a text without "’d" leaves a text without "’d". */
  lemma SliceNoContraction(s: string, i: int, j: int)
    requires 0 <= i <= j <= |s| && NoContraction(s)
    ensures NoContraction(s[i..j])
  {
    forall p | 0 <= p < j - i
      ensures !IsContractionAt(s[i..j], p)
    {
      assert !IsContractionAt(s, i + p);
    }
  }

  /** Each modernized fragment has no whitespace at either end and no "’d". */
  lemma ModernizeSentenceShape(s: string)
    ensures var r := ModernizeSentence(s);
      (r == [] || (!IsSpace(r[0]) && !IsSpace(r[|r| - 1]))) && NoContraction(r)
  {
    var t := ReplaceContraction(s);
    ReplaceLeavesNone(s);
    StripIsTrim(t);
    var i, j :| TrimmedSlice(t, Strip(t), i, j);
    SliceNoContraction(t, i, j);
  }

  /** Modernizing a fragment twice is modernizing it once. */
  lemma ModernizeSentenceIdempotent(s: string)
    ensures ModernizeSentence(ModernizeSentence(s)) == ModernizeSentence(s)
  {
    var r := ModernizeSentence(s);
    ModernizeSentenceShape(s);
    ReplaceIdentity(r);
    StripIdempotent(ReplaceContraction(s));
  }

  /** A final character other than 'd' cannot complete a "’d". */
  lemma ReplaceSnoc(x: string, c: char)
    requires c != 'd'
    ensures ReplaceContraction(x + [c]) == ReplaceContraction(x) + [c]
  {
    var l, r := ReplaceContraction(x + [c]), ReplaceContraction(x) + [c];
    ReplaceContractionAt(x + [c]);
    ReplaceContractionAt(x);
    forall i | 0 <= i < |l|
      ensures l[i] == r[i]
    {
      if i < |x| {
        assert IsContractionAt(x + [c], i) <==> IsContractionAt(x, i);
      }
    }
  }

  lemma {:induction false} ReplaceStripStart(s: string)
    ensures StripStart(ReplaceContraction(s)) == ReplaceContraction(StripStart(s))
    decreases |s|
  {
    if s != [] && IsSpace(s[0]) {
      ReplaceStripStart(s[1..]);
      assert ReplaceContraction(s) == [s[0]] + ReplaceContraction(s[1..]);
      assert ([s[0]] + ReplaceContraction(s[1..]))[1..] == ReplaceContraction(s[1..]);
    }
  }

  lemma {:induction false} ReplaceStripEnd(s: string)
    ensures StripEnd(ReplaceContraction(s)) == ReplaceContraction(StripEnd(s))
    decreases |s|
  {
    if s != [] && IsSpace(s[|s| - 1]) {
      var x := s[..|s| - 1];
      assert s == x + [s[|s| - 1]];
      ReplaceSnoc(x, s[|s| - 1]);
      ReplaceStripEnd(x);
      assert (ReplaceContraction(x) + [s[|s| - 1]])[..|s| - 1] == ReplaceContraction(x);
    } else {
      ReplaceKeepsSpaces(s);
    }
  }

  /** The two steps commute: whitespace is never part of a "’d", so
      stripping first and replacing first give the same fragment. */
  lemma ReplaceStripCommute(s: string)
    ensures ModernizeSentence(s) == ReplaceContraction(Strip(s))
  {
    ReplaceStripStart(s);
    ReplaceStripEnd(StripStart(s));
  }

  /** Modernizing keeps the fragment count and order and maps each fragment
      on its own; every result has no whitespace at either end and no "’d". */
  lemma ModernizeShape(fs: seq<string>)
    ensures |ModernizeSentences(fs)| == |fs|
    ensures forall k :: 0 <= k < |fs| ==>
      ModernizeSentences(fs)[k] == Strip(ReplaceContraction(fs[k]))
    ensures forall k :: 0 <= k < |fs| ==>
      var r := ModernizeSentences(fs)[k];
      (r == [] || (!IsSpace(r[0]) && !IsSpace(r[|r| - 1]))) && NoContraction(r)
  {
    forall k | 0 <= k < |fs|
      ensures var r := ModernizeSentences(fs)[k];
        (r == [] || (!IsSpace(r[0]) && !IsSpace(r[|r| - 1]))) && NoContraction(r)
    {
      assert ModernizeSentences(fs)[k] == ModernizeSentence(fs[k]);
      ModernizeSentenceShape(fs[k]);
    }
  }

  /** Modernizing twice is modernizing once. */
  lemma ModernizeIdempotent(fs: seq<string>)
    ensures ModernizeSentences(ModernizeSentences(fs)) == ModernizeSentences(fs)
  {
    var r := ModernizeSentences(fs);
    forall k | 0 <= k < |fs|
      ensures ModernizeSentences(r)[k] == r[k]
    {
      ModernizeSentenceIdempotent(fs[k]);
    }
  }

  /** Text without an apostrophe is left unchanged. */
  lemma {:induction false} ReplaceNoApostrophe(x: string)
    requires Apostrophe !in x
    ensures ReplaceContraction(x) == x
    decreases |x|
  {
    if x != [] {
      assert x[0] in x;
      assert forall c :: c in x[1..] ==> c in x;
      ReplaceNoApostrophe(x[1..]);
    }
  }

  /** The first "’d" of a text becomes "ed"; the scan then goes on after it. */
  lemma {:induction false} ReplaceFirst(x: string, y: string)
    requires NoContraction(x)
    ensures ReplaceContraction(x + [Apostrophe, 'd'] + y) == x + "ed" + ReplaceContraction(y)
    decreases |x|
  {
    var s := x + [Apostrophe, 'd'] + y;
    if x == [] {
      assert s == [Apostrophe, 'd'] + y;
      assert s[2..] == y;
    } else {
      assert |x| >= 2 ==> !IsContractionAt(x, 0);
      SliceNoContraction(x, 1, |x|);
      assert x[1..|x|] == x[1..];
      Assoc(x, [Apostrophe, 'd'], y);
      DropAppend(x, [Apostrophe, 'd'] + y, 1);
      Assoc(x[1..], [Apostrophe, 'd'], y);
      assert s[0] == x[0];
      ReplaceFirst(x[1..], y);
      Regroup4([x[0]], x[1..], "ed", ReplaceContraction(y));
      TakeDrop(x, 1);
      assert x[..1] == [x[0]];
    }
  }

  /** A text that starts and ends with one space around a trimmed text
      strips to that text. */
  lemma StripPadded(x: string)
    requires x != [] && !IsSpace(x[0]) && !IsSpace(x[|x| - 1])
    ensures Strip([' '] + x + [' ']) == x
  {
    var s := [' '] + x + [' '];
    assert s[1..] == x + [' '];
    assert StartsWith(x + [' '], x) && (x + [' '])[0] == x[0];
    assert StripStart(s) == x + [' '];
    assert (x + [' '])[..|x|] == x;
    assert StripEnd(x + [' ']) == StripEnd(x);
  }

  // One-line facts about the example's literals, kept as separate lemmas so
  // that the example's proof stays within the verifier's resource budget.
  lemma ExampleSplits() ensures " belov\U{2019}d friend " == " belov" + [Apostrophe, 'd'] + " friend " {}
  lemma ExampleHeadPlain() ensures NoContraction(" belov") {}
  lemma ExampleTailPlain() ensures Apostrophe !in " friend " {}
  lemma ExampleJoins() ensures " belov" + "ed" + " friend " == [' '] + "beloved friend" + [' '] {}

  lemma ReplaceExample()
    ensures ReplaceContraction(" belov\U{2019}d friend ") == [' '] + "beloved friend" + [' ']
  {
    ExampleSplits();
    ExampleHeadPlain();
    ExampleTailPlain();
    ReplaceFirst(" belov", " friend ");
    ReplaceNoApostrophe(" friend ");
    ExampleJoins();
  }

  /** "belov’d" becomes "beloved" and the padding goes. */
  lemma ModernizeExample()
    ensures ModernizeSentence(" belov\U{2019}d friend ") == "beloved friend"
  {
    ReplaceExample();
    StripPadded("beloved friend");
  }

  /** The same fragment as the only element of a list. */
  lemma ModernizeListExample()
    ensures ModernizeSentences([" belov\U{2019}d friend "]) == ["beloved friend"]
  {
    ModernizeExample();
  }
}
