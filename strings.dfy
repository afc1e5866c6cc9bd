/** Models of the Python string operations the pipeline is built from:
    `str.split`, the `in` substring test, `str.lower` and `str.strip`, with
    `Join` as the reference definition that the split round trip is stated
    against. Where Python consults Unicode tables (`lower`, `isspace`)
    these models cover the ASCII range only. */
module Strings {

  /** A character of `string.digits`; also the ASCII part of the regex class `\d`. */
  predicate IsDigit(c: char) {
    '0' <= c <= '9'
  }

  /** The ASCII characters for which `str.isspace` holds: these are what `str.strip()` removes. */
  predicate IsSpace(c: char) {
    c == ' ' || ('\t' <= c <= '\r') || ('\U{1C}' <= c <= '\U{1F}')
  }

  /** No character of `s` is a digit. */
  predicate NoDigits(s: string) {
    forall i :: 0 <= i < |s| ==> !IsDigit(s[i])
  }

  /** Every character of `s` is whitespace (vacuously true of ""). */
  predicate AllSpace(s: string) {
    forall i :: 0 <= i < |s| ==> IsSpace(s[i])
  }

  /** Concatenation is associative; stated on its own, in the groupings the
      proofs about the scanners need, so that they need not rediscover it. */
  lemma Assoc(a: string, b: string, c: string)
    ensures a + b + c == a + (b + c)
  {
  }

  /** Four parts: the first apart from the other three. */
  lemma Regroup4(a: string, b: string, c: string, e: string)
    ensures a + b + c + e == a + (b + c + e)
  {
  }

  /** Two separators around a middle part: the tail after the first one. */
  lemma RegroupAround(head: string, sep: string, mid: string, m: string, tail: string)
    ensures head + sep + mid + m + sep + tail == head + sep + (mid + m + sep + tail)
  {
  }

  lemma AppendEmpty(a: string)
    ensures a + [] == a
  {
  }

  /** Dropping from the front of `x + y` drops from `x`. */
  lemma DropAppend(x: string, y: string, k: int)
    requires 0 <= k <= |x|
    ensures (x + y)[k..] == x[k..] + y
  {
  }

  /** Taking from a text is taking its first character, then from the rest. */
  lemma TakeCons(s: string, k: int)
    requires 1 <= k <= |s|
    ensures s[..k] == [s[0]] + s[1..][..k - 1]
  {
  }

  /** Taking from or dropping from a text before its last character. */
  lemma DropSnoc(s: string, k: int)
    requires 0 <= k < |s|
    ensures s[..k] == s[..|s| - 1][..k]
    ensures s[k..] == s[..|s| - 1][k..] + [s[|s| - 1]]
  {
  }

  /** A text is its first `k` characters followed by the rest. */
  lemma TakeDrop(s: string, k: int)
    requires 0 <= k <= |s|
    ensures s[..k] + s[k..] == s
  {
  }

  // ---------------------------------------------------------------------------
  // Substring search: the `p in s` test
  // ---------------------------------------------------------------------------

  predicate StartsWith(s: string, p: string) {
    |p| <= |s| && s[..|p|] == p
  }

  /** Reference meaning of "p occurs in s at position i". */
  ghost predicate OccursAt(s: string, p: string, i: int) {
    0 <= i && i + |p| <= |s| && s[i..i + |p|] == p
  }

  /** `p in s`, as a left-to-right scan trying every start position. */
  predicate Contains(s: string, p: string)
    decreases |s|
  {
    if StartsWith(s, p) then true
    else if s == [] then false
    else Contains(s[1..], p)
  }

  lemma OccursAtStart(s: string, p: string)
    ensures OccursAt(s, p, 0) <==> StartsWith(s, p)
  {
    assert |p| <= |s| ==> s[0..|p|] == s[..|p|];
  }

  /** The scanner finds `p` exactly when `p` occurs somewhere in `s`. */
  lemma {:induction false} ContainsIff(s: string, p: string)
    ensures Contains(s, p) <==> exists i :: OccursAt(s, p, i)
    decreases |s|
  {
    OccursAtStart(s, p);
    if StartsWith(s, p) {
      assert OccursAt(s, p, 0);
    } else if s != [] {
      ContainsIff(s[1..], p);
      forall i | OccursAt(s, p, i) && i > 0
        ensures OccursAt(s[1..], p, i - 1)
      {
        assert s[1..][i - 1..i - 1 + |p|] == s[i..i + |p|];
      }
      forall j | OccursAt(s[1..], p, j)
        ensures OccursAt(s, p, j + 1)
      {
        assert s[1..][j..j + |p|] == s[j + 1..j + 1 + |p|];
      }
    }
  }

  // ---------------------------------------------------------------------------
  // Lower-casing: `str.lower()`
  // ---------------------------------------------------------------------------

  function ToLower(c: char): char {
    if 'A' <= c <= 'Z' then (c as int + 32) as char else c
  }

  /** `s.lower()`: character by character, same length. */
  function Lower(s: string): (r: string)
    ensures |r| == |s|
  {
    seq(|s|, i requires 0 <= i < |s| => ToLower(s[i]))
  }

  // ---------------------------------------------------------------------------
  // Joining and splitting on a one-character delimiter: `s.split(d)`
  // ---------------------------------------------------------------------------

  /** `sep.join(fs)`. */
  function Join(fs: seq<string>, sep: string): string
    decreases |fs|
  {
    if |fs| == 0 then ""
    else if |fs| == 1 then fs[0]
    else fs[0] + sep + Join(fs[1..], sep)
  }

  /** `s.split(d)`: every occurrence of `d` ends a fragment, so the result is
      never empty and empty fragments are kept. */
  function Split(s: string, d: char): (r: seq<string>)
    ensures |r| >= 1
    decreases |s|
  {
    if s == [] then [""]
    else
      var rest := Split(s[1..], d);
      if s[0] == d then [""] + rest
      else [[s[0]] + rest[0]] + rest[1..]
  }

  /** No fragment contains the delimiter. */
  lemma {:induction false} SplitFragmentsLackDelimiter(s: string, d: char)
    ensures forall k :: 0 <= k < |Split(s, d)| ==> d !in Split(s, d)[k]
    decreases |s|
  {
    if s != [] {
      SplitFragmentsLackDelimiter(s[1..], d);
      var rest := Split(s[1..], d);
      if s[0] != d {
        assert forall c :: c in [s[0]] + rest[0] ==> c == s[0] || c in rest[0];
      }
    }
  }

  /** Every character of every fragment is a character of `s`. */
  lemma {:induction false} SplitFragmentsFromInput(s: string, d: char)
    ensures forall k, c :: 0 <= k < |Split(s, d)| && c in Split(s, d)[k] ==> c in s
    decreases |s|
  {
    if s != [] {
      SplitFragmentsFromInput(s[1..], d);
      var rest := Split(s[1..], d);
      assert forall c :: c in s[1..] ==> c in s;
      if s[0] != d {
        assert forall c :: c in [s[0]] + rest[0] ==> c == s[0] || c in rest[0];
      }
    }
  }

  /** There is one more fragment than there are delimiters. */
  lemma {:induction false} SplitCount(s: string, d: char)
    ensures |Split(s, d)| == multiset(s)[d] + 1
    decreases |s|
  {
    if s != [] {
      SplitCount(s[1..], d);
      assert s == [s[0]] + s[1..];
      assert multiset(s) == multiset([s[0]]) + multiset(s[1..]);
    }
  }

  lemma JoinCons(x: string, fs: seq<string>, sep: string)
    requires |fs| >= 1
    ensures Join([x] + fs, sep) == x + sep + Join(fs, sep)
  {
    assert ([x] + fs)[1..] == fs;
  }

  /** Joining the fragments with the delimiter gives back the text. */
  lemma {:induction false} SplitJoin(s: string, d: char)
    ensures Join(Split(s, d), [d]) == s
    decreases |s|
  {
    if s != [] {
      SplitJoin(s[1..], d);
      var rest := Split(s[1..], d);
      if s[0] == d {
        JoinCons("", rest, [d]);
      } else if |rest| == 1 {
        assert Split(s, d) == [[s[0]] + rest[0]];
      } else {
        assert rest == [rest[0]] + rest[1..];
        var j := Join(rest[1..], [d]);
        JoinCons(rest[0], rest[1..], [d]);
        JoinCons([s[0]] + rest[0], rest[1..], [d]);
        Regroup4([s[0]], rest[0], [d], j);
        TakeDrop(s, 1);
      }
    }
  }


  /** Splitting a text that begins with a delimiter-free prefix `x` glues
      `x` onto the first fragment of the rest. */
  lemma {:induction false} SplitPrefix(x: string, t: string, d: char)
    requires d !in x
    ensures Split(x + t, d) == [x + Split(t, d)[0]] + Split(t, d)[1..]
    decreases |x|
  {
    if x == [] {
      assert x + t == t;
      assert Split(t, d) == [Split(t, d)[0]] + Split(t, d)[1..];
      assert x + Split(t, d)[0] == Split(t, d)[0];
    } else {
      assert (x + t)[1..] == x[1..] + t;
      SplitPrefix(x[1..], t, d);
      assert [x[0]] + (x[1..] + Split(t, d)[0]) == x + Split(t, d)[0];
    }
  }

  /** The other direction of the round trip: delimiter-free fragments are
      recovered by splitting their join. */
  lemma {:induction false} JoinSplit(fs: seq<string>, d: char)
    requires |fs| >= 1
    requires forall k :: 0 <= k < |fs| ==> d !in fs[k]
    ensures Split(Join(fs, [d]), d) == fs
    decreases |fs|
  {
    if |fs| == 1 {
      SplitPrefix(fs[0], "", d);
      assert fs[0] + "" == fs[0];
    } else {
      JoinSplit(fs[1..], d);
      var rest := Join(fs[1..], [d]);
      assert Join(fs, [d]) == fs[0] + ([d] + rest);
      SplitPrefix(fs[0], [d] + rest, d);
      assert ([d] + rest)[1..] == rest;
      assert Split([d] + rest, d) == [""] + Split(rest, d);
      assert fs[0] + "" == fs[0];
      assert fs == [fs[0]] + fs[1..];
    }
  }

  lemma SplitKeepsEmpty()
    ensures Split("A.B..C", '.') == ["A", "B", "", "C"]
  {
    assert ['C'] + "" == "C" && ['B'] + "" == "B" && ['A'] + "" == "A";
    assert Split("C", '.') == ["C"];
    assert Split(".C", '.') == ["", "C"];
    assert Split("..C", '.') == ["", "", "C"];
    assert Split("B..C", '.') == ["B", "", "C"];
    assert Split(".B..C", '.') == ["", "B", "", "C"];
  }

  // ---------------------------------------------------------------------------
  // Stripping: `s.strip()`
  // ---------------------------------------------------------------------------

  /** `s.lstrip()`: drops the leading whitespace, keeps a suffix. */
  function StripStart(s: string): (r: string)
    ensures |r| <= |s| && r == s[|s| - |r|..]
    ensures AllSpace(s[..|s| - |r|])
    ensures r == [] || !IsSpace(r[0])
    decreases |s|
  {
    if s != [] && IsSpace(s[0]) then
      var r := StripStart(s[1..]);
      TakeCons(s, |s| - |r|);
      r
    else s
  }

  /** `s.rstrip()`: drops the trailing whitespace, keeps a prefix. */
  function StripEnd(s: string): (r: string)
    ensures |r| <= |s| && r == s[..|r|]
    ensures AllSpace(s[|r|..])
    ensures r == [] || !IsSpace(r[|r| - 1])
    decreases |s|
  {
    if s != [] && IsSpace(s[|s| - 1]) then
      var p := s[..|s| - 1];
      var r := StripEnd(p);
      DropSnoc(s, |r|);
      r
    else s
  }

  /** `s.strip()`. */
  function Strip(s: string): (r: string)
    ensures |r| <= |s|
  {
    StripEnd(StripStart(s))
  }

  /** `r` is `s[i..j]` with only whitespace cut away on either side. */
  ghost predicate TrimmedSlice(s: string, r: string, i: int, j: int) {
    0 <= i <= j <= |s| && r == s[i..j] && AllSpace(s[..i]) && AllSpace(s[j..])
  }

  /** `Strip(s)` is the slice left when the whitespace runs at both ends of
      `s` are cut off, and what is kept neither starts nor ends with
      whitespace. */
  lemma StripIsTrim(s: string)
    ensures exists i, j :: TrimmedSlice(s, Strip(s), i, j)
    ensures Strip(s) == [] || (!IsSpace(Strip(s)[0]) && !IsSpace(Strip(s)[|Strip(s)| - 1]))
  {
    var t := StripStart(s);
    var r := StripEnd(t);
    var i := |s| - |t|;
    SliceOfSuffix(s, i, |r|);
    assert TrimmedSlice(s, Strip(s), i, i + |r|);
    assert r != [] ==> r[0] == t[0];
  }

  /** Slicing a suffix is slicing the text. */
  lemma SliceOfSuffix(s: string, i: int, k: int)
    requires 0 <= i <= |s| && 0 <= k <= |s| - i
    ensures s[i..][..k] == s[i..i + k] && s[i..][k..] == s[i + k..]
  {
  }

  /** Stripping yields "" exactly when the text is all whitespace. */
  lemma StripEmptyIff(s: string)
    ensures Strip(s) == [] <==> AllSpace(s)
  {
    var t := StripStart(s);
    assert t[0..] == t;
    assert s[..|s|] == s;
    assert t != [] ==> t[0] == s[|s| - |t|];
  }

  /** A text that neither starts nor ends with whitespace is its own strip. */
  lemma StripTrimmed(s: string)
    requires s == [] || (!IsSpace(s[0]) && !IsSpace(s[|s| - 1]))
    ensures Strip(s) == s
  {
  }

  /** Stripping twice is stripping once. */
  lemma StripIdempotent(s: string)
    ensures Strip(Strip(s)) == Strip(s)
  {
    StripIsTrim(s);
    StripTrimmed(Strip(s));
  }
}
