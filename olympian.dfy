/** `get_olympian_sentences`: keep the fragments whose lower-cased copy
    contains "olymp", unchanged and in their original order. */
module Olympian {
  import opened Strings

  const Keyword: string := "olymp"

  /** The filter's test: `'olymp' in s.lower()`. The lower-cased copy is
      only looked at, never returned. */
  predicate IsOlympian(s: string) {
    Contains(Lower(s), Keyword)
  }

  /** `xs` is `ys` with some elements left out, the rest in order. */
  ghost predicate IsSubsequence(xs: seq<string>, ys: seq<string>)
    decreases |ys|
  {
    if xs == [] then true
    else if ys == [] then false
    else (xs[0] == ys[0] && IsSubsequence(xs[1..], ys[1..])) || IsSubsequence(xs, ys[1..])
  }

  /** `list(filter(lambda s: 'olymp' in s.lower(), sentences))`. */
  function GetOlympianSentences(fs: seq<string>): (r: seq<string>)
    ensures |r| <= |fs|
    ensures forall k :: 0 <= k < |r| ==> IsOlympian(r[k])
    decreases |fs|
  {
    if fs == [] then []
    else (if IsOlympian(fs[0]) then [fs[0]] else []) + GetOlympianSentences(fs[1..])
  }

  /** The test means: "olymp" occurs somewhere in the lower-cased text. */
  lemma IsOlympianIff(s: string)
    ensures IsOlympian(s) <==> exists i :: OccursAt(Lower(s), Keyword, i)
  {
    ContainsIff(Lower(s), Keyword);
  }

  /** The kept fragments are a subsequence of the input: same text, same order. */
  lemma {:induction false} FilterIsSubsequence(fs: seq<string>)
    ensures IsSubsequence(GetOlympianSentences(fs), fs)
    decreases |fs|
  {
    if fs != [] {
      FilterIsSubsequence(fs[1..]);
      var rest := GetOlympianSentences(fs[1..]);
      if IsOlympian(fs[0]) {
        assert ([fs[0]] + rest)[1..] == rest;
      } else {
        assert GetOlympianSentences(fs) == rest;
      }
    }
  }

  /** The filter is exact: each matching fragment is kept as often as it
      occurs, each other fragment is dropped. */
  lemma {:induction false} FilterCounts(fs: seq<string>)
    ensures forall x ::
      multiset(GetOlympianSentences(fs))[x] == if IsOlympian(x) then multiset(fs)[x] else 0
    decreases |fs|
  {
    if fs != [] {
      FilterCounts(fs[1..]);
      assert fs == [fs[0]] + fs[1..];
      assert multiset(fs) == multiset([fs[0]]) + multiset(fs[1..]);
    }
  }

  /** Consequences of exactness: an element is kept if and only if it
      passes the test. */
  lemma FilterKeepsExactly(fs: seq<string>, x: string)
    ensures x in GetOlympianSentences(fs) <==> x in fs && IsOlympian(x)
  {
    FilterCounts(fs);
    assert x in GetOlympianSentences(fs) <==> multiset(GetOlympianSentences(fs))[x] > 0;
    assert x in fs <==> multiset(fs)[x] > 0;
  }

  /** Filtering works element by element: it distributes over concatenation. */
  lemma {:induction false} FilterAppend(a: seq<string>, b: seq<string>)
    ensures GetOlympianSentences(a + b) == GetOlympianSentences(a) + GetOlympianSentences(b)
    decreases |a|
  {
    if a == [] {
      assert a + b == b;
    } else {
      assert (a + b)[1..] == a[1..] + b;
      FilterAppend(a[1..], b);
    }
  }

  /** The filter returns its input unchanged exactly when every fragment passes. */
  lemma {:induction false} FilterAllIff(fs: seq<string>)
    ensures GetOlympianSentences(fs) == fs <==> forall k :: 0 <= k < |fs| ==> IsOlympian(fs[k])
    decreases |fs|
  {
    if fs != [] {
      FilterAllIff(fs[1..]);
      if !IsOlympian(fs[0]) {
        assert |GetOlympianSentences(fs)| < |fs|;
      } else {
        assert GetOlympianSentences(fs) == [fs[0]] + GetOlympianSentences(fs[1..]);
        assert fs == [fs[0]] + fs[1..];
      }
    }
  }

  /** Filtering twice is filtering once. */
  lemma FilterIdempotent(fs: seq<string>)
    ensures GetOlympianSentences(GetOlympianSentences(fs)) == GetOlympianSentences(fs)
  {
    FilterAllIff(GetOlympianSentences(fs));
  }

  /** Nothing is kept exactly when no fragment passes the test. */
  lemma {:induction false} FilterEmptyIff(fs: seq<string>)
    ensures GetOlympianSentences(fs) == [] <==> forall k :: 0 <= k < |fs| ==> !IsOlympian(fs[k])
    decreases |fs|
  {
    if fs != [] {
      FilterEmptyIff(fs[1..]);
      assert forall k :: 1 <= k < |fs| ==> fs[k] == fs[1..][k - 1];
    }
  }

  lemma ZeusIsOlympian()
    ensures IsOlympian("Zeus reigns on Olympus")
  {
    assert OccursAt(Lower("Zeus reigns on Olympus"), Keyword, 15);
    IsOlympianIff("Zeus reigns on Olympus");
  }

  lemma PlainIsNotOlympian()
    ensures !IsOlympian("a plain one")
  {
    var p := "a plain one";
    IsOlympianIff(p);
    forall i | 0 <= i && i + |Keyword| <= |p|
      ensures !OccursAt(Lower(p), Keyword, i)
    {
      assert Lower(p)[i..i + |Keyword|][0] == Lower(p)[i];
      assert Lower(p)[i..i + |Keyword|][1] == Lower(p)[i + 1];
    }
  }

  /** The test ignores case but the kept text keeps its own. */
  lemma FilterExample()
    ensures GetOlympianSentences(["Zeus reigns on Olympus", "a plain one"]) == ["Zeus reigns on Olympus"]
  {
    ZeusIsOlympian();
    PlainIsNotOlympian();
    assert ["Zeus reigns on Olympus", "a plain one"][1..] == ["a plain one"];
  }
}
