/** `merge_sentences`: `reduce` with no initial value over the fragments,
    gluing each fragment onto the text so far with "" when that text ends in
    '.', and with ". " otherwise. */
module Merger {
  import opened Strings

  /** The two exceptions the reduction can raise. */
  datatype MergeError =
    | EmptyInput  // `reduce` of an empty list with no initial value (TypeError)
    | IndexError  // `a[-1]` on an empty accumulator

  datatype Result<T> = Ok(value: T) | Err(error: MergeError)

  predicate EndsWith(s: string, p: string) {
    |p| <= |s| && s[|s| - |p|..] == p
  }

  /** What the step puts between the text so far and the next fragment. */
  function Glue(a: string): string
    requires a != []
  {
    if a[|a| - 1] == '.' then "" else ". "
  }

  /** The lambda `a + b if a[-1] == '.' else a + '. ' + b`. */
  function Step(a: string, b: string): (r: Result<string>)
    ensures r.Err? <==> a == []
    ensures r.Err? ==> r.error == IndexError
  {
    if a == [] then Err(IndexError)
    else Ok(a + Glue(a) + b)
  }

  /** The reduction from accumulator `acc` over the fragments still to come. */
  function Fold(acc: string, rest: seq<string>): (r: Result<string>)
    ensures r.Err? <==> acc == [] && rest != []
    ensures r.Err? ==> r.error == IndexError
    decreases |rest|
  {
    if rest == [] then Ok(acc)
    else
      match Step(acc, rest[0])
      case Err(e) => Err(e)
      case Ok(a) => Fold(a, rest[1..])
  }

  /** `reduce(lambda a, b: ..., sentences)`: the first fragment is the
      starting accumulator. */
  function MergeSentences(fs: seq<string>): (r: Result<string>)
    ensures r.Err? <==> fs == [] || (fs[0] == [] && |fs| >= 2)
    ensures r.Err? ==> (r.error == EmptyInput <==> fs == [])
  {
    if fs == [] then Err(EmptyInput) else Fold(fs[0], fs[1..])
  }

  /** The error cases: an empty list, or a first fragment that is empty with
      another to follow. A single fragment is returned as it is. */
  lemma MergeOutcomes(fs: seq<string>)
    ensures fs == [] ==> MergeSentences(fs) == Err(EmptyInput)
    ensures |fs| == 1 ==> MergeSentences(fs) == Ok(fs[0])
    ensures |fs| >= 2 && fs[0] == [] ==> MergeSentences(fs) == Err(IndexError)
    ensures MergeSentences(fs).Ok? <==> |fs| == 1 || (|fs| >= 2 && fs[0] != [])
  {
  }

  function Then(r: Result<string>, b: string): Result<string> {
    match r
    case Err(e) => Err(e)
    case Ok(a) => Step(a, b)
  }

  lemma {:induction false} FoldSnoc(acc: string, rest: seq<string>, b: string)
    ensures Fold(acc, rest + [b]) == Then(Fold(acc, rest), b)
    decreases |rest|
  {
    if rest == [] {
      assert [] + [b] == [b];
      assert [b][1..] == [];
    } else {
      assert (rest + [b])[0] == rest[0];
      assert (rest + [b])[1..] == rest[1..] + [b];
      match Step(acc, rest[0])
      case Err(e) =>
      case Ok(a) => FoldSnoc(a, rest[1..], b);
    }
  }

  /** `reduce` is a left fold: merging one more fragment is one more step on
      the merge of the ones before it. */
  lemma MergeSnoc(fs: seq<string>, b: string)
    requires fs != []
    ensures MergeSentences(fs + [b]) == Then(MergeSentences(fs), b)
  {
    assert (fs + [b])[0] == fs[0];
    assert (fs + [b])[1..] == fs[1..] + [b];
    FoldSnoc(fs[0], fs[1..], b);
  }

  /** Sum of the fragments' lengths. */
  function TotalLength(fs: seq<string>): nat
    decreases |fs|
  {
    if fs == [] then 0 else |fs[0]| + TotalLength(fs[1..])
  }

  /** The merged text starts with the accumulator and ends with the last
      fragment, so no '.' is ever added after the last one; between
      consecutive pieces at most two characters are inserted. */
  lemma {:induction false} FoldShape(acc: string, rest: seq<string>)
    requires Fold(acc, rest).Ok?
    ensures StartsWith(Fold(acc, rest).value, acc)
    ensures rest != [] ==> EndsWith(Fold(acc, rest).value, rest[|rest| - 1])
    ensures |acc| + TotalLength(rest) <= |Fold(acc, rest).value| <= |acc| + TotalLength(rest) + 2 * |rest|
    decreases |rest|
  {
    if rest != [] {
      var a := acc + Glue(acc) + rest[0];
      FoldShape(a, rest[1..]);
      var r := Fold(a, rest[1..]).value;
      assert r[..|acc|] == r[..|a|][..|acc|];
      if |rest| == 1 {
        assert r == a;
      } else {
        assert rest[1..][|rest[1..]| - 1] == rest[|rest| - 1];
      }
    }
  }

  /** The merge starts with the first fragment and ends with the last, and
      is at most two characters per junction longer than the fragments. */
  lemma MergeShape(fs: seq<string>)
    requires MergeSentences(fs).Ok?
    ensures StartsWith(MergeSentences(fs).value, fs[0])
    ensures EndsWith(MergeSentences(fs).value, fs[|fs| - 1])
    ensures TotalLength(fs) <= |MergeSentences(fs).value| <= TotalLength(fs) + 2 * (|fs| - 1)
  {
    FoldShape(fs[0], fs[1..]);
    if |fs| > 1 {
      assert fs[1..][|fs[1..]| - 1] == fs[|fs| - 1];
    } else {
      assert MergeSentences(fs).value == fs[0];
    }
  }

  /** Text that neither is empty nor ends in '.' stays so when ". " and a
      fragment without '.' are added. */
  lemma {:induction false} FoldWithoutDots(acc: string, rest: seq<string>)
    requires acc != [] && acc[|acc| - 1] != '.'
    requires forall k :: 0 <= k < |rest| ==> '.' !in rest[k]
    ensures Fold(acc, rest) == Ok(Join([acc] + rest, ". "))
    decreases |rest|
  {
    if rest == [] {
      assert [acc] + rest == [acc];
    } else {
      var a := acc + ". " + rest[0];
      assert a[|a| - 1] != '.' by {
        if rest[0] == [] {
          assert a[|a| - 1] == ' ';
        } else {
          assert a[|a| - 1] == rest[0][|rest[0]| - 1];
        }
      }
      FoldWithoutDots(a, rest[1..]);
      if |rest| == 1 {
        assert [a] + rest[1..] == [a];
        JoinCons(acc, rest, ". ");
      } else {
        JoinCons(rest[0], rest[1..], ". ");
        assert [rest[0]] + rest[1..] == rest;
        JoinCons(acc, rest, ". ");
        JoinCons(a, rest[1..], ". ");
        var j := Join(rest[1..], ". ");
        assert a + ". " + j == acc + ". " + (rest[0] + ". " + j);
      }
    }
  }

  /** When no fragment contains '.' and the first is not empty, the merge is
      the fragments joined by ". ". */
  lemma MergeWithoutDots(fs: seq<string>)
    requires fs != [] && fs[0] != []
    requires forall k :: 0 <= k < |fs| ==> '.' !in fs[k]
    ensures MergeSentences(fs) == Ok(Join(fs, ". "))
  {
    assert fs[0][|fs[0]| - 1] in fs[0];
    FoldWithoutDots(fs[0], fs[1..]);
    assert [fs[0]] + fs[1..] == fs;
  }

  /** When every fragment but the last is non-empty and ends in '.', the
      merge is the plain concatenation. */
  lemma {:induction false} FoldAfterDots(acc: string, rest: seq<string>)
    requires acc != [] && acc[|acc| - 1] == '.'
    requires forall k :: 0 <= k < |rest| - 1 ==> rest[k] != [] && rest[k][|rest[k]| - 1] == '.'
    ensures Fold(acc, rest) == Ok(Join([acc] + rest, ""))
    decreases |rest|
  {
    if rest == [] {
      assert [acc] + rest == [acc];
    } else {
      var a := acc + rest[0];
      assert acc + "" + rest[0] == a;
      if |rest| == 1 {
        assert Fold(acc, rest) == Ok(a);
        JoinCons(acc, rest, "");
        assert rest == [rest[0]];
      } else {
        assert rest[0] != [];
        assert a[|a| - 1] == rest[0][|rest[0]| - 1];
        FoldAfterDots(a, rest[1..]);
        JoinCons(rest[0], rest[1..], "");
        assert [rest[0]] + rest[1..] == rest;
        JoinCons(acc, rest, "");
        JoinCons(a, rest[1..], "");
        var j := Join(rest[1..], "");
        assert a + "" + j == acc + "" + (rest[0] + "" + j);
      }
    }
  }

  lemma MergeAfterDots(fs: seq<string>)
    requires fs != []
    requires forall k :: 0 <= k < |fs| - 1 ==> fs[k] != [] && fs[k][|fs[k]| - 1] == '.'
    ensures MergeSentences(fs) == Ok(Join(fs, ""))
  {
    if |fs| == 1 {
      assert MergeSentences(fs) == Ok(fs[0]);
    } else {
      FoldAfterDots(fs[0], fs[1..]);
      assert [fs[0]] + fs[1..] == fs;
    }
  }

  /** The two junctions, and the error cases, on small inputs. */
  lemma MergeExamples()
    ensures MergeSentences(["A", "B"]) == Ok("A. B")
    ensures MergeSentences(["A.", "B"]) == Ok("A.B")
    ensures MergeSentences([]) == Err(EmptyInput)
    ensures MergeSentences(["", "B"]) == Err(IndexError)
    ensures MergeSentences([""]) == Ok("")
  {
    assert ["A", "B"][1..] == ["B"];
    assert Glue("A") == ". " && "A" + ". " + "B" == "A. B";
    assert ["A.", "B"][1..] == ["B"];
    assert Glue("A.") == "" && "A." + "" + "B" == "A.B";
  }

  lemma SplitJunction()
    ensures Split("A. B", '.') == ["A", " B"]
  {
    assert ['B'] + "" == "B" && [' '] + "B" == " B" && ['A'] + "" == "A";
    assert Split("B", '.') == ["B"];
    assert Split(" B", '.') == [" B"];
    assert Split(". B", '.') == ["", " B"];
  }

  /** Merging is not undone by splitting on '.': each junction adds ". ", so
      every fragment after the first comes back with a leading space. */
  lemma MergeSplitMismatch()
    ensures MergeSentences(["A", "B"]) == Ok("A. B")
    ensures Split(MergeSentences(["A", "B"]).value, '.') == ["A", " B"]
    ensures Split(MergeSentences(["A", "B"]).value, '.') != ["A", "B"]
  {
    MergeExamples();
    SplitJunction();
    assert ["A", " B"][1] != "B";
  }
}
