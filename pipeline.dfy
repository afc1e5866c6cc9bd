/** The script at the bottom of the program: sentences of the downloaded
    text, filtered, modernized and merged into one text. The download itself
    is left out; the text is a parameter. */
module Pipeline {
  import opened Strings
  import opened Sentences
  import opened Olympian
  import opened Modernizer
  import opened Merger

  /** `merge_sentences(modernize_sentences(get_olympian_sentences(get_sentences(iliad))))`. */
  function OlympianIliad(iliad: string): Result<string> {
    MergeSentences(ModernizeSentences(GetOlympianSentences(GetSentences(iliad))))
  }

  /** A fragment that passes the filter holds an 'o' or 'O', which neither
      the replacement nor the strip removes, so it never becomes empty. */
  lemma OlympianStaysNonEmpty(s: string)
    requires IsOlympian(s)
    ensures ModernizeSentence(s) != []
  {
    IsOlympianIff(s);
    var i :| OccursAt(Lower(s), Keyword, i);
    assert Lower(s)[i] == Lower(s)[i..i + |Keyword|][0] == 'o';
    assert s[i] == 'o' || s[i] == 'O';
    var t := ReplaceContraction(s);
    ReplaceContractionAt(s);
    assert t[i] == s[i];
    StripEmptyIff(t);
    assert !IsSpace(t[i]);
  }

  /** The script either prints a text or fails with the empty-input error
      of `reduce`, and it fails exactly when no sentence mentions "olymp":
      the `a[-1]` IndexError cannot happen here. */
  lemma PipelineOutcome(iliad: string)
    ensures OlympianIliad(iliad).Err? ==> OlympianIliad(iliad).error == EmptyInput
    ensures OlympianIliad(iliad).Ok? <==>
      exists k :: 0 <= k < |GetSentences(iliad)| && IsOlympian(GetSentences(iliad)[k])
  {
    var ss := GetSentences(iliad);
    var f := GetOlympianSentences(ss);
    var m := ModernizeSentences(f);
    FilterEmptyIff(ss);
    MergeOutcomes(m);
    if f != [] {
      OlympianStaysNonEmpty(f[0]);
    }
  }
}
