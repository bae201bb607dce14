/**
 * The command-line boolean parser `str2bool` of main.py: a case-insensitive
 * match against two fixed word lists, failing on anything else.
 */
module BoolFlag {
  import opened Ascii

  datatype Result<T> = Ok(value: T) | Err(message: string)

  /** The spellings read as true, in lower case. */
  const TrueWords: set<string> := {"yes", "true", "t", "y", "1"}

  /** The spellings read as false, in lower case. */
  const FalseWords: set<string> := {"no", "false", "f", "n", "0"}

  /** The message of the error raised for any other string. */
  const NotABoolean: string := "Boolean value expected."

  /** `v` spells one of `words` once case is ignored. */
  predicate SpellsOneOf(v: string, words: set<string>) {
    exists w :: w in words && EqualIgnoringCase(v, w)
  }

  /** Comparing lower-cased forms is the same as ignoring case letter by letter. */
  lemma LowerIsEqualIgnoringCase(v: string, w: string)
    requires forall i :: 0 <= i < |w| ==> !IsUpper(w[i])
    ensures Lower(v) == w <==> EqualIgnoringCase(v, w)
  {
  }

  lemma SpellsOneOfLower(v: string, words: set<string>)
    requires forall w, i :: w in words && 0 <= i < |w| ==> !IsUpper(w[i])
    ensures SpellsOneOf(v, words) <==> Lower(v) in words
  {
    if Lower(v) in words {
      LowerIsEqualIgnoringCase(v, Lower(v));
    }
    if SpellsOneOf(v, words) {
      var w :| w in words && EqualIgnoringCase(v, w);
      LowerIsEqualIgnoringCase(v, w);
    }
  }

  lemma WordListsAreLowerCase()
    ensures forall w, i :: w in TrueWords && 0 <= i < |w| ==> !IsUpper(w[i])
    ensures forall w, i :: w in FalseWords && 0 <= i < |w| ==> !IsUpper(w[i])
  {
  }

  /**
   * `str2bool(v)`: the true list is tried first, then the false list. It
   * returns true exactly for the true spellings in any case, false exactly
   * for the false spellings in any case, and fails on every other string.
   */
  function Str2Bool(v: string): (r: Result<bool>)
    ensures r == Ok(true) <==> SpellsOneOf(v, TrueWords)
    ensures r == Ok(false) <==> SpellsOneOf(v, FalseWords)
    ensures r.Err? <==> !SpellsOneOf(v, TrueWords) && !SpellsOneOf(v, FalseWords)
    ensures r.Err? ==> r.message == NotABoolean
  {
    WordListsAreLowerCase();
    SpellsOneOfLower(v, TrueWords);
    SpellsOneOfLower(v, FalseWords);
    if Lower(v) in TrueWords then Ok(true)
    else if Lower(v) in FalseWords then Ok(false)
    else Err(NotABoolean)
  }

  /**
   * No string spells both a true and a false word, so the order in which
   * the two lists are tried does not matter.
   */
  lemma NoStringIsBoth(v: string)
    ensures !(SpellsOneOf(v, TrueWords) && SpellsOneOf(v, FalseWords))
  {
    WordListsAreLowerCase();
    SpellsOneOfLower(v, TrueWords);
    SpellsOneOfLower(v, FalseWords);
    assert TrueWords !! FalseWords;
  }

  lemma Str2BoolExamples()
    ensures Str2Bool("YES") == Ok(true)
    ensures Str2Bool("False") == Ok(false)
    ensures Str2Bool("0") == Ok(false)
    ensures Str2Bool("maybe") == Err(NotABoolean)
    ensures Str2Bool("") == Err(NotABoolean)
  {
    Str2BoolTrueExample();
    Str2BoolFalseExamples();
    Str2BoolErrorExamples();
  }

  lemma Str2BoolTrueExample()
    ensures Str2Bool("YES") == Ok(true)
  {
    Str2BoolOn("YES", "yes");
  }

  lemma Str2BoolFalseExamples()
    ensures Str2Bool("False") == Ok(false)
    ensures Str2Bool("0") == Ok(false)
  {
    Str2BoolOn("False", "false");
    Str2BoolOn("0", "0");
  }

  lemma Str2BoolErrorExamples()
    ensures Str2Bool("maybe") == Err(NotABoolean)
    ensures Str2Bool("") == Err(NotABoolean)
  {
    Str2BoolOn("maybe", "maybe");
    Str2BoolOn("", "");
  }

  lemma Str2BoolOn(v: string, lowered: string)
    requires Lower(v) == lowered
    ensures Str2Bool(v) == if lowered in TrueWords then Ok(true)
      else if lowered in FalseWords then Ok(false) else Err(NotABoolean)
  {
  }
}
