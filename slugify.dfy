/**
 * The slug generator of main.py: turns an issue summary into the part of a
 * directory name that follows the issue key. It runs four steps in order:
 *   1. delete every character that is not `\w`, `\s` or `-`;
 *   2. strip surrounding whitespace;
 *   3. lower-case;
 *   4. replace every maximal run of `-` and whitespace by a single `-`.
 */
module Slug {
  import opened Ascii

  /** The characters that step 1 keeps: `[\w\s-]`. */
  predicate IsKept(c: char) { IsWordChar(c) || IsSpace(c) || c == '-' }

  /** The characters that step 4 collapses: `[-\s]`. */
  predicate IsSeparator(c: char) { c == '-' || IsSpace(c) }

  /** The characters a slug may hold: lower-case letters, digits, `_` and `-`. */
  predicate IsSlugChar(c: char) { IsLowerLetter(c) || IsDigit(c) || c == '_' || c == '-' }

  /** No hyphen directly follows another. */
  predicate NoDoubleHyphen(s: string) {
    forall i, j :: 0 <= i < |s| && 0 <= j < |s| && j == i + 1 ==> !(s[i] == '-' && s[j] == '-')
  }

  /** What every result of `Slugify` looks like. */
  predicate IsSlug(s: string) {
    (forall i :: 0 <= i < |s| ==> IsSlugChar(s[i])) && NoDoubleHyphen(s)
  }

  /** The word characters of `s`, in order. */
  function Words(s: string): string {
    if s == [] then [] else (if IsWordChar(s[0]) then [s[0]] else []) + Words(s[1..])
  }

  // ---------------------------------------------------------------------------
  // The four steps

  /** Step 1: `re.sub('[^\w\s-]', '', value)`. */
  function RemoveDisallowed(s: string): (r: string)
    ensures forall i :: 0 <= i < |r| ==> IsKept(r[i])
    ensures (forall i :: 0 <= i < |s| ==> IsKept(s[i])) ==> r == s
  {
    if s == [] then [] else (if IsKept(s[0]) then [s[0]] else []) + RemoveDisallowed(s[1..])
  }

  function StripLeading(s: string): (r: string)
    ensures r == [] || !IsSpace(r[0])
  {
    if s != [] && IsSpace(s[0]) then StripLeading(s[1..]) else s
  }

  lemma {:induction false} StripLeadingIsSuffix(s: string)
    ensures |StripLeading(s)| <= |s| && StripLeading(s) == s[|s| - |StripLeading(s)|..]
  {
    if s != [] && IsSpace(s[0]) {
      StripLeadingIsSuffix(s[1..]);
    }
  }

  function StripTrailing(s: string): (r: string)
    ensures r == [] || !IsSpace(r[|r| - 1])
  {
    if s != [] && IsSpace(s[|s| - 1]) then StripTrailing(s[..|s| - 1]) else s
  }

  lemma {:induction false} StripTrailingIsPrefix(s: string)
    ensures |StripTrailing(s)| <= |s| && StripTrailing(s) == s[..|StripTrailing(s)|]
  {
    if s != [] && IsSpace(s[|s| - 1]) {
      StripTrailingIsPrefix(s[..|s| - 1]);
    }
  }

  /** Step 2: `str.strip()`: a piece of `s` with whitespace at neither end. */
  function Strip(s: string): (r: string)
    ensures |r| <= |s|
    ensures r == [] || (!IsSpace(r[0]) && !IsSpace(r[|r| - 1]))
  {
    StripLeadingIsSuffix(s);
    StripTrailingIsPrefix(StripLeading(s));
    StripTrailing(StripLeading(s))
  }

  /** The longest suffix of `s` that does not start with a separator. */
  function DropSeparators(s: string): (r: string)
    ensures |r| <= |s|
    ensures r == [] || !IsSeparator(r[0])
  {
    if s != [] && IsSeparator(s[0]) then DropSeparators(s[1..]) else s
  }

  lemma {:induction false} DropSeparatorsIsSuffix(s: string)
    ensures DropSeparators(s) == s[|s| - |DropSeparators(s)|..]
  {
    if s != [] && IsSeparator(s[0]) {
      DropSeparatorsIsSuffix(s[1..]);
    }
  }

  /** Step 4: `re.sub('[-\s]+', '-', value)`. */
  function CollapseSeparators(s: string): (r: string)
    ensures s != [] ==> r != [] && r[0] == (if IsSeparator(s[0]) then '-' else s[0])
    ensures (forall i :: 0 <= i < |s| ==> IsSeparator(s[i]) || IsSlugChar(s[i])) ==>
              forall i :: 0 <= i < |r| ==> IsSlugChar(r[i])
    ensures NoDoubleHyphen(r)
    decreases |s|
  {
    if s == [] then []
    else if IsSeparator(s[0]) then
      DropSeparatorsIsSuffix(s[1..]);
      ['-'] + CollapseSeparators(DropSeparators(s[1..]))
    else
      [s[0]] + CollapseSeparators(s[1..])
  }

  /** `slugify(value)` of main.py. */
  function Slugify(s: string): (r: string)
    ensures IsSlug(r)
  {
    var kept := RemoveDisallowed(s);
    var stripped := Strip(kept);
    assert forall i :: 0 <= i < |stripped| ==> IsKept(stripped[i]) by {
      var lead := StripLeading(kept);
      StripLeadingIsSuffix(kept);
      StripTrailingIsPrefix(lead);
      assert forall i :: 0 <= i < |lead| ==> lead[i] == kept[|kept| - |lead| + i];
      assert forall i :: 0 <= i < |stripped| ==> stripped[i] == lead[i];
    }
    CollapseSeparators(Lower(stripped))
  }

  /** No whitespace, punctuation or upper-case letter survives. */
  lemma SlugifyCharacters(s: string)
    ensures forall i :: 0 <= i < |Slugify(s)| ==>
      var c := Slugify(s)[i];
      !IsSpace(c) && !IsUpper(c) && (IsWordChar(c) || c == '-')
  {
  }

  // ---------------------------------------------------------------------------
  // Every word character of the summary survives, lower-cased and in order

  lemma {:induction false} WordsAppend(a: string, b: string)
    ensures Words(a + b) == Words(a) + Words(b)
  {
    if a == [] {
      assert a + b == b;
    } else {
      assert (a + b)[0] == a[0] && (a + b)[1..] == a[1..] + b;
      WordsAppend(a[1..], b);
      assert Words(a + b) == (if IsWordChar(a[0]) then [a[0]] else []) + Words(a[1..] + b);
    }
  }

  lemma {:induction false} WordsOfRemoveDisallowed(s: string)
    ensures Words(RemoveDisallowed(s)) == Words(s)
  {
    if s != [] {
      WordsOfRemoveDisallowed(s[1..]);
      WordsAppend(if IsKept(s[0]) then [s[0]] else [], RemoveDisallowed(s[1..]));
    }
  }

  lemma {:induction false} WordsOfStripLeading(s: string)
    ensures Words(StripLeading(s)) == Words(s)
  {
    if s != [] && IsSpace(s[0]) {
      WordsOfStripLeading(s[1..]);
      assert Words(s) == Words(s[1..]);
    }
  }

  lemma {:induction false} WordsOfStripTrailing(s: string)
    ensures Words(StripTrailing(s)) == Words(s)
  {
    if s != [] && IsSpace(s[|s| - 1]) {
      var init := s[..|s| - 1];
      WordsOfStripTrailing(init);
      assert s == init + [s[|s| - 1]];
      WordsAppend(init, [s[|s| - 1]]);
      assert Words([s[|s| - 1]]) == [];
    }
  }

  lemma {:induction false} WordsOfLower(s: string)
    ensures Words(Lower(s)) == Lower(Words(s))
  {
    if s != [] {
      assert Lower(s) == [ToLower(s[0])] + Lower(s[1..]);
      WordsOfLower(s[1..]);
      assert Words(Lower(s)) == (if IsWordChar(s[0]) then [ToLower(s[0])] else []) + Lower(Words(s[1..]));
      LowerAppend(if IsWordChar(s[0]) then [s[0]] else [], Words(s[1..]));
    }
  }

  lemma {:induction false} WordsOfDropSeparators(s: string)
    ensures Words(DropSeparators(s)) == Words(s)
  {
    if s != [] && IsSeparator(s[0]) {
      WordsOfDropSeparators(s[1..]);
    }
  }

  lemma {:induction false} WordsOfCollapse(s: string)
    ensures Words(CollapseSeparators(s)) == Words(s)
    decreases |s|
  {
    if s != [] {
      if IsSeparator(s[0]) {
        var rest := DropSeparators(s[1..]);
        WordsOfDropSeparators(s[1..]);
        WordsOfCollapse(rest);
        assert (['-'] + CollapseSeparators(rest))[1..] == CollapseSeparators(rest);
      } else {
        WordsOfCollapse(s[1..]);
        assert ([s[0]] + CollapseSeparators(s[1..]))[1..] == CollapseSeparators(s[1..]);
      }
    }
  }

  /** The word characters of the slug are those of the summary, lower-cased. */
  lemma SlugifyKeepsWords(s: string)
    ensures Words(Slugify(s)) == Lower(Words(s))
  {
    var kept := RemoveDisallowed(s);
    var lead := StripLeading(kept);
    var stripped := StripTrailing(lead);
    WordsOfRemoveDisallowed(s);
    WordsOfStripLeading(kept);
    WordsOfStripTrailing(lead);
    WordsOfLower(stripped);
    WordsOfCollapse(Lower(stripped));
  }

  // ---------------------------------------------------------------------------
  // Idempotence

  /** Collapsing changes nothing once every separator is a lone hyphen. */
  lemma {:induction false} CollapseOfSlug(s: string)
    requires IsSlug(s)
    ensures CollapseSeparators(s) == s
  {
    if s != [] {
      assert IsSlug(s[1..]);
      CollapseOfSlug(s[1..]);
      if IsSeparator(s[0]) {
        assert s[1..] == [] || !IsSeparator(s[1]);
        assert DropSeparators(s[1..]) == s[1..];
      }
    }
  }

  /** A slug is a fixed point of every step of `Slugify`, so of `Slugify`. */
  lemma SlugifyOfSlug(s: string)
    requires IsSlug(s)
    ensures RemoveDisallowed(s) == s
    ensures Strip(s) == s
    ensures Lower(s) == s
    ensures CollapseSeparators(s) == s
    ensures Slugify(s) == s
  {
    assert RemoveDisallowed(s) == s;
    assert StripLeading(s) == s;
    assert StripTrailing(s) == s;
    LowerOfLower(s);
    CollapseOfSlug(s);
  }

  /** Slugifying a slug again gives the same slug. */
  lemma SlugifyIdempotent(s: string)
    ensures Slugify(Slugify(s)) == Slugify(s)
  {
    SlugifyOfSlug(Slugify(s));
  }

  // ---------------------------------------------------------------------------
  // Worked examples

  lemma SlugifyEmpty()
    ensures Slugify("") == ""
  {
  }

  lemma {:induction false} RemoveDisallowedAppend(a: string, b: string)
    ensures RemoveDisallowed(a + b) == RemoveDisallowed(a) + RemoveDisallowed(b)
  {
    if a == [] {
      assert a + b == b;
    } else {
      assert (a + b)[1..] == a[1..] + b;
      RemoveDisallowedAppend(a[1..], b);
      assert RemoveDisallowed(a + b) == (if IsKept(a[0]) then [a[0]] else []) + RemoveDisallowed(a[1..] + b);
    }
  }

  /** Step 1 deletes a disallowed character: the rest closes up around it. */
  lemma RemoveDisallowedDrops(a: string, c: char, b: string)
    requires !IsKept(c)
    ensures RemoveDisallowed(a + [c] + b) == RemoveDisallowed(a + b)
  {
    RemoveDisallowedAppend(a + [c], b);
    RemoveDisallowedAppend(a, [c]);
    RemoveDisallowedAppend(a, b);
    assert RemoveDisallowed([c]) == [];
  }

  /** Step 1 keeps an allowed character in its place. */
  lemma RemoveDisallowedKeeps(a: string, c: char, b: string)
    requires IsKept(c)
    ensures RemoveDisallowed(a + [c] + b) == RemoveDisallowed(a) + [c] + RemoveDisallowed(b)
  {
    RemoveDisallowedAppend(a + [c], b);
    RemoveDisallowedAppend(a, [c]);
    assert RemoveDisallowed([c]) == [c];
  }

  /** A character outside `[\w\s-]` has no effect at all on the slug. */
  lemma SlugifyIgnoresDisallowed(a: string, c: char, b: string)
    requires !IsKept(c)
    ensures Slugify(a + [c] + b) == Slugify(a + b)
  {
    RemoveDisallowedDrops(a, c, b);
  }

  /** Stripping on the left removes exactly a leading whitespace run. */
  lemma {:induction false} StripLeadingRun(ws: string, t: string)
    requires forall i :: 0 <= i < |ws| ==> IsSpace(ws[i])
    requires t == [] || !IsSpace(t[0])
    ensures StripLeading(ws + t) == t
  {
    if ws == [] {
      assert ws + t == t;
    } else {
      assert (ws + t)[1..] == ws[1..] + t;
      StripLeadingRun(ws[1..], t);
    }
  }

  /** Stripping on the right removes exactly a trailing whitespace run. */
  lemma {:induction false} StripTrailingRun(t: string, ws: string)
    requires forall i :: 0 <= i < |ws| ==> IsSpace(ws[i])
    requires t == [] || !IsSpace(t[|t| - 1])
    ensures StripTrailing(t + ws) == t
  {
    if ws == [] {
      assert t + ws == t;
    } else {
      assert (t + ws)[..|t + ws| - 1] == t + ws[..|ws| - 1];
      StripTrailingRun(t, ws[..|ws| - 1]);
    }
  }

  /**
   * `strip()` removes exactly the whitespace around a text that neither
   * starts nor ends with whitespace; hyphens and everything else stay.
   */
  lemma StripRuns(lead: string, t: string, trail: string)
    requires forall i :: 0 <= i < |lead| ==> IsSpace(lead[i])
    requires forall i :: 0 <= i < |trail| ==> IsSpace(trail[i])
    requires t == [] || (!IsSpace(t[0]) && !IsSpace(t[|t| - 1]))
    ensures Strip(lead + t + trail) == t
  {
    if t == [] {
      assert lead + t + trail == lead + trail;
      StripLeadingRun(lead + trail, []);
      assert lead + trail + [] == lead + trail;
    } else {
      assert lead + t + trail == lead + (t + trail);
      StripLeadingRun(lead, t + trail);
      StripTrailingRun(t, trail);
    }
  }

  /** A run without separators passes through step 4 unchanged. */
  lemma {:induction false} CollapseWordPrefix(w: string, t: string)
    requires forall i :: 0 <= i < |w| ==> !IsSeparator(w[i])
    ensures CollapseSeparators(w + t) == w + CollapseSeparators(t)
  {
    if w == [] {
      assert w + t == t;
    } else {
      assert (w + t)[1..] == w[1..] + t;
      CollapseWordPrefix(w[1..], t);
    }
  }

  lemma {:induction false} DropSeparatorRun(run: string, t: string)
    requires forall i :: 0 <= i < |run| ==> IsSeparator(run[i])
    requires t == [] || !IsSeparator(t[0])
    ensures DropSeparators(run + t) == t
  {
    if run == [] {
      assert run + t == t;
    } else {
      assert (run + t)[1..] == run[1..] + t;
      DropSeparatorRun(run[1..], t);
    }
  }

  /** A whole run of separators before a non-separator becomes one hyphen. */
  lemma CollapseSeparatorRun(run: string, t: string)
    requires |run| > 0
    requires forall i :: 0 <= i < |run| ==> IsSeparator(run[i])
    requires t == [] || !IsSeparator(t[0])
    ensures CollapseSeparators(run + t) == "-" + CollapseSeparators(t)
  {
    assert (run + t)[1..] == run[1..] + t;
    DropSeparatorRun(run[1..], t);
  }

  /** Step 1 on the summary of the end-to-end example drops the `!`. */
  lemma FilterFixLoginBug(summary: string)
    requires summary == "Fix Login Bug!"
    ensures RemoveDisallowed(summary) == summary[..13]
  {
    var spaced := summary[..13];
    assert summary == spaced + ['!'] + [];
    RemoveDisallowedDrops(spaced, '!', []);
    assert spaced + [] == spaced;
    assert forall i :: 0 <= i < |spaced| ==> IsKept(spaced[i]);
  }

  /** Steps 1 to 3 on the summary of the end-to-end example. */
  lemma CleanFixLoginBug(summary: string)
    requires summary == "Fix Login Bug!"
    ensures Lower(Strip(RemoveDisallowed(summary))) == "fix" + (" " + ("login" + (" " + "bug")))
  {
    FilterFixLoginBug(summary);
    var spaced := summary[..13];
    StripFixLoginBug(spaced);
    LowerFixLoginBug(spaced);
  }

  lemma StripFixLoginBug(spaced: string)
    requires spaced == "Fix Login Bug"
    ensures Strip(spaced) == spaced
  {
    StripRuns([], spaced, []);
    assert [] + spaced + [] == spaced;
  }

  lemma LowerFixLoginBug(spaced: string)
    requires spaced == "Fix Login Bug"
    ensures Lower(spaced) == "fix" + (" " + ("login" + (" " + "bug")))
  {
    assert "fix" + (" " + ("login" + (" " + "bug"))) == "fix login bug";
  }

  /** Three words separated by single spaces come out joined by hyphens. */
  lemma CollapseThreeWords(a: string, b: string, c: string)
    requires a != [] && b != [] && c != []
    requires forall i :: 0 <= i < |a| ==> !IsSeparator(a[i])
    requires forall i :: 0 <= i < |b| ==> !IsSeparator(b[i])
    requires forall i :: 0 <= i < |c| ==> !IsSeparator(c[i])
    ensures CollapseSeparators(a + (" " + (b + (" " + c)))) == a + ("-" + (b + ("-" + c)))
  {
    CollapseWordPrefix(c, []);
    assert c + [] == c;
    CollapseSeparatorRun(" ", c);
    CollapseWordPrefix(b, " " + c);
    CollapseSeparatorRun(" ", b + (" " + c));
    CollapseWordPrefix(a, " " + (b + (" " + c)));
  }

  /** Step 4 on the summary of the end-to-end example. */
  lemma CollapseFixLoginBug(fix: string, login: string, bug: string)
    requires fix == "fix" && login == "login" && bug == "bug"
    ensures CollapseSeparators(fix + (" " + (login + (" " + bug)))) == "fix-login-bug"
  {
    CollapseThreeWords(fix, login, bug);
    assert fix + ("-" + (login + ("-" + bug))) == "fix-login-bug";
  }

  /** The summary of the end-to-end example becomes `fix-login-bug`. */
  lemma SlugifyFixLoginBug(summary: string)
    requires summary == "Fix Login Bug!"
    ensures Slugify(summary) == "fix-login-bug"
  {
    CleanFixLoginBug(summary);
    CollapseFixLoginBug("fix", "login", "bug");
  }

  /** Hyphens at either end survive: only whitespace is stripped. */
  lemma SlugifyKeepsOuterHyphens(s: string)
    requires s == "-x-"
    ensures Slugify(s) == s
  {
    SlugifyOfSlug(s);
  }
}
