/**
 The two row labels the normaliser searches for in the age-group column.

 The primary label is the regular expression
 `Усе\s+населення\s+віком\s+15\s+років\s+і\s+старше`, searched anywhere in the
 cell text: seven words in order, each pair separated by one or more
 whitespace characters. It is modelled by a dedicated matcher rather than a
 regular-expression engine, and the matcher is proved equal to the
 declarative reading "the words joined by non-empty whitespace gaps occur in
 the text". The fallback label contains no regular-expression metacharacter,
 so searching for it is a plain substring search.
 */
module Labels {
  import opened Cells

  /** The whitespace of `\s` under `re.ASCII`: space, tab, line feed, vertical tab, form feed, carriage return. */
  predicate IsSpace(c: char) {
    c == ' ' || 9 <= c as int <= 13
  }

  predicate AllSpace(t: string) {
    forall k :: 0 <= k < |t| ==> IsSpace(t[k])
  }

  /** What `\s+` matches: a non-empty run of whitespace. */
  predicate IsGap(t: string) {
    |t| > 0 && AllSpace(t)
  }

  /** `seps` are the gaps between `n` words. */
  predicate Gaps(seps: seq<string>, n: nat) {
    |seps| + 1 == n && forall k :: 0 <= k < |seps| ==> IsGap(seps[k])
  }

  /** Words a matcher can tell apart from the gaps around them: non-empty, and
      not starting with whitespace. */
  predicate Separable(words: seq<string>) {
    |words| >= 1 && forall k :: 0 <= k < |words| ==> |words[k]| > 0 && !IsSpace(words[k][0])
  }

  /** The words with the given gaps between them. */
  function Join(words: seq<string>, seps: seq<string>): (t: string)
    requires |words| >= 1 && |seps| + 1 == |words|
    decreases |words|
  {
    if |words| == 1 then words[0] else words[0] + seps[0] + Join(words[1..], seps[1..])
  }

  const PrimaryWords: seq<string> := ["Усе", "населення", "віком", "15", "років", "і", "старше"]

  const FallbackLabel: string := "Усе населення у віці 15-70 років"

  predicate HasAt(s: string, i: nat, w: string) {
    i + |w| <= |s| && s[i..i + |w|] == w
  }

  /** Index of the first non-whitespace character at or after i. */
  function SkipSpaces(s: string, i: nat): (j: nat)
    requires i <= |s|
    ensures i <= j <= |s| && AllSpace(s[i..j])
    ensures j == |s| || !IsSpace(s[j])
    decreases |s| - i
  {
    if i < |s| && IsSpace(s[i]) then
      var j := SkipSpaces(s, i + 1);
      assert s[i..j] == [s[i]] + s[i + 1..j];
      j
    else
      i
  }

  /** Matches the words, separated by runs of whitespace, starting exactly at i;
      gives the index just past the match. */
  function MatchWordsAt(s: string, i: nat, words: seq<string>): (r: Option<nat>)
    requires i <= |s|
    ensures r.Some? ==> i <= r.value <= |s|
    decreases |words|
  {
    if |words| == 0 then Some(i)
    else if !HasAt(s, i, words[0]) then None
    else if |words| == 1 then Some(i + |words[0]|)
    else
      var k := i + |words[0]|;
      var j := SkipSpaces(s, k);
      if j == k then None else MatchWordsAt(s, j, words[1..])
  }

  /** One unfolding of Join, grouped as first word, then first gap and the rest. */
  lemma JoinUnfold(words: seq<string>, seps: seq<string>)
    requires |words| > 1 && |seps| + 1 == |words|
    ensures Join(words, seps) == words[0] + (seps[0] + Join(words[1..], seps[1..]))
  {
  }

  lemma SliceJoin(s: string, i: nat, k: nat, j: nat, e: nat)
    requires i <= k <= j <= e <= |s|
    ensures s[i..e] == s[i..k] + (s[k..j] + s[j..e])
  {
  }

  /** A successful match spells the words joined by whitespace gaps. */
  lemma {:induction false} MatchSound(s: string, i: nat, words: seq<string>) returns (seps: seq<string>)
    requires i <= |s| && |words| >= 1 && MatchWordsAt(s, i, words).Some?
    ensures Gaps(seps, |words|)
    ensures s[i..MatchWordsAt(s, i, words).value] == Join(words, seps)
    decreases |words|
  {
    if |words| == 1 {
      seps := [];
    } else {
      var k := i + |words[0]|;
      var j := SkipSpaces(s, k);
      var e := MatchWordsAt(s, i, words).value;
      assert MatchWordsAt(s, i, words) == MatchWordsAt(s, j, words[1..]);
      var rest := MatchSound(s, j, words[1..]);
      seps := [s[k..j]] + rest;
      assert seps[0] == s[k..j] && seps[1..] == rest;
      JoinUnfold(words, seps);
      SliceJoin(s, i, k, j, e);
    }
  }

  /** A run of whitespace followed by a non-whitespace character is skipped whole. */
  lemma {:induction false} SkipGap(s: string, k: nat, gap: string)
    requires IsGap(gap) && k + |gap| < |s| && s[k..k + |gap|] == gap && !IsSpace(s[k + |gap|])
    ensures SkipSpaces(s, k) == k + |gap|
    decreases |gap|
  {
    assert s[k] == gap[0];
    if |gap| > 1 {
      assert s[k + 1..k + 1 + |gap[1..]|] == gap[1..];
      SkipGap(s, k + 1, gap[1..]);
    }
  }

  /** An occurrence of a concatenation is an occurrence of each part, one after the other. */
  lemma HasAtSplit(s: string, i: nat, a: string, b: string)
    requires HasAt(s, i, a + b)
    ensures HasAt(s, i, a) && HasAt(s, i + |a|, b)
  {
    assert s[i..i + |a|] == s[i..i + |a + b|][..|a|];
    assert s[i + |a|..i + |a| + |b|] == s[i..i + |a + b|][|a|..];
  }

  lemma SeparableTail(words: seq<string>)
    requires Separable(words) && |words| > 1
    ensures Separable(words[1..])
  {
    forall m | 0 <= m < |words[1..]| ensures |words[1..][m]| > 0 && !IsSpace(words[1..][m][0]) {
      assert words[1..][m] == words[m + 1];
    }
  }

  lemma GapsTail(seps: seq<string>, n: nat)
    requires Gaps(seps, n) && n > 1
    ensures Gaps(seps[1..], n - 1)
  {
    forall m | 0 <= m < |seps[1..]| ensures IsGap(seps[1..][m]) {
      assert seps[1..][m] == seps[m + 1];
    }
  }

  /** The joined words start with the first word's first character. */
  lemma JoinFirst(words: seq<string>, seps: seq<string>)
    requires Separable(words) && |seps| + 1 == |words|
    ensures |Join(words, seps)| > 0 && Join(words, seps)[0] == words[0][0]
  {
    if |words| > 1 {
      var rest := Join(words[1..], seps[1..]);
      assert Join(words, seps) == words[0] + (seps[0] + rest);
    }
  }

  /** Past the first word and a non-empty whitespace run, the matcher goes on with the other words. */
  lemma MatchStep(s: string, i: nat, words: seq<string>, j: nat)
    requires |words| > 1 && i + |words[0]| <= |s| && HasAt(s, i, words[0])
    requires SkipSpaces(s, i + |words[0]|) == j && j > i + |words[0]|
    ensures MatchWordsAt(s, i, words) == MatchWordsAt(s, j, words[1..])
  {
  }

  /** An occurrence of a word, a gap and a rest is an occurrence of each, one after the other. */
  lemma OccurrenceParts(s: string, i: nat, a: string, g: string, rest: string)
    requires HasAt(s, i, a + (g + rest))
    ensures HasAt(s, i, a) && HasAt(s, i + |a|, g) && HasAt(s, i + |a| + |g|, rest)
  {
    HasAtSplit(s, i, a, g + rest);
    HasAtSplit(s, i + |a|, g, rest);
  }

  /** An occurrence of the joined words starts with the first word, then a whitespace
      run the matcher skips whole, then the joined remaining words. */
  lemma OccurrenceStep(s: string, i: nat, words: seq<string>, seps: seq<string>)
    requires Separable(words) && Gaps(seps, |words|) && |words| > 1
    requires HasAt(s, i, Join(words, seps))
    ensures var j := i + |words[0]| + |seps[0]|;
      HasAt(s, i, words[0]) && HasAt(s, j, Join(words[1..], seps[1..])) &&
      SkipSpaces(s, i + |words[0]|) == j && |seps[0]| > 0 &&
      |Join(words, seps)| == |words[0]| + |seps[0]| + |Join(words[1..], seps[1..])|
  {
    var rest := Join(words[1..], seps[1..]);
    JoinUnfold(words, seps);
    OccurrenceParts(s, i, words[0], seps[0], rest);
    var k := i + |words[0]|;
    var j := k + |seps[0]|;
    SeparableTail(words);
    JoinFirst(words[1..], seps[1..]);
    assert words[1..][0] == words[1];
    assert s[j] == rest[0];
    assert IsGap(seps[0]);
    SkipGap(s, k, seps[0]);
  }

  /** Every occurrence of the joined words is found by the matcher, ending where the occurrence ends. */
  lemma {:induction false} MatchComplete(s: string, i: nat, words: seq<string>, seps: seq<string>)
    requires Separable(words) && Gaps(seps, |words|)
    requires HasAt(s, i, Join(words, seps))
    ensures MatchWordsAt(s, i, words) == Some(i + |Join(words, seps)|)
    decreases |words|
  {
    if |words| > 1 {
      OccurrenceStep(s, i, words, seps);
      var j := i + |words[0]| + |seps[0]|;
      SeparableTail(words);
      GapsTail(seps, |words|);
      MatchComplete(s, j, words[1..], seps[1..]);
      MatchStep(s, i, words, j);
    } else {
      assert Join(words, seps) == words[0];
    }
  }

  /** The words, separated by whitespace runs, start at position j. */
  predicate MatchesAt(s: string, j: nat, words: seq<string>)
    requires j <= |s|
  {
    MatchWordsAt(s, j, words).Some?
  }

  /** `re.search` of the spaced words from position i on. */
  function SearchWordsFrom(s: string, words: seq<string>, i: nat): (r: bool)
    requires i <= |s|
    ensures r <==> exists j: nat :: i <= j <= |s| && MatchesAt(s, j, words)
    decreases |s| - i
  {
    if MatchesAt(s, i, words) then true
    else if i == |s| then false
    else SearchWordsFrom(s, words, i + 1)
  }

  /** The declarative reading of the primary pattern: somewhere in s the words
      occur joined by whitespace gaps. */
  ghost predicate OccursSpaced(s: string, words: seq<string>)
    requires |words| >= 1
  {
    exists i: nat, seps :: Gaps(seps, |words|) && HasAt(s, i, Join(words, seps))
  }

  /** `str.contains` with the primary pattern, on a text cell. */
  predicate ContainsPrimary(s: string) {
    SearchWordsFrom(s, PrimaryWords, 0)
  }

  lemma PrimaryWordsSeparable()
    ensures Separable(PrimaryWords)
  {
  }

  /** For separable words, the matcher-based search succeeds exactly when the
      words joined by whitespace gaps occur in the text. */
  lemma {:induction false} SearchWordsIff(s: string, words: seq<string>)
    requires Separable(words)
    ensures SearchWordsFrom(s, words, 0) <==> OccursSpaced(s, words)
  {
    if SearchWordsFrom(s, words, 0) {
      var j: nat :| j <= |s| && MatchesAt(s, j, words);
      var seps := MatchSound(s, j, words);
      var e := MatchWordsAt(s, j, words).value;
      assert |Join(words, seps)| == e - j;
      assert HasAt(s, j, Join(words, seps));
    }
    if OccursSpaced(s, words) {
      var i: nat, seps :| Gaps(seps, |words|) && HasAt(s, i, Join(words, seps));
      MatchComplete(s, i, words, seps);
      assert i <= |s| && MatchesAt(s, i, words);
    }
  }

  /** The primary label is found exactly when the text contains Усе, населення,
      віком, 15, років, і, старше in that order, joined by non-empty whitespace runs. */
  lemma ContainsPrimaryIff(s: string)
    ensures ContainsPrimary(s) <==> OccursSpaced(s, PrimaryWords)
  {
    PrimaryWordsSeparable();
    SearchWordsIff(s, PrimaryWords);
  }

  /** Plain substring search from position i on. */
  function FindFrom(s: string, lit: string, i: nat): (r: bool)
    requires i <= |s|
    ensures r <==> exists j :: i <= j && HasAt(s, j, lit)
    decreases |s| - i
  {
    if HasAt(s, i, lit) then true
    else if i == |s| then false
    else FindFrom(s, lit, i + 1)
  }

  /** `str.contains` with the fallback label, on a text cell. */
  predicate ContainsFallback(s: string) {
    FindFrom(s, FallbackLabel, 0)
  }
}
