/**
 * `count_word_on_page` counts `re.findall(r"\b<word>\b", text, re.IGNORECASE)`:
 * the non-overlapping, leftmost-first occurrences of `word`, compared without
 * regard to case, that have a word boundary on both sides. Word characters and
 * case folding are those of ASCII.
 */
module WordCount {
  import opened Strings

  /** `\w`: a letter, a digit or the underscore. */
  predicate IsWordChar(c: char) {
    'a' <= c <= 'z' || 'A' <= c <= 'Z' || '0' <= c <= '9' || c == '_'
  }

  /** `\b` at position `p` of `t`: a word character on exactly one side of `p`. */
  predicate IsBoundary(t: string, p: int)
    requires 0 <= p <= |t|
  {
    (0 < p && IsWordChar(t[p - 1])) != (p < |t| && IsWordChar(t[p]))
  }

  /** Two characters that `re.IGNORECASE` treats as equal. */
  predicate SameIgnoringCase(a: char, b: char) {
    AsciiLowerChar(a) == AsciiLowerChar(b)
  }

  /** The escaped `word`, compared without case, occurs in `t` at `p`. */
  predicate OccursAt(t: string, w: string, p: int)
    requires 0 <= p
  {
    p + |w| <= |t| && forall k :: 0 <= k < |w| ==> SameIgnoringCase(t[p + k], w[k])
  }

  /** The pattern `\b<word>\b` matches `t` at `p`. */
  predicate MatchAt(t: string, w: string, p: int)
    requires 0 <= p
  {
    OccursAt(t, w, p) && IsBoundary(t, p) && IsBoundary(t, p + |w|)
  }

  /** Where the scan resumes after a match at `p`: its end, or one further for an empty match. */
  function Step(w: string): (n: nat)
    ensures n >= 1 && n >= |w|
  {
    if |w| == 0 then 1 else |w|
  }

  /**
   * The start positions of the matches `findall` reports from position `i` on:
   * it tries each position in turn and, after a match, resumes at its end.
   */
  function FindAllFrom(t: string, w: string, i: nat): (r: seq<nat>)
    requires i <= |t| + 1
    ensures forall j :: 0 <= j < |r| ==> i <= r[j] <= |t|
    ensures forall j :: 0 < j < |r| ==> r[j - 1] + Step(w) <= r[j]
    decreases |t| + 1 - i
  {
    if i > |t| then []
    else if MatchAt(t, w, i) then [i] + FindAllFrom(t, w, i + Step(w))
    else FindAllFrom(t, w, i + 1)
  }

  function FindAll(t: string, w: string): seq<nat> {
    FindAllFrom(t, w, 0)
  }

  /** Every reported position is a match. */
  lemma {:induction false} FindAllFromSound(t: string, w: string, i: nat)
    requires i <= |t| + 1
    ensures forall j :: 0 <= j < |FindAllFrom(t, w, i)| ==> MatchAt(t, w, FindAllFrom(t, w, i)[j])
    decreases |t| + 1 - i
  {
    if i <= |t| {
      if MatchAt(t, w, i) {
        FindAllFromSound(t, w, i + Step(w));
      } else {
        FindAllFromSound(t, w, i + 1);
      }
    }
  }

  /** Position `p` lies strictly inside one of the reported matches. */
  ghost predicate InsideMatch(r: seq<nat>, w: string, p: int) {
    exists j :: 0 <= j < |r| && r[j] < p < r[j] + |w|
  }

  /** Position `p` is reported, or lies inside a reported match. */
  ghost predicate Covered(r: seq<nat>, w: string, p: int) {
    p in r || InsideMatch(r, w, p)
  }

  lemma CoveredByFirst(start: nat, rest: seq<nat>, w: string, p: int)
    requires start == p || start < p < start + |w|
    ensures Covered([start] + rest, w, p)
  {
    var r := [start] + rest;
    if start != p {
      assert r[0] < p < r[0] + |w|;
    }
  }

  lemma CoveredByRest(start: nat, rest: seq<nat>, w: string, p: int)
    requires Covered(rest, w, p)
    ensures Covered([start] + rest, w, p)
  {
    var r := [start] + rest;
    if p in rest {
      assert p in r;
    } else {
      var j :| 0 <= j < |rest| && rest[j] < p < rest[j] + |w|;
      assert r[j + 1] == rest[j];
    }
  }

  /** The scan misses a match only where it overlaps one reported before it. */
  lemma {:induction false} FindAllFromComplete(t: string, w: string, i: nat, p: nat)
    requires i <= p <= |t| && MatchAt(t, w, p)
    ensures Covered(FindAllFrom(t, w, i), w, p)
    decreases |t| + 1 - i
  {
    if MatchAt(t, w, i) {
      var rest := FindAllFrom(t, w, i + Step(w));
      if p < i + Step(w) {
        CoveredByFirst(i, rest, w, p);
      } else {
        FindAllFromComplete(t, w, i + Step(w), p);
        CoveredByRest(i, rest, w, p);
      }
    } else {
      FindAllFromComplete(t, w, i + 1, p);
    }
  }

  /** Matches never overlap, so at most `(|t| - i) / |w|` of them fit after `i`. */
  lemma {:induction false} FindAllFromBound(t: string, w: string, i: nat)
    requires i <= |t| && |w| > 0
    ensures |FindAllFrom(t, w, i)| * |w| <= |t| - i
    decreases |t| + 1 - i
  {
    if MatchAt(t, w, i) {
      if i + |w| <= |t| {
        FindAllFromBound(t, w, i + |w|);
      }
    } else if i < |t| {
      FindAllFromBound(t, w, i + 1);
    }
  }

  predicate AllWordChars(w: string) {
    forall k :: 0 <= k < |w| ==> IsWordChar(w[k])
  }

  lemma SameIgnoringCaseKeepsWordChar(a: char, b: char)
    requires SameIgnoringCase(a, b) && IsWordChar(b)
    ensures IsWordChar(a)
  {
  }

  /** Two matches of a word made of word characters cannot overlap: there is no boundary inside one. */
  lemma NoBoundaryInsideWord(t: string, w: string, q: nat, p: nat)
    requires AllWordChars(w) && MatchAt(t, w, q) && q < p < q + |w|
    ensures !IsBoundary(t, p)
  {
    SameIgnoringCaseKeepsWordChar(t[q + (p - 1 - q)], w[p - 1 - q]);
    SameIgnoringCaseKeepsWordChar(t[q + (p - q)], w[p - q]);
  }

  /**
   * For a word of word characters, `findall` reports exactly the positions
   * where `\b<word>\b` matches.
   */
  lemma FindAllExact(t: string, w: string, p: nat)
    requires AllWordChars(w)
    ensures p in FindAll(t, w) <==> p <= |t| && MatchAt(t, w, p)
  {
    var r := FindAll(t, w);
    FindAllFromSound(t, w, 0);
    if p <= |t| && MatchAt(t, w, p) {
      FindAllFromComplete(t, w, 0, p);
      if !(p in r) {
        var j :| 0 <= j < |r| && r[j] < p < r[j] + |w|;
        NoBoundaryInsideWord(t, w, r[j], p);
      }
    }
  }

  lemma DivisionBound(n: nat, total: nat, size: nat)
    requires size > 0 && n * size <= total
    ensures n <= total / size
  {
    var q := total / size;
    assert total == q * size + total % size && total % size < size;
    assert (q + 1) * size == q * size + size;
  }

  lemma FindAllBound(text: string, word: string)
    ensures |word| > 0 ==> |FindAll(text, word)| * |word| <= |text|
    ensures |word| > 0 ==> |FindAll(text, word)| <= |text| / |word|
  {
    if |word| > 0 {
      FindAllFromBound(text, word, 0);
      DivisionBound(|FindAll(text, word)|, |text|, |word|);
    }
  }

  /** `len(re.findall(...))`: for a non-empty word at most `|text| / |word|`. */
  function CountWord(text: string, word: string): (n: nat)
    ensures |word| > 0 ==> n * |word| <= |text| && n <= |text| / |word|
  {
    FindAllBound(text, word);
    |FindAll(text, word)|
  }

  const CatText: string := "The cat sat. CATCH the cat!"

  /** Positions where nothing matches are passed over without reporting anything. */
  lemma {:induction false} SkipNonMatches(t: string, w: string, lo: nat, hi: nat)
    requires lo <= hi <= |t| + 1
    requires forall i :: lo <= i < hi ==> !MatchAt(t, w, i)
    ensures FindAllFrom(t, w, lo) == FindAllFrom(t, w, hi)
    decreases hi - lo
  {
    if lo < hi {
      SkipNonMatches(t, w, lo + 1, hi);
    }
  }

  /**
   * The documented case: in "The cat sat. CATCH the cat!" the word "cat" is
   * counted twice, since the "CAT" inside "CATCH" has no boundary after it.
   */
  lemma CatExample(t: string, w: string)
    requires t == CatText && w == "cat"
    ensures CountWord(t, w) == 2
  {
    CatNoMatch0(t, w);
    SkipNonMatches(t, w, 0, 4);
    CatFrom4(t, w);
  }

  lemma CatFrom4(t: string, w: string)
    requires t == CatText && w == "cat"
    ensures |FindAllFrom(t, w, 4)| == 2
  {
    assert MatchAt(t, w, 4) by { assert OccursAt(t, w, 4); }
    CatNoMatch1(t, w); CatNoMatch2(t, w);
    SkipNonMatches(t, w, 7, 23);
    CatFrom23(t, w);
  }

  lemma CatFrom23(t: string, w: string)
    requires t == CatText && w == "cat"
    ensures |FindAllFrom(t, w, 23)| == 1
  {
    assert MatchAt(t, w, 23) by { assert OccursAt(t, w, 23); }
    CatNoMatch3(t, w);
    SkipNonMatches(t, w, 26, 28);
  }

  lemma CatNoMatch0(t: string, w: string)
    requires t == CatText && w == "cat"
    ensures forall i :: 0 <= i < 4 ==> !MatchAt(t, w, i)
  {
    forall i | 0 <= i < 4
      ensures !MatchAt(t, w, i)
    {
      if i == 0 { assert !SameIgnoringCase(t[0 + 0], w[0]); }
      else if i == 1 { assert !IsBoundary(t, 1); }
      else if i == 2 { assert !IsBoundary(t, 2); }
      else if i == 3 { assert !SameIgnoringCase(t[3 + 0], w[0]); }
    }
  }
  lemma CatNoMatch1(t: string, w: string)
    requires t == CatText && w == "cat"
    ensures forall i :: 7 <= i < 15 ==> !MatchAt(t, w, i)
  {
    forall i | 7 <= i < 15
      ensures !MatchAt(t, w, i)
    {
      if i == 7 { assert !SameIgnoringCase(t[7 + 0], w[0]); }
      else if i == 8 { assert !SameIgnoringCase(t[8 + 0], w[0]); }
      else if i == 9 { assert !IsBoundary(t, 9); }
      else if i == 10 { assert !IsBoundary(t, 10); }
      else if i == 11 { assert !SameIgnoringCase(t[11 + 0], w[0]); }
      else if i == 12 { assert !IsBoundary(t, 12); }
      else if i == 13 { assert !IsBoundary(t, 16); }
      else if i == 14 { assert !IsBoundary(t, 14); }
    }
  }
  lemma CatNoMatch2(t: string, w: string)
    requires t == CatText && w == "cat"
    ensures forall i :: 15 <= i < 23 ==> !MatchAt(t, w, i)
  {
    forall i | 15 <= i < 23
      ensures !MatchAt(t, w, i)
    {
      if i == 15 { assert !IsBoundary(t, 15); }
      else if i == 16 { assert !IsBoundary(t, 16); }
      else if i == 17 { assert !IsBoundary(t, 17); }
      else if i == 18 { assert !SameIgnoringCase(t[18 + 0], w[0]); }
      else if i == 19 { assert !SameIgnoringCase(t[19 + 0], w[0]); }
      else if i == 20 { assert !IsBoundary(t, 20); }
      else if i == 21 { assert !IsBoundary(t, 21); }
      else if i == 22 { assert !SameIgnoringCase(t[22 + 0], w[0]); }
    }
  }
  lemma CatNoMatch3(t: string, w: string)
    requires t == CatText && w == "cat"
    ensures forall i :: 26 <= i < 28 ==> !MatchAt(t, w, i)
  {
    forall i | 26 <= i < 28
      ensures !MatchAt(t, w, i)
    {
      if i == 26 { assert !SameIgnoringCase(t[26 + 0], w[0]); }
      else if i == 27 { assert !IsBoundary(t, 27); }
    }
  }
}
