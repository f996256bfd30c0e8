/** Repeated substrings with their occurrence offsets (`find_repeats`). */
module RepeatFinder {
  import opened Bounds
  import opened MotifScanner

  /** Longest window the scan tries, whatever the sequence length (`min(21, ...)` is exclusive). */
  const MaxRepeatLength: nat := 20

  /** Every substring whose length lies in [minLength, MaxRepeatLength]. */
  function Windows(s: string, minLength: nat): set<string>
  {
    set i: nat, len: nat | i <= |s| && minLength <= len <= MaxRepeatLength && i + len <= |s| :: Window(s, i, len)
  }

  /** A window occurs at its own start offset. */
  lemma WindowOccursAtStart(s: string, i: nat, len: nat)
    requires i + len <= |s|
    ensures i in Occurrences(s, Window(s, i, len))
  {
    OccurrencesSpec(s, Window(s, i, len));
    assert MatchesAt(s, Window(s, i, len), i);
  }

  /**
   * The repeat table: every window of an admissible length that occurs at least `minCount`
   * times, mapped to all its occurrence offsets. Being keyed by content, it does not depend
   * on the order in which windows are visited.
   */
  function RepeatTable(s: string, minLength: nat, minCount: int): map<string, seq<nat>>
  {
    map k | k in Windows(s, minLength) && |Occurrences(s, k)| >= minCount :: Occurrences(s, k)
  }

  /**
   * Soundness: every key is a substring of admissible length, found at the first offset
   * reported for it, and is mapped to exactly what `find_motif` returns for it, at least
   * `minCount` offsets.
   */
  lemma RepeatTableSound(s: string, minLength: nat, minCount: int, k: string)
    requires k in RepeatTable(s, minLength, minCount)
    ensures minLength <= |k| <= MaxRepeatLength
    ensures RepeatTable(s, minLength, minCount)[k] == Occurrences(s, k)
    ensures |Occurrences(s, k)| >= minCount
    ensures |Occurrences(s, k)| > 0 && MatchesAt(s, k, Occurrences(s, k)[0])
  {
    var i: nat, len: nat :| i <= |s| && minLength <= len <= MaxRepeatLength && i + len <= |s| && k == Window(s, i, len);
    WindowOccursAtStart(s, i, len);
    OccurrencesSpec(s, k);
    assert Occurrences(s, k)[0] in Occurrences(s, k);
  }

  /** Completeness: every admissible window occurring at least `minCount` times is a key. */
  lemma RepeatTableComplete(s: string, minLength: nat, minCount: int, i: nat, len: nat)
    requires i + len <= |s| && minLength <= len <= MaxRepeatLength
    requires |Occurrences(s, Window(s, i, len))| >= minCount
    ensures Window(s, i, len) in RepeatTable(s, minLength, minCount)
  {
    assert Window(s, i, len) in Windows(s, minLength);
  }

  /** The table holds only windows, each mapped to its full occurrence list, often enough. */
  ghost predicate Sound(s: string, minLength: nat, minCount: int, repeats: map<string, seq<nat>>)
  {
    forall k :: k in repeats ==>
      k in Windows(s, minLength) && |Occurrences(s, k)| >= minCount && repeats[k] == Occurrences(s, k)
  }

  /**
   * The scan has visited every window starting before `i`, and the windows starting at `i`
   * shorter than `j`: each of those that occurs at least `minCount` times is a key.
   */
  ghost predicate CoveredBefore(s: string, minLength: nat, minCount: int, repeats: map<string, seq<nat>>, i: nat, j: nat)
  {
    forall i': nat, len: nat ::
      (i' + len <= |s| && minLength <= len <= MaxRepeatLength
       && (i' < i || (i' == i && len < j))
       && |Occurrences(s, Window(s, i', len))| >= minCount)
      ==> Window(s, i', len) in repeats
  }

  /**
   * One inner iteration: storing the window at `i` of length `j` when it occurs often enough
   * keeps the table sound and extends what it covers by that window.
   */
  lemma ScanStep(s: string, minLength: nat, minCount: int, repeats: map<string, seq<nat>>, i: nat, j: nat)
    requires i + j <= |s| && minLength <= j <= MaxRepeatLength
    requires Sound(s, minLength, minCount, repeats) && CoveredBefore(s, minLength, minCount, repeats, i, j)
    ensures var w := Window(s, i, j);
            var next := if |Occurrences(s, w)| >= minCount then repeats[w := Occurrences(s, w)] else repeats;
            Sound(s, minLength, minCount, next) && CoveredBefore(s, minLength, minCount, next, i, j + 1)
  {
    var w := Window(s, i, j);
    assert w in Windows(s, minLength);
  }

  /** When the inner loop stops, every window starting at `i` has been visited. */
  lemma NextStart(s: string, minLength: nat, minCount: int, repeats: map<string, seq<nat>>, i: nat, j: nat)
    requires j >= Min(MaxRepeatLength + 1, |s| - i + 1)
    requires CoveredBefore(s, minLength, minCount, repeats, i, j)
    ensures CoveredBefore(s, minLength, minCount, repeats, i + 1, minLength)
  {
  }

  /** When the outer loop stops, no window starts at or after `i`. */
  lemma AllStartsScanned(s: string, minLength: nat, minCount: int, repeats: map<string, seq<nat>>, i: nat)
    requires i + minLength > |s|
    requires CoveredBefore(s, minLength, minCount, repeats, i, minLength)
    ensures CoveredBefore(s, minLength, minCount, repeats, |s| + 1, 0)
  {
  }

  /** A sound table holding every admissible window that occurs often enough is the repeat table. */
  lemma ScanCoversTable(s: string, minLength: nat, minCount: int, repeats: map<string, seq<nat>>)
    requires Sound(s, minLength, minCount, repeats)
    requires CoveredBefore(s, minLength, minCount, repeats, |s| + 1, 0)
    ensures repeats == RepeatTable(s, minLength, minCount)
  {
    var table := RepeatTable(s, minLength, minCount);
    forall k | k in table
      ensures k in repeats
    {
      var i: nat, len: nat :| i <= |s| && minLength <= len <= MaxRepeatLength && i + len <= |s|
                              && k == Window(s, i, len);
    }
    assert repeats.Keys == table.Keys;
  }

  /** The nested scan of `find_repeats`, filling the table in place. */
  method FindRepeats(sequence: string, minLength: nat, minCount: int) returns (repeats: map<string, seq<nat>>)
    ensures repeats == RepeatTable(sequence, minLength, minCount)
  {
    repeats := map[];
    var i := 0;
    while i < |sequence| - minLength + 1
      invariant 0 <= i <= if minLength <= |sequence| + 1 then |sequence| - minLength + 1 else 0
      invariant Sound(sequence, minLength, minCount, repeats)
      invariant CoveredBefore(sequence, minLength, minCount, repeats, i, minLength)
    {
      var j := minLength;
      while j < Min(MaxRepeatLength + 1, |sequence| - i + 1)
        invariant minLength <= j
        invariant Sound(sequence, minLength, minCount, repeats)
        invariant CoveredBefore(sequence, minLength, minCount, repeats, i, j)
      {
        ScanStep(sequence, minLength, minCount, repeats, i, j);
        var substring := sequence[i..i + j];
        var positions := FindMotif(sequence, substring);
        if |positions| >= minCount {
          repeats := repeats[substring := positions];
        }
        j := j + 1;
      }
      NextStart(sequence, minLength, minCount, repeats, i, j);
      i := i + 1;
    }
    AllStartsScanned(sequence, minLength, minCount, repeats, i);
    ScanCoversTable(sequence, minLength, minCount, repeats);
  }
}
