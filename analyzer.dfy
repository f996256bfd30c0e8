/** The per-sequence report of `analyze_sequence`, built from the other components. */
module SequenceAnalyzer {
  import opened MotifScanner
  import opened Composition
  import opened RepeatFinder
  import opened PalindromeFinder

  /** Default thresholds of `find_repeats` and `find_palindromes`. */
  const RepeatMinLength: nat := 4
  const RepeatMinCount: int := 2
  const PalindromeMinLength: nat := 4
  const PalindromeMaxLength: int := 12

  datatype BaseComposition = BaseComposition(a: nat, t: nat, g: nat, c: nat)

  datatype Report = Report(
    sequenceId: string,
    length: nat,
    gcContent: real,
    repeats: map<string, seq<nat>>,
    palindromes: seq<Entry>,
    baseComposition: BaseComposition)

  /**
   * The report: identifier and length, GC percentage, repeats and palindromes with the
   * default thresholds, and exact counts of the four bases.
   */
  function AnalyzeSequence(sequenceId: string, sequence: string): (r: Report)
    ensures r.sequenceId == sequenceId && r.length == |sequence|
    ensures r.baseComposition.a == multiset(sequence)['A'] && r.baseComposition.t == multiset(sequence)['T']
    ensures r.baseComposition.g == multiset(sequence)['G'] && r.baseComposition.c == multiset(sequence)['C']
    ensures r.baseComposition.a + r.baseComposition.t + r.baseComposition.g + r.baseComposition.c <= r.length
    ensures IsGcPercentage(r.gcContent, r.baseComposition.g + r.baseComposition.c, r.length)
    ensures r.repeats == RepeatTable(sequence, RepeatMinLength, RepeatMinCount)
    ensures r.palindromes == Palindromes(sequence, PalindromeMinLength, PalindromeMaxLength)
  {
    BaseCountsBound(sequence);
    Report(
      sequenceId,
      |sequence|,
      GcContent(sequence),
      RepeatTable(sequence, RepeatMinLength, RepeatMinCount),
      Palindromes(sequence, PalindromeMinLength, PalindromeMaxLength),
      BaseComposition(Count(sequence, 'A'), Count(sequence, 'T'), Count(sequence, 'G'), Count(sequence, 'C')))
  }

  /**
   * What the report's collections mean with the default thresholds: every repeat is a
   * substring of 4 to 20 characters found at two offsets or more, mapped to all of them,
   * and every palindrome is a window of even length between 4 and 12 equal to its own
   * reverse complement, reported at its own offset.
   */
  lemma ReportCollections(sequenceId: string, sequence: string)
    ensures forall k :: k in AnalyzeSequence(sequenceId, sequence).repeats ==>
              && 4 <= |k| <= 20
              && AnalyzeSequence(sequenceId, sequence).repeats[k] == Occurrences(sequence, k)
              && |Occurrences(sequence, k)| >= 2
              && MatchesAt(sequence, k, Occurrences(sequence, k)[0])
    ensures forall e :: e in AnalyzeSequence(sequenceId, sequence).palindromes ==>
              && 4 <= |e.0| <= 12 && |e.0| % 2 == 0
              && e.1 + |e.0| <= |sequence| && sequence[e.1..e.1 + |e.0|] == e.0
              && IsPalindrome(e.0)
  {
    var r := AnalyzeSequence(sequenceId, sequence);
    forall k | k in r.repeats
      ensures 4 <= |k| <= 20 && r.repeats[k] == Occurrences(sequence, k) && |Occurrences(sequence, k)| >= 2
      ensures MatchesAt(sequence, k, Occurrences(sequence, k)[0])
    {
      RepeatTableSound(sequence, RepeatMinLength, RepeatMinCount, k);
    }
    PalindromesSpec(sequence, PalindromeMinLength, PalindromeMaxLength);
    forall e | e in r.palindromes
      ensures 4 <= |e.0| <= 12 && |e.0| % 2 == 0
      ensures e.1 + |e.0| <= |sequence| && sequence[e.1..e.1 + |e.0|] == e.0 && IsPalindrome(e.0)
    {
      var k :| 0 <= k < |r.palindromes| && r.palindromes[k] == e;
      assert IsPalindromeEntry(sequence, PalindromeMinLength, PalindromeMaxLength, r.palindromes[k]);
    }
  }

  /** The report of the empty sequence: no GC, no repeats, no palindromes, no bases. */
  lemma EmptySequenceReport(sequenceId: string)
    ensures AnalyzeSequence(sequenceId, "")
            == Report(sequenceId, 0, 0.0, map[], [], BaseComposition(0, 0, 0, 0))
  {
    var r := AnalyzeSequence(sequenceId, "");
    forall k | k in r.repeats
      ensures false
    {
      RepeatTableSound("", RepeatMinLength, RepeatMinCount, k);
    }
  }
}
