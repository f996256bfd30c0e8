/** Exact, case-sensitive, overlapping motif search (`find_motif`). */
module MotifScanner {

  /** The slice `s[i:i+len]` of `len` characters starting at `i`. */
  function Window(s: string, i: nat, len: nat): string
    requires i + len <= |s|
  {
    s[i..i + len]
  }

  /** The motif occurs in the sequence starting at offset `p`. */
  predicate MatchesAt(sequence: string, motif: string, p: nat)
  {
    p + |motif| <= |sequence| && Window(sequence, p, |motif|) == motif
  }

  /** How many start offsets `range(len(sequence) - len(motif) + 1)` visits. */
  function WindowCount(sequence: string, motif: string): nat
  {
    if |motif| <= |sequence| then |sequence| - |motif| + 1 else 0
  }

  /** The matching offsets below `n`, in the order a left-to-right scan finds them. */
  function OccurrencesBelow(sequence: string, motif: string, n: nat): seq<nat>
  {
    if n == 0 then []
    else OccurrencesBelow(sequence, motif, n - 1) + (if MatchesAt(sequence, motif, n - 1) then [n - 1] else [])
  }

  /** All offsets at which the motif occurs, left to right. */
  function Occurrences(sequence: string, motif: string): seq<nat>
  {
    OccurrencesBelow(sequence, motif, WindowCount(sequence, motif))
  }

  /** Below `n`, the scan finds exactly the matching offsets, each once, in increasing order. */
  lemma {:induction false} OccurrencesBelowSpec(sequence: string, motif: string, n: nat)
    ensures forall p: nat :: p in OccurrencesBelow(sequence, motif, n) <==> p < n && MatchesAt(sequence, motif, p)
    ensures forall k, l :: 0 <= k < l < |OccurrencesBelow(sequence, motif, n)| ==>
              OccurrencesBelow(sequence, motif, n)[k] < OccurrencesBelow(sequence, motif, n)[l]
    ensures forall k :: 0 <= k < |OccurrencesBelow(sequence, motif, n)| ==> OccurrencesBelow(sequence, motif, n)[k] < n
  {
    if n > 0 {
      OccurrencesBelowSpec(sequence, motif, n - 1);
    }
  }

  /**
   * `find_motif` returns exactly the offsets at which the motif occurs, strictly increasing
   * (so without duplicates).
   */
  lemma OccurrencesSpec(sequence: string, motif: string)
    ensures forall p: nat :: p in Occurrences(sequence, motif) <==> MatchesAt(sequence, motif, p)
    ensures forall k, l :: 0 <= k < l < |Occurrences(sequence, motif)| ==>
              Occurrences(sequence, motif)[k] < Occurrences(sequence, motif)[l]
  {
    OccurrencesBelowSpec(sequence, motif, WindowCount(sequence, motif));
  }

  /** A motif longer than the sequence is found nowhere; this is not an error. */
  lemma OccurrencesOfLongerMotif(sequence: string, motif: string)
    requires |motif| > |sequence|
    ensures Occurrences(sequence, motif) == []
  {
  }

  lemma {:induction false} EmptyMotifBelow(sequence: string, n: nat)
    requires n <= |sequence| + 1
    ensures OccurrencesBelow(sequence, "", n) == seq(n, i => i)
  {
    if n > 0 {
      EmptyMotifBelow(sequence, n - 1);
      assert MatchesAt(sequence, "", n - 1);
    }
  }

  /** The empty motif is not special-cased: it matches at every offset 0..|sequence|. */
  lemma EmptyMotifMatchesEverywhere(sequence: string)
    ensures Occurrences(sequence, "") == seq(|sequence| + 1, i => i)
  {
    EmptyMotifBelow(sequence, |sequence| + 1);
  }

  /** The naive sliding-window scan of `find_motif`. */
  method FindMotif(sequence: string, motif: string) returns (positions: seq<nat>)
    ensures positions == Occurrences(sequence, motif)
  {
    positions := [];
    var i := 0;
    while i < |sequence| - |motif| + 1
      invariant 0 <= i <= WindowCount(sequence, motif)
      invariant positions == OccurrencesBelow(sequence, motif, i)
    {
      assert OccurrencesBelow(sequence, motif, i + 1)
        == OccurrencesBelow(sequence, motif, i) + (if MatchesAt(sequence, motif, i) then [i] else []);
      if sequence[i..i + |motif|] == motif {
        positions := positions + [i];
      }
      i := i + 1;
    }
  }
}
