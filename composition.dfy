/** Exact per-base counts and GC percentage (`str.count`, `calculate_gc_content`). */
module Composition {

  /** The number of occurrences of the character `c` in `s`. */
  function Count(s: string, c: char): (n: nat)
    ensures n == multiset(s)[c]
  {
    if s == [] then 0
    else
      assert s == s[..|s| - 1] + [s[|s| - 1]];
      Count(s[..|s| - 1], c) + (if s[|s| - 1] == c then 1 else 0)
  }

  /** One of the four bases the counts report. */
  predicate IsBase(c: char)
  {
    c == 'A' || c == 'C' || c == 'G' || c == 'T'
  }

  /** The G and C counts together never exceed the length. */
  lemma {:induction false} GcCountBound(s: string)
    ensures Count(s, 'G') + Count(s, 'C') <= |s|
  {
    if s != [] {
      GcCountBound(s[..|s| - 1]);
    }
  }

  /**
   * The four base counts are independent exact counts: together they never exceed
   * the length, and they reach it exactly when every character is A, C, G or T.
   */
  lemma {:induction false} BaseCountsBound(s: string)
    ensures Count(s, 'A') + Count(s, 'T') + Count(s, 'G') + Count(s, 'C') <= |s|
    ensures Count(s, 'A') + Count(s, 'T') + Count(s, 'G') + Count(s, 'C') == |s|
            <==> forall k :: 0 <= k < |s| ==> IsBase(s[k])
  {
    if s != [] {
      var init := s[..|s| - 1];
      BaseCountsBound(init);
      assert forall k :: 0 <= k < |init| ==> init[k] == s[k];
    }
  }

  /**
   * `r` is the percentage that `gc` G/C bases make up of `len` characters, 0 when there
   * are none; it lies in [0, 100].
   */
  predicate IsGcPercentage(r: real, gc: nat, len: nat)
  {
    && 0.0 <= r <= 100.0
    && (len == 0 ==> r == 0.0)
    && (len > 0 ==> r * (len as real) == 100.0 * (gc as real))
  }

  /** `100 * gc / len` is the percentage `gc` makes up of `len`, for any `gc` up to `len`. */
  lemma Percentage(gc: nat, len: nat)
    requires gc <= len && len > 0
    ensures IsGcPercentage((gc as real / len as real) * 100.0, gc, len)
  {
    var q := gc as real / len as real;
    assert q * (len as real) == gc as real;
    assert q <= 1.0;
  }

  /** The GC percentage: 0 for the empty sequence, otherwise 100 * (G + C) / length. */
  function GcContent(s: string): (r: real)
    ensures IsGcPercentage(r, Count(s, 'G') + Count(s, 'C'), |s|)
  {
    var gc := Count(s, 'G') + Count(s, 'C');
    GcCountBound(s);
    if |s| > 0 then
      Percentage(gc, |s|);
      (gc as real / |s| as real) * 100.0
    else
      0.0
  }

  lemma GcContentExamples()
    ensures GcContent("") == 0.0
    ensures GcContent("GGCC") == 100.0
    ensures GcContent("ATAT") == 0.0
  {
    assert Count("GGCC", 'G') + Count("GGCC", 'C') == 4;
    assert Count("ATAT", 'G') + Count("ATAT", 'C') == 0;
  }
}
