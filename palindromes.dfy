/** Reverse-complement palindromes in a length range (`find_palindromes`). */
module PalindromeFinder {
  import opened Bounds
  import opened MotifScanner
  import opened Composition

  /** A reported palindrome: the substring and its start offset. */
  type Entry = (string, nat)

  /** The fixed pairing table A<->T, G<->C; any other character maps to itself. */
  function Complement(c: char): (r: char)
    ensures IsBase(c) ==> IsBase(r) && r != c
    ensures !IsBase(c) ==> r == c
  {
    match c
    case 'A' => 'T'
    case 'T' => 'A'
    case 'G' => 'C'
    case 'C' => 'G'
    case _ => c
  }

  /** Reverse the string, then complement every character. */
  function ReverseComplement(s: string): (r: string)
    ensures |r| == |s|
  {
    if s == [] then []
    else [Complement(s[|s| - 1])] + ReverseComplement(s[..|s| - 1])
  }

  /** Position `k` of the reverse complement holds the complement of position `|s| - 1 - k`. */
  lemma {:induction false} ReverseComplementAt(s: string, k: nat)
    requires k < |s|
    ensures ReverseComplement(s)[k] == Complement(s[|s| - 1 - k])
  {
    if k > 0 {
      ReverseComplementAt(s[..|s| - 1], k - 1);
    }
  }

  /** Position `k` holds the complement of its mirror position `|s| - 1 - k`. */
  predicate MirrorsAt(s: string, k: nat)
    requires k < |s|
  {
    s[k] == Complement(s[|s| - 1 - k])
  }

  /** A string equals its reverse complement exactly when it mirrors at every position. */
  lemma ReverseComplementFixedPoint(s: string)
    ensures s == ReverseComplement(s) <==> forall k :: 0 <= k < |s| ==> MirrorsAt(s, k)
  {
    var r := ReverseComplement(s);
    forall k | 0 <= k < |s|
      ensures r[k] == s[k] <==> MirrorsAt(s, k)
    {
      ReverseComplementAt(s, k);
    }
    if forall k :: 0 <= k < |s| ==> MirrorsAt(s, k) {
      assert forall k :: 0 <= k < |s| ==> r[k] == s[k];
    }
  }

  /**
   * `is_palindrome`: the string equals its own reverse complement, that is, every character
   * is the complement of its mirror image.
   */
  function IsPalindrome(s: string): (b: bool)
    ensures b <==> forall k :: 0 <= k < |s| ==> MirrorsAt(s, k)
  {
    ReverseComplementFixedPoint(s);
    s == ReverseComplement(s)
  }

  /** Complementing twice gives back the character. */
  lemma ComplementInvolution(c: char)
    ensures Complement(Complement(c)) == c
  {
  }

  /** Reverse complement is an involution. */
  lemma ReverseComplementInvolution(s: string)
    ensures ReverseComplement(ReverseComplement(s)) == s
  {
    var r := ReverseComplement(s);
    var rr := ReverseComplement(r);
    forall k | 0 <= k < |s|
      ensures rr[k] == s[k]
    {
      ReverseComplementAt(r, k);
      ReverseComplementAt(s, |s| - 1 - k);
      ComplementInvolution(s[k]);
    }
  }

  /** Over A, C, G, T no string of odd length is its own reverse complement. */
  lemma NoOddPalindromeOverBases(s: string)
    requires forall k :: 0 <= k < |s| ==> IsBase(s[k])
    requires |s| % 2 == 1
    ensures !IsPalindrome(s)
  {
    var m := |s| / 2;
    ReverseComplementAt(s, m);
    assert |s| - 1 - m == m;
  }

  /** With a character outside the table, odd palindromes do exist. */
  lemma OddPalindromeWithOtherCharacter()
    ensures IsPalindrome("ANT")
  {
    var s := "ANT";
    forall k | 0 <= k < |s|
      ensures ReverseComplement(s)[k] == s[k]
    {
      ReverseComplementAt(s, k);
    }
  }

  /** How many start offsets `range(len(s) - min_length + 1)` visits. */
  function StartCount(s: string, minLength: nat): nat
  {
    if minLength <= |s| + 1 then |s| - minLength + 1 else 0
  }

  /** How many lengths `range(min_length, min(max_length + 1, len(s) - i + 1), 2)` visits. */
  function LengthCount(s: string, i: nat, minLength: nat, maxLength: int): nat
  {
    var hi := Min(maxLength + 1, |s| - i + 1);
    if hi > minLength then (hi - minLength + 1) / 2 else 0
  }

  /** The `t`-th length is tested exactly when it lies below the inner loop's bound. */
  lemma LengthTested(s: string, i: nat, minLength: nat, maxLength: int, t: nat)
    ensures t < LengthCount(s, i, minLength, maxLength) <==> minLength + 2 * t < Min(maxLength + 1, |s| - i + 1)
  {
  }

  /** What a reported entry must satisfy. */
  predicate IsPalindromeEntry(s: string, minLength: nat, maxLength: int, e: Entry)
  {
    var (p, i) := e;
    && i + |p| <= |s|
    && p == Window(s, i, |p|)
    && minLength <= |p| <= maxLength
    && (|p| - minLength) % 2 == 0
    && IsPalindrome(p)
  }

  /** Scan order: by start offset, then by increasing length. */
  predicate Before(e: Entry, f: Entry)
  {
    e.1 < f.1 || (e.1 == f.1 && |e.0| < |f.0|)
  }

  /** The `t`-th tested length at start `i` fits in the sequence and under the maximum. */
  lemma TestedLengthFits(s: string, i: nat, minLength: nat, maxLength: int, t: nat)
    requires t < LengthCount(s, i, minLength, maxLength)
    ensures i + minLength + 2 * t <= |s| && minLength + 2 * t <= maxLength
  {
  }

  /** Every length of the right parity that fits is among those tested at start `i`. */
  lemma FittingLengthIsTested(s: string, i: nat, minLength: nat, maxLength: int, len: nat)
    requires minLength <= len <= maxLength && i + len <= |s| && (len - minLength) % 2 == 0
    ensures (len - minLength) / 2 < LengthCount(s, i, minLength, maxLength)
  {
  }

  /** The entries found at start `i` among its first `t` candidate lengths. */
  function EntriesAt(s: string, i: nat, minLength: nat, maxLength: int, t: nat): seq<Entry>
    requires t <= LengthCount(s, i, minLength, maxLength)
  {
    if t == 0 then []
    else
      TestedLengthFits(s, i, minLength, maxLength, t - 1);
      var p := Window(s, i, minLength + 2 * (t - 1));
      EntriesAt(s, i, minLength, maxLength, t - 1) + (if IsPalindrome(p) then [(p, i)] else [])
  }

  /** The entries found at every start offset below `n`, in scan order. */
  function EntriesBelow(s: string, minLength: nat, maxLength: int, n: nat): seq<Entry>
    requires n <= StartCount(s, minLength)
  {
    if n == 0 then []
    else
      EntriesBelow(s, minLength, maxLength, n - 1)
      + EntriesAt(s, n - 1, minLength, maxLength, LengthCount(s, n - 1, minLength, maxLength))
  }

  /** Every entry starts at `i`, is shorter than the `t`-th tested length and qualifies. */
  predicate AllAt(s: string, i: nat, minLength: nat, maxLength: int, t: nat, r: seq<Entry>)
  {
    forall k :: 0 <= k < |r| ==>
      r[k].1 == i && |r[k].0| < minLength + 2 * t && IsPalindromeEntry(s, minLength, maxLength, r[k])
  }

  /** Every palindromic window at `i` among the first `t` tested lengths is in `r`. */
  predicate CompleteAt(s: string, i: nat, minLength: nat, maxLength: int, t: nat, r: seq<Entry>)
  {
    forall len: nat ::
      (minLength <= len < minLength + 2 * t && i + len <= |s| && (len - minLength) % 2 == 0
       && IsPalindrome(Window(s, i, len))) ==> (Window(s, i, len), i) in r
  }

  /** One more tested length `j` at start `i` appends at most that window. */
  lemma EntriesAtStep(s: string, i: nat, minLength: nat, maxLength: int, t: nat, j: nat, before: seq<Entry>)
    requires t < LengthCount(s, i, minLength, maxLength) && j == minLength + 2 * t
    ensures i + j <= |s|
    ensures EntriesAt(s, i, minLength, maxLength, t + 1)
            == EntriesAt(s, i, minLength, maxLength, t) + (if IsPalindrome(s[i..i + j]) then [(s[i..i + j], i)] else [])
    ensures IsPalindrome(s[i..i + j]) ==>
              before + EntriesAt(s, i, minLength, maxLength, t + 1)
              == before + EntriesAt(s, i, minLength, maxLength, t) + [(s[i..i + j], i)]
    ensures !IsPalindrome(s[i..i + j]) ==>
              before + EntriesAt(s, i, minLength, maxLength, t + 1) == before + EntriesAt(s, i, minLength, maxLength, t)
  {
    TestedLengthFits(s, i, minLength, maxLength, t);
    var prev := EntriesAt(s, i, minLength, maxLength, t);
    var step: seq<Entry> := if IsPalindrome(s[i..i + j]) then [(s[i..i + j], i)] else [];
    assert EntriesAt(s, i, minLength, maxLength, t + 1) == prev + step;
    assert before + (prev + step) == before + prev + step;
  }

  /**
   * At start `i`, the first `t` tested lengths yield only palindromic windows starting at `i`,
   * by increasing length.
   */
  lemma {:induction false} EntriesAtSound(s: string, i: nat, minLength: nat, maxLength: int, t: nat)
    requires t <= LengthCount(s, i, minLength, maxLength)
    ensures AllAt(s, i, minLength, maxLength, t, EntriesAt(s, i, minLength, maxLength, t))
    ensures forall k, l :: 0 <= k < l < |EntriesAt(s, i, minLength, maxLength, t)| ==>
              |EntriesAt(s, i, minLength, maxLength, t)[k].0| < |EntriesAt(s, i, minLength, maxLength, t)[l].0|
  {
    if t > 0 {
      EntriesAtSound(s, i, minLength, maxLength, t - 1);
      TestedLengthFits(s, i, minLength, maxLength, t - 1);
      var prev := EntriesAt(s, i, minLength, maxLength, t - 1);
      var p := Window(s, i, minLength + 2 * (t - 1));
      var step: seq<Entry> := if IsPalindrome(p) then [(p, i)] else [];
      var r := EntriesAt(s, i, minLength, maxLength, t);
      assert r == prev + step;
      forall k | 0 <= k < |r|
        ensures r[k].1 == i && |r[k].0| < minLength + 2 * t && IsPalindromeEntry(s, minLength, maxLength, r[k])
      {
        if k < |prev| {
          assert r[k] == prev[k];
        } else {
          assert r[k] == (p, i);
        }
      }
      forall k, l | 0 <= k < l < |r|
        ensures |r[k].0| < |r[l].0|
      {
        assert r[k] == prev[k];
        if l >= |prev| {
          assert r[l] == (p, i);
        } else {
          assert r[l] == prev[l];
        }
      }
    }
  }

  /** At start `i`, every palindromic window among the first `t` tested lengths is found. */
  lemma {:induction false} EntriesAtComplete(s: string, i: nat, minLength: nat, maxLength: int, t: nat)
    requires t <= LengthCount(s, i, minLength, maxLength)
    ensures CompleteAt(s, i, minLength, maxLength, t, EntriesAt(s, i, minLength, maxLength, t))
  {
    if t > 0 {
      EntriesAtComplete(s, i, minLength, maxLength, t - 1);
      var prev := EntriesAt(s, i, minLength, maxLength, t - 1);
      var len := minLength + 2 * (t - 1);
      TestedLengthFits(s, i, minLength, maxLength, t - 1);
      var p := Window(s, i, len);
      var r := EntriesAt(s, i, minLength, maxLength, t);
      var step: seq<Entry> := if IsPalindrome(p) then [(p, i)] else [];
      assert r == prev + step;
      forall len': nat | minLength <= len' < minLength + 2 * t && i + len' <= |s| && (len' - minLength) % 2 == 0
                         && IsPalindrome(Window(s, i, len'))
        ensures (Window(s, i, len'), i) in r
      {
        var q := (len' - minLength) / 2;
        assert len' == minLength + 2 * q;
        if q == t - 1 {
          assert Window(s, i, len') == p;
          assert r[|prev|] == (p, i);
        } else {
          assert minLength <= len' < minLength + 2 * (t - 1);
          var k :| 0 <= k < |prev| && prev[k] == (Window(s, i, len'), i);
          assert r[k] == prev[k];
        }
      }
    }
  }

  /** At start `i`, the full scan reports every palindromic window of a tested length. */
  lemma AllFittingLengthsTested(s: string, i: nat, minLength: nat, maxLength: int)
    requires i <= |s|
    ensures forall len: nat ::
              (minLength <= len <= maxLength && i + len <= |s| && (len - minLength) % 2 == 0
               && IsPalindrome(Window(s, i, len)))
              ==> (Window(s, i, len), i) in EntriesAt(s, i, minLength, maxLength, LengthCount(s, i, minLength, maxLength))
  {
    var r := EntriesAt(s, i, minLength, maxLength, LengthCount(s, i, minLength, maxLength));
    EntriesAtComplete(s, i, minLength, maxLength, LengthCount(s, i, minLength, maxLength));
    forall len: nat | minLength <= len <= maxLength && i + len <= |s| && (len - minLength) % 2 == 0
                      && IsPalindrome(Window(s, i, len))
      ensures (Window(s, i, len), i) in r
    {
      FittingLengthIsTested(s, i, minLength, maxLength, len);
    }
  }

  /** Below start `n`, the scan yields only palindromic windows of tested lengths, in scan order. */
  lemma {:induction false} EntriesBelowSound(s: string, minLength: nat, maxLength: int, n: nat)
    requires n <= StartCount(s, minLength)
    ensures forall k :: 0 <= k < |EntriesBelow(s, minLength, maxLength, n)| ==>
              EntriesBelow(s, minLength, maxLength, n)[k].1 < n
              && IsPalindromeEntry(s, minLength, maxLength, EntriesBelow(s, minLength, maxLength, n)[k])
    ensures forall k, l :: 0 <= k < l < |EntriesBelow(s, minLength, maxLength, n)| ==>
              Before(EntriesBelow(s, minLength, maxLength, n)[k], EntriesBelow(s, minLength, maxLength, n)[l])
  {
    if n > 0 {
      EntriesBelowSound(s, minLength, maxLength, n - 1);
      EntriesAtSound(s, n - 1, minLength, maxLength, LengthCount(s, n - 1, minLength, maxLength));
    }
  }

  /** Below start `n`, every palindromic window of a tested length is found. */
  lemma {:induction false} EntriesBelowComplete(s: string, minLength: nat, maxLength: int, n: nat)
    requires n <= StartCount(s, minLength)
    ensures forall i: nat, len: nat ::
              (i < n && i + len <= |s| && minLength <= len <= maxLength && (len - minLength) % 2 == 0
               && IsPalindrome(Window(s, i, len))) ==> (Window(s, i, len), i) in EntriesBelow(s, minLength, maxLength, n)
  {
    if n > 0 {
      EntriesBelowComplete(s, minLength, maxLength, n - 1);
      AllFittingLengthsTested(s, n - 1, minLength, maxLength);
      var prev := EntriesBelow(s, minLength, maxLength, n - 1);
      var at := EntriesAt(s, n - 1, minLength, maxLength, LengthCount(s, n - 1, minLength, maxLength));
      assert EntriesBelow(s, minLength, maxLength, n) == prev + at;
      forall i: nat, len: nat | i < n && i + len <= |s| && minLength <= len <= maxLength && (len - minLength) % 2 == 0
                                && IsPalindrome(Window(s, i, len))
        ensures (Window(s, i, len), i) in prev + at
      {
        if i < n - 1 {
          assert (Window(s, i, len), i) in prev;
        } else {
          assert (Window(s, i, len), i) in at;
        }
      }
    }
  }

  /** The result of `find_palindromes`: the entries found at every start offset, in scan order. */
  function Palindromes(s: string, minLength: nat, maxLength: int): seq<Entry>
  {
    EntriesBelow(s, minLength, maxLength, StartCount(s, minLength))
  }

  /**
   * `find_palindromes` reports exactly the palindromic windows of the tested lengths,
   * each once, ordered by start offset and then by length.
   */
  lemma PalindromesSpec(s: string, minLength: nat, maxLength: int)
    ensures forall k :: 0 <= k < |Palindromes(s, minLength, maxLength)| ==>
              IsPalindromeEntry(s, minLength, maxLength, Palindromes(s, minLength, maxLength)[k])
    ensures forall k, l :: 0 <= k < l < |Palindromes(s, minLength, maxLength)| ==>
              Before(Palindromes(s, minLength, maxLength)[k], Palindromes(s, minLength, maxLength)[l])
    ensures forall i: nat, len: nat ::
              (i + len <= |s| && minLength <= len <= maxLength && (len - minLength) % 2 == 0
               && IsPalindrome(Window(s, i, len))) ==> (Window(s, i, len), i) in Palindromes(s, minLength, maxLength)
  {
    EntriesBelowSound(s, minLength, maxLength, StartCount(s, minLength));
    EntriesBelowComplete(s, minLength, maxLength, StartCount(s, minLength));
  }

  /** Every reported palindrome is its own reverse complement, hence unchanged by applying it again. */
  lemma ReportedPalindromeIsFixedPoint(s: string, minLength: nat, maxLength: int, e: Entry)
    requires e in Palindromes(s, minLength, maxLength)
    ensures ReverseComplement(e.0) == e.0
    ensures ReverseComplement(ReverseComplement(e.0)) == e.0
  {
    PalindromesSpec(s, minLength, maxLength);
    var k :| 0 <= k < |Palindromes(s, minLength, maxLength)| && Palindromes(s, minLength, maxLength)[k] == e;
    assert IsPalindromeEntry(s, minLength, maxLength, Palindromes(s, minLength, maxLength)[k]);
    ReverseComplementInvolution(e.0);
  }

  lemma PalindromesExample()
    ensures Palindromes("ACGT", 4, 4) == [("ACGT", 0)]
  {
    var s := "ACGT";
    assert StartCount(s, 4) == 1 && LengthCount(s, 0, 4, 4) == 1;
    assert Window(s, 0, 4) == s;
    forall k | 0 <= k < |s|
      ensures ReverseComplement(s)[k] == s[k]
    {
      ReverseComplementAt(s, k);
    }
    assert EntriesAt(s, 0, 4, 4, 1) == [(s, 0)];
    assert EntriesBelow(s, 4, 4, 1) == EntriesBelow(s, 4, 4, 0) + EntriesAt(s, 0, 4, 4, 1);
  }

  /** The nested scan of `find_palindromes`, appending in (start, length) order. */
  method FindPalindromes(sequence: string, minLength: nat, maxLength: int) returns (palindromes: seq<Entry>)
    ensures palindromes == Palindromes(sequence, minLength, maxLength)
  {
    palindromes := [];
    var i: nat := 0;
    while i < |sequence| - minLength + 1
      invariant 0 <= i <= StartCount(sequence, minLength)
      invariant palindromes == EntriesBelow(sequence, minLength, maxLength, i)
    {
      ghost var before := palindromes;
      ghost var t := 0;
      var j := minLength;
      LengthTested(sequence, i, minLength, maxLength, t);
      while j < Min(maxLength + 1, |sequence| - i + 1)
        invariant j == minLength + 2 * t
        invariant t <= LengthCount(sequence, i, minLength, maxLength)
        invariant t < LengthCount(sequence, i, minLength, maxLength) <==> j < Min(maxLength + 1, |sequence| - i + 1)
        invariant palindromes == before + EntriesAt(sequence, i, minLength, maxLength, t)
      {
        EntriesAtStep(sequence, i, minLength, maxLength, t, j, before);
        LengthTested(sequence, i, minLength, maxLength, t + 1);
        var substr := sequence[i..i + j];
        if IsPalindrome(substr) {
          palindromes := palindromes + [(substr, i)];
        }
        j := j + 2;
        t := t + 1;
      }
      assert t == LengthCount(sequence, i, minLength, maxLength);
      assert palindromes == EntriesBelow(sequence, minLength, maxLength, i + 1);
      i := i + 1;
    }
  }
}
