/**
 * The line-processing state machine of `read_fasta`: header lines start a record, other
 * lines are stripped and appended to the current record, and each record is stored under
 * its header's identifier when the next header arrives or the input ends.
 */
module FastaReader {

  datatype Option<T> = None | Some(value: T)

  /** The characters Python's `str.strip()` removes (those for which `str.isspace()` holds). */
  predicate IsSpace(c: char)
  {
    var n := c as int;
    || 0x09 <= n <= 0x0D
    || 0x1C <= n <= 0x20
    || n == 0x85 || n == 0xA0 || n == 0x1680
    || 0x2000 <= n <= 0x200A
    || n == 0x2028 || n == 0x2029 || n == 0x202F || n == 0x205F || n == 0x3000
  }

  /** Drops leading whitespace. */
  function TrimStart(s: string): string
  {
    if s != [] && IsSpace(s[0]) then TrimStart(s[1..]) else s
  }

  /** Drops trailing whitespace. */
  function TrimEnd(s: string): string
  {
    if s != [] && IsSpace(s[|s| - 1]) then TrimEnd(s[..|s| - 1]) else s
  }

  /** `str.strip()`: drops whitespace at both ends, and only whitespace. */
  function Strip(s: string): (r: string)
    ensures |r| <= |s|
    ensures r == [] || (!IsSpace(r[0]) && !IsSpace(r[|r| - 1]))
  {
    TrimStartSpec(s);
    TrimEndSpec(TrimStart(s));
    TrimEnd(TrimStart(s))
  }

  lemma {:induction false} TrimStartSpec(s: string)
    ensures |TrimStart(s)| <= |s|
    ensures TrimStart(s) == s[|s| - |TrimStart(s)|..]
    ensures forall k :: 0 <= k < |s| - |TrimStart(s)| ==> IsSpace(s[k])
    ensures TrimStart(s) == [] || !IsSpace(TrimStart(s)[0])
  {
    if s != [] && IsSpace(s[0]) {
      var r := TrimStart(s[1..]);
      TrimStartSpec(s[1..]);
      assert TrimStart(s) == r;
      assert s[1..][|s| - 1 - |r|..] == s[|s| - |r|..];
      forall k | 0 <= k < |s| - |r|
        ensures IsSpace(s[k])
      {
        if k > 0 {
          assert s[k] == s[1..][k - 1];
        }
      }
    }
  }

  lemma {:induction false} TrimEndSpec(s: string)
    ensures |TrimEnd(s)| <= |s|
    ensures TrimEnd(s) == s[..|TrimEnd(s)|]
    ensures forall k :: |TrimEnd(s)| <= k < |s| ==> IsSpace(s[k])
    ensures TrimEnd(s) == [] || !IsSpace(TrimEnd(s)[|TrimEnd(s)| - 1])
  {
    if s != [] && IsSpace(s[|s| - 1]) {
      TrimEndSpec(s[..|s| - 1]);
    }
  }

  /** How many whitespace characters `str.strip()` removes at the front. */
  function LeadingSpace(s: string): nat
  {
    TrimStartSpec(s);
    |s| - |TrimStart(s)|
  }

  /**
   * Stripping keeps one contiguous slice of the line, removes only whitespace, and leaves
   * no whitespace at either end.
   */
  lemma StripSpec(s: string)
    ensures LeadingSpace(s) + |Strip(s)| <= |s|
    ensures Strip(s) == s[LeadingSpace(s)..LeadingSpace(s) + |Strip(s)|]
    ensures forall k :: 0 <= k < LeadingSpace(s) ==> IsSpace(s[k])
    ensures forall k :: LeadingSpace(s) + |Strip(s)| <= k < |s| ==> IsSpace(s[k])
    ensures Strip(s) == [] || (!IsSpace(Strip(s)[0]) && !IsSpace(Strip(s)[|Strip(s)| - 1]))
  {
    var t := TrimStart(s);
    TrimStartSpec(s);
    TrimEndSpec(t);
    var r := Strip(s);
    var a := |s| - |t|;
    assert r == s[a..a + |r|];
    assert r != [] ==> r[0] == t[0];
    forall k | a + |r| <= k < |s|
      ensures IsSpace(s[k])
    {
      assert s[k] == t[k - a];
    }
  }

  /** The identifier a line announces: the stripped line after its leading `>`, if it has one. */
  function HeaderId(line: string): Option<string>
  {
    var t := Strip(line);
    if |t| > 0 && t[0] == '>' then Some(t[1..]) else None
  }

  /**
   * A line announces an identifier exactly when its stripped form starts with `>`, and putting
   * the `>` back in front of the identifier gives the stripped line.
   */
  lemma HeaderIdSpec(line: string)
    ensures HeaderId(line).Some? <==> |Strip(line)| > 0 && Strip(line)[0] == '>'
    ensures HeaderId(line).Some? ==> Strip(line) == ['>'] + HeaderId(line).value
    ensures HeaderId(line).Some? ==> |HeaderId(line).value| < |line|
  {
    var t := Strip(line);
    if |t| > 0 && t[0] == '>' {
      assert t == ['>'] + t[1..];
    }
  }

  predicate IsHeader(line: string)
  {
    HeaderId(line).Some?
  }

  /** The total length of the parts. */
  function TotalLength(parts: seq<string>): nat
  {
    if parts == [] then 0 else TotalLength(parts[..|parts| - 1]) + |parts[|parts| - 1]|
  }

  /** `''.join(parts)`: as long as all the parts together. */
  function Concat(parts: seq<string>): (r: string)
    ensures |r| == TotalLength(parts)
  {
    if parts == [] then "" else Concat(parts[..|parts| - 1]) + parts[|parts| - 1]
  }

  /** Joining a list of parts is joining its two halves and concatenating the results. */
  lemma {:induction false} ConcatAppend(a: seq<string>, b: seq<string>)
    ensures Concat(a + b) == Concat(a) + Concat(b)
    decreases |b|
  {
    if b != [] {
      var b' := b[..|b| - 1];
      assert (a + b)[..|a + b| - 1] == a + b';
      ConcatAppend(a, b');
    } else {
      assert a + b == a;
    }
  }

  /** The stripped lines `lines[from..to]`, concatenated. */
  function Joined(lines: seq<string>, from: nat, to: nat): string
    requires from <= to <= |lines|
  {
    if from == to then "" else Joined(lines, from, to - 1) + Strip(lines[to - 1])
  }

  /** Where the record whose data starts at `from` ends: the next header, or the end of input. */
  function RecordEnd(lines: seq<string>, from: nat): (e: nat)
    requires from <= |lines|
    ensures from <= e <= |lines|
    ensures e < |lines| ==> IsHeader(lines[e])
    ensures forall k :: from <= k < e ==> !IsHeader(lines[k])
    decreases |lines| - from
  {
    if from == |lines| || IsHeader(lines[from]) then from else RecordEnd(lines, from + 1)
  }

  /** The non-empty identifiers announced by the headers among `lines[..n]`. */
  function HeaderIds(lines: seq<string>, n: nat): set<string>
    requires n <= |lines|
  {
    if n == 0 then {}
    else
      var id := HeaderId(lines[n - 1]);
      HeaderIds(lines, n - 1) + (if id.Some? && id.value != "" then {id.value} else {})
  }

  /** An identifier is collected exactly when some header before `n` announces it and it is non-empty. */
  lemma {:induction false} HeaderIdsSpec(lines: seq<string>, n: nat, id: string)
    requires n <= |lines|
    ensures id in HeaderIds(lines, n) <==> id != "" && exists h :: 0 <= h < n && HeaderId(lines[h]) == Some(id)
  {
    if n > 0 {
      HeaderIdsSpec(lines, n - 1, id);
      if id != "" && HeaderId(lines[n - 1]) != Some(id) {
        if exists h :: 0 <= h < n && HeaderId(lines[h]) == Some(id) {
          var h :| 0 <= h < n && HeaderId(lines[h]) == Some(id);
          assert h < n - 1;
        }
      }
    }
  }

  /** Lines without headers add no identifiers. */
  lemma {:induction false} HeaderIdsSkip(lines: seq<string>, a: nat, b: nat)
    requires a <= b <= |lines|
    requires forall k :: a <= k < b ==> !IsHeader(lines[k])
    ensures HeaderIds(lines, b) == HeaderIds(lines, a)
    decreases b - a
  {
    if a < b {
      HeaderIdsSkip(lines, a, b - 1);
    }
  }

  /** Line `h` is a header whose identifier no later header before `n` repeats. */
  predicate LastHeaderBefore(lines: seq<string>, h: nat, n: nat)
    requires h < n <= |lines|
  {
    && IsHeader(lines[h])
    && forall h' :: h < h' < n ==> HeaderId(lines[h']) != HeaderId(lines[h])
  }

  /**
   * Every non-empty identifier whose last header before line `n` is line `h` is stored with
   * the stripped lines of that record.
   */
  ghost predicate RecordsStored(lines: seq<string>, sequences: map<string, string>, n: nat)
    requires n <= |lines|
  {
    forall h {:trigger LastHeaderBefore(lines, h, n)} ::
      0 <= h < n && LastHeaderBefore(lines, h, n) && HeaderId(lines[h]).value != "" ==>
      HeaderId(lines[h]).value in sequences
      && sequences[HeaderId(lines[h]).value] == Joined(lines, h + 1, RecordEnd(lines, h + 1))
  }

  /**
   * Storing the record of header `cur`, which ends at line `e` (the next header or the end of
   * input), extends what is stored from the headers before `cur` to the headers before `e`.
   */
  lemma FlushRecord(lines: seq<string>, sequences: map<string, string>, cur: nat, e: nat)
    requires cur < e <= |lines|
    requires IsHeader(lines[cur]) && (e == |lines| || IsHeader(lines[e]))
    requires forall k :: cur < k < e ==> !IsHeader(lines[k])
    requires RecordsStored(lines, sequences, cur)
    ensures var id := HeaderId(lines[cur]).value;
            RecordsStored(lines, if id != "" then sequences[id := Joined(lines, cur + 1, e)] else sequences, e)
  {
    var id := HeaderId(lines[cur]).value;
    var flushed := if id != "" then sequences[id := Joined(lines, cur + 1, e)] else sequences;
    assert RecordEnd(lines, cur + 1) == e;
    forall h | 0 <= h < e && LastHeaderBefore(lines, h, e) && HeaderId(lines[h]).value != ""
      ensures HeaderId(lines[h]).value in flushed
      ensures flushed[HeaderId(lines[h]).value] == Joined(lines, h + 1, RecordEnd(lines, h + 1))
    {
      if h != cur {
        assert h < cur;
        assert LastHeaderBefore(lines, h, cur);
        assert HeaderId(lines[h]) != HeaderId(lines[cur]);
      }
    }
  }

  /**
   * Storing the record of header `cur`, which ends at line `e`, extends the stored identifiers
   * from the headers before `cur` to the headers before `e`.
   */
  lemma FlushKeys(lines: seq<string>, sequences: map<string, string>, cur: nat, e: nat)
    requires cur < e <= |lines| && IsHeader(lines[cur])
    requires forall k :: cur < k < e ==> !IsHeader(lines[k])
    requires sequences.Keys == HeaderIds(lines, cur)
    ensures var id := HeaderId(lines[cur]).value;
            (if id != "" then sequences[id := Joined(lines, cur + 1, e)] else sequences).Keys == HeaderIds(lines, e)
  {
    var id := HeaderId(lines[cur]).value;
    var m := if id != "" then sequences[id := Joined(lines, cur + 1, e)] else sequences;
    assert m.Keys == HeaderIds(lines, cur + 1) by {
      assert HeaderIds(lines, cur + 1) == HeaderIds(lines, cur) + (if id != "" then {id} else {});
    }
    HeaderIdsSkip(lines, cur + 1, e);
  }

  /** The store `read_fasta` performs when a record closes: only under a non-empty identifier. */
  function Flush(currentId: Option<string>, currentSeq: seq<string>, sequences: map<string, string>): (m: map<string, string>)
    ensures currentId.Some? && currentId.value != "" ==> currentId.value in m && m[currentId.value] == Concat(currentSeq)
    ensures m.Keys == sequences.Keys + (if currentId.Some? && currentId.value != "" then {currentId.value} else {})
    ensures var touched := if currentId.Some? && currentId.value != "" then {currentId.value} else {};
            m - touched == sequences - touched
    ensures currentId.None? || currentId.value == "" ==> m == sequences
  {
    if currentId.Some? && currentId.value != "" then sequences[currentId.value := Concat(currentSeq)] else sequences
  }

  /**
   * The state after the first `i` lines: `cur` is the last header so far (-1 before the first),
   * the buffer holds the stripped lines after it, and every record closed before it is stored.
   */
  ghost predicate ScanState(lines: seq<string>, i: nat, cur: int, currentId: Option<string>,
                            currentSeq: seq<string>, sequences: map<string, string>)
    requires i <= |lines|
  {
    && -1 <= cur && (cur == -1 || cur < i)
    && (cur == -1 ==> currentId == None && sequences == map[])
    && (cur >= 0 ==> currentId == HeaderId(lines[cur]) && currentId.Some?)
    && (forall k :: cur < k < i ==> !IsHeader(lines[k]))
    && Concat(currentSeq) == Joined(lines, cur + 1, i)
    && (cur >= 0 ==> sequences.Keys == HeaderIds(lines, cur) && RecordsStored(lines, sequences, cur))
  }

  /** A data line is stripped and appended to the buffer. */
  lemma DataLine(lines: seq<string>, i: nat, cur: int, currentId: Option<string>,
                 currentSeq: seq<string>, sequences: map<string, string>)
    requires i < |lines| && !IsHeader(lines[i])
    requires ScanState(lines, i, cur, currentId, currentSeq, sequences)
    ensures ScanState(lines, i + 1, cur, currentId, currentSeq + [Strip(lines[i])], sequences)
  {
    var line := Strip(lines[i]);
    assert (currentSeq + [line])[..|currentSeq|] == currentSeq;
  }

  /** A header line closes the current record and opens a new, empty one. */
  lemma HeaderLine(lines: seq<string>, i: nat, cur: int, currentId: Option<string>,
                   currentSeq: seq<string>, sequences: map<string, string>)
    requires i < |lines| && IsHeader(lines[i])
    requires ScanState(lines, i, cur, currentId, currentSeq, sequences)
    ensures ScanState(lines, i + 1, i, HeaderId(lines[i]), [], Flush(currentId, currentSeq, sequences))
  {
    var flushed := Flush(currentId, currentSeq, sequences);
    HeaderIdsSkip(lines, cur + 1, i);
    if cur >= 0 {
      var id := HeaderId(lines[cur]).value;
      FlushKeys(lines, sequences, cur, i);
      FlushRecord(lines, sequences, cur, i);
      assert flushed == if id != "" then sequences[id := Joined(lines, cur + 1, i)] else sequences;
    } else {
      assert flushed == map[];
      assert RecordsStored(lines, flushed, i);
    }
  }

  /** The final flush stores the last record; the result is then fully determined by the lines. */
  lemma EndOfInput(lines: seq<string>, cur: int, currentId: Option<string>,
                   currentSeq: seq<string>, sequences: map<string, string>)
    requires ScanState(lines, |lines|, cur, currentId, currentSeq, sequences)
    ensures Flush(currentId, currentSeq, sequences).Keys == HeaderIds(lines, |lines|)
    ensures RecordsStored(lines, Flush(currentId, currentSeq, sequences), |lines|)
  {
    var flushed := Flush(currentId, currentSeq, sequences);
    if cur >= 0 {
      var id := HeaderId(lines[cur]).value;
      var stored := if id != "" then sequences[id := Joined(lines, cur + 1, |lines|)] else sequences;
      FlushKeys(lines, sequences, cur, |lines|);
      FlushRecord(lines, sequences, cur, |lines|);
      assert flushed == stored;
    } else {
      HeaderIdsSkip(lines, 0, |lines|);
      assert flushed == map[];
      assert RecordsStored(lines, flushed, |lines|);
    }
  }

  /**
   * The line loop of `read_fasta`. The result maps each non-empty identifier announced by a
   * header to the stripped lines that follow the LAST header announcing it, up to the next
   * header or the end of input. Lines before the first header, and records under a bare `>`,
   * are dropped.
   */
  method ReadFasta(lines: seq<string>) returns (sequences: map<string, string>)
    ensures sequences.Keys == HeaderIds(lines, |lines|)
    ensures forall h {:trigger LastHeaderBefore(lines, h, |lines|)} ::
              0 <= h < |lines| && LastHeaderBefore(lines, h, |lines|) && HeaderId(lines[h]).value != "" ==>
              HeaderId(lines[h]).value in sequences
              && sequences[HeaderId(lines[h]).value] == Joined(lines, h + 1, RecordEnd(lines, h + 1))
  {
    sequences := map[];
    var currentId: Option<string> := None;
    var currentSeq: seq<string> := [];
    ghost var cur: int := -1;
    for i := 0 to |lines|
      invariant ScanState(lines, i, cur, currentId, currentSeq, sequences)
    {
      var line := Strip(lines[i]);
      if |line| > 0 && line[0] == '>' {
        HeaderLine(lines, i, cur, currentId, currentSeq, sequences);
        if currentId.Some? && currentId.value != "" {
          sequences := sequences[currentId.value := Concat(currentSeq)];
        }
        currentId := Some(line[1..]);
        currentSeq := [];
        cur := i;
      } else {
        DataLine(lines, i, cur, currentId, currentSeq, sequences);
        currentSeq := currentSeq + [line];
      }
    }
    EndOfInput(lines, cur, currentId, currentSeq, sequences);
    if currentId.Some? && currentId.value != "" {
      sequences := sequences[currentId.value := Concat(currentSeq)];
    }
  }
}

/** Concrete inputs whose results the contract of `ReadFasta` fully determines. */
module FastaExamples {
  import opened FastaReader

  /** A line without surrounding whitespace is kept as is, with or without its line terminator. */
  lemma StripTerminated(s: string)
    requires s != [] && !IsSpace(s[0]) && !IsSpace(s[|s| - 1])
    ensures Strip(s) == s && Strip(s + "\n") == s
  {
    var t := s + "\n";
    assert TrimStart(t) == t && TrimStart(s) == s;
    assert t[..|t| - 1] == s;
  }

  lemma TwoRecordsHeaders()
    ensures HeaderId(">s1\n") == Some("s1") && HeaderId(">s2\n") == Some("s2")
    ensures HeaderId("ACGT\n") == None && HeaderId("GGGG\n") == None
    ensures Strip("ACGT\n") == "ACGT" && Strip("GGGG\n") == "GGGG"
  {
    StripTerminated(">s1");
    StripTerminated("ACGT");
    StripTerminated(">s2");
    StripTerminated("GGGG");
    assert ">s1" + "\n" == ">s1\n" && ">s2" + "\n" == ">s2\n";
    assert "ACGT" + "\n" == "ACGT\n" && "GGGG" + "\n" == "GGGG\n";
    assert ">s1"[1..] == "s1" && ">s2"[1..] == "s2";
  }

  lemma TwoRecordsLines(lines: seq<string>)
    requires |lines| == 5
    requires HeaderId(lines[0]) == Some("s1") && HeaderId(lines[3]) == Some("s2")
    requires HeaderId(lines[1]) == None && HeaderId(lines[2]) == None && HeaderId(lines[4]) == None
    requires Strip(lines[1]) == "ACGT" && Strip(lines[2]) == "ACGT" && Strip(lines[4]) == "GGGG"
    ensures HeaderIds(lines, 5) == {"s1", "s2"}
    ensures LastHeaderBefore(lines, 0, 5) && LastHeaderBefore(lines, 3, 5)
    ensures RecordEnd(lines, 1) == 3 && RecordEnd(lines, 4) == 5
  {
    assert HeaderIds(lines, 1) == {"s1"};
    assert HeaderIds(lines, 3) == {"s1"};
  }

  lemma TwoRecordsResult(lines: seq<string>, sequences: map<string, string>)
    requires |lines| == 5
    requires HeaderId(lines[0]) == Some("s1") && HeaderId(lines[3]) == Some("s2")
    requires HeaderId(lines[1]) == None && HeaderId(lines[2]) == None && HeaderId(lines[4]) == None
    requires Strip(lines[1]) == "ACGT" && Strip(lines[2]) == "ACGT" && Strip(lines[4]) == "GGGG"
    requires sequences.Keys == HeaderIds(lines, |lines|) && RecordsStored(lines, sequences, |lines|)
    ensures sequences == map["s1" := "ACGTACGT", "s2" := "GGGG"]
  {
    TwoRecordsLines(lines);
    assert Joined(lines, 1, 2) == "ACGT";
    assert Joined(lines, 1, 3) == "ACGTACGT" && Joined(lines, 4, 5) == "GGGG";
    assert sequences["s1"] == "ACGTACGT" by {
      assert LastHeaderBefore(lines, 0, |lines|);
    }
    assert sequences["s2"] == "GGGG" by {
      assert LastHeaderBefore(lines, 3, |lines|);
    }
  }

  /** The lines of the file `>s1\nACGT\nACGT\n>s2\nGGGG\n`, each with its line terminator. */
  method TwoRecords() returns (sequences: map<string, string>)
    ensures sequences == map["s1" := "ACGTACGT", "s2" := "GGGG"]
  {
    var lines := [">s1\n", "ACGT\n", "ACGT\n", ">s2\n", "GGGG\n"];
    sequences := ReadFasta(lines);
    TwoRecordsHeaders();
    TwoRecordsResult(lines, sequences);
  }

  lemma QuirksHeaders()
    ensures HeaderId(">a") == Some("a") && HeaderId(">") == Some("")
    ensures HeaderId("NN") == None && HeaderId("AC") == None && HeaderId("GG") == None && HeaderId("TT") == None
    ensures Strip("TT") == "TT"
  {
    StripTerminated("NN");
    StripTerminated(">a");
    StripTerminated("AC");
    StripTerminated(">");
    StripTerminated("GG");
    StripTerminated("TT");
    assert ">a"[1..] == "a" && ">"[1..] == "";
  }

  lemma QuirksLines(lines: seq<string>)
    requires |lines| == 7
    requires HeaderId(lines[1]) == Some("a") && HeaderId(lines[3]) == Some("") && HeaderId(lines[5]) == Some("a")
    requires HeaderId(lines[0]) == None && HeaderId(lines[2]) == None && HeaderId(lines[4]) == None
    requires HeaderId(lines[6]) == None && Strip(lines[6]) == "TT"
    ensures HeaderIds(lines, 7) == {"a"}
    ensures LastHeaderBefore(lines, 5, 7)
    ensures RecordEnd(lines, 6) == 7 && Joined(lines, 6, 7) == "TT"
  {
    assert HeaderIds(lines, 1) == {};
    assert HeaderIds(lines, 2) == {"a"};
    assert HeaderIds(lines, 4) == {"a"};
    assert HeaderIds(lines, 6) == {"a"};
  }

  lemma QuirksResult(lines: seq<string>, sequences: map<string, string>)
    requires |lines| == 7
    requires HeaderId(lines[1]) == Some("a") && HeaderId(lines[3]) == Some("") && HeaderId(lines[5]) == Some("a")
    requires HeaderId(lines[0]) == None && HeaderId(lines[2]) == None && HeaderId(lines[4]) == None
    requires HeaderId(lines[6]) == None && Strip(lines[6]) == "TT"
    requires sequences.Keys == HeaderIds(lines, |lines|) && RecordsStored(lines, sequences, |lines|)
    ensures sequences == map["a" := "TT"]
  {
    QuirksLines(lines);
    assert sequences["a"] == "TT";
  }

  /**
   * Data before the first header is dropped, a bare `>` opens a record that is never stored,
   * and a repeated identifier keeps only its last record.
   */
  method Quirks() returns (sequences: map<string, string>)
    ensures sequences == map["a" := "TT"]
  {
    var lines := ["NN", ">a", "AC", ">", "GG", ">a", "TT"];
    sequences := ReadFasta(lines);
    QuirksHeaders();
    QuirksResult(lines, sequences);
  }
}
