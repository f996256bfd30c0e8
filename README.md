# DNA pattern toolkit, modelled in Dafny

This project models the sequence-analysis core of `basic_pattern_investigation.py`:

- reading FASTA records from a list of lines;
- exact, overlapping motif search;
- GC percentage and per-base counts;
- repeated substrings with their offsets;
- reverse-complement palindromes;
- the per-sequence report that combines all of them.

Each function that works by updating a list or dictionary in a loop is a Dafny `method` with the
same loops. `FindMotif`, `FindRepeats` and `FindPalindromes` are proved equal to a pure
specification function, and the properties the code promises are proved about that function as
lemmas. `ReadFasta` is specified directly: its contract says which keys the result has and which
lines each value is made of, and a loop invariant over the lines read so far carries the proof.
Each function that only computes a value is a Dafny `function`.

| file | module | models |
|---|---|---|
| `bounds.dfy` | `Bounds` | the `min` in the loop bounds of `find_repeats` and `find_palindromes` |
| `motif.dfy` | `MotifScanner` | `find_motif` |
| `composition.dfy` | `Composition` | `str.count`, `calculate_gc_content` |
| `repeats.dfy` | `RepeatFinder` | `find_repeats` |
| `palindromes.dfy` | `PalindromeFinder` | `find_palindromes` and its inner `is_palindrome` |
| `fasta.dfy` | `FastaReader`, `FastaExamples` | the line loop of `read_fasta`, `str.strip` |
| `analyzer.dfy` | `SequenceAnalyzer` | `analyze_sequence` |

Strings are `seq<char>`. Offsets and lengths are `nat`. The GC percentage is an exact `real`.

Edge cases the model keeps exactly as the code has them:

- **Header identifiers.** The code strips the whole line and then drops the `>`. Whitespace right
  after the `>` is therefore kept: `"> s1"` gives the identifier `" s1"`. The identifier is not
  trimmed a second time.
- **Empty motif.** The code does not special-case an empty motif. It matches at every offset
  `0..len(sequence)` (`MotifScanner.EmptyMotifMatchesEverywhere`).
- **Identifiers are not unique.** A bare `>` gives an empty identifier, and that record is never
  stored. A repeated identifier keeps only its last record.
- **Odd palindromes.** Over `{A, C, G, T}`, no odd-length string equals its reverse complement.
  Characters outside the table pass through unchanged, so with them odd palindromes such as
  `"ANT"` do exist. An odd `min_length` makes the scan test only odd lengths, exactly as written.

## Model

| member | source | states |
|---|---|---|
| MotifScanner.OccurrencesBelowSpec | basic_pattern_investigation.py:42-46 | After scanning the offsets below `n`, the list holds exactly the matching offsets below `n`. It is strictly increasing. |
| MotifScanner.OccurrencesSpec | basic_pattern_investigation.py:42-46 | `find_motif` returns exactly the offsets `p` where `sequence[p:p+len(motif)] == motif`. The offsets are strictly increasing, so none repeats. |
| MotifScanner.OccurrencesOfLongerMotif | basic_pattern_investigation.py:43 | A motif longer than the sequence gives the empty list, not an error. |
| MotifScanner.EmptyMotifMatchesEverywhere | basic_pattern_investigation.py:43-44 | The empty motif matches at every offset `0..len(sequence)`. |
| MotifScanner.FindMotif | basic_pattern_investigation.py:42-46 | The sliding-window loop returns the occurrence list characterised above. |
| Composition.Count | basic_pattern_investigation.py:58 | `str.count` of one character is its multiplicity in the string. |
| Composition.GcCountBound | basic_pattern_investigation.py:58-60 | The G count plus the C count is at most the length. |
| Composition.BaseCountsBound | basic_pattern_investigation.py:127-132 | The A, T, G and C counts sum to at most the length. They sum to exactly the length if and only if every character is A, C, G or T. |
| Composition.Percentage | basic_pattern_investigation.py:60 | `(gc / n) * 100`, for `gc <= n` and `n > 0`, lies in [0, 100], and multiplied by `n` it gives `100 * gc`. |
| Composition.GcContent | basic_pattern_investigation.py:58-60 | The result is 0 for the empty sequence. Otherwise it times the length equals 100 times the G+C count. It always lies in [0, 100]. |
| Composition.GcContentExamples | basic_pattern_investigation.py:58-60 | `""` gives 0, `"GGCC"` gives 100 and `"ATAT"` gives 0. |
| PalindromeFinder.Complement | basic_pattern_investigation.py:95-99 | `complement.get(base, base)`: each of A, C, G, T maps to a different base, and every other character maps to itself. |
| PalindromeFinder.ReverseComplement | basic_pattern_investigation.py:99 | The reverse complement has the same length as its input. |
| PalindromeFinder.ReverseComplementAt | basic_pattern_investigation.py:95-99 | Character `k` of the reverse complement is the table complement of character `len - 1 - k`. Characters outside the table map to themselves. |
| PalindromeFinder.ReverseComplementFixedPoint | basic_pattern_investigation.py:98-100 | A string equals its reverse complement if and only if every character is the complement of its mirror-image character. |
| PalindromeFinder.IsPalindrome | basic_pattern_investigation.py:98-100 | `is_palindrome` holds if and only if every character is the complement of its mirror-image character. |
| PalindromeFinder.ComplementInvolution | basic_pattern_investigation.py:95 | Complementing twice gives back the character, whether or not it is in the table. |
| PalindromeFinder.ReverseComplementInvolution | basic_pattern_investigation.py:95-99 | The reverse complement is an involution. |
| PalindromeFinder.NoOddPalindromeOverBases | basic_pattern_investigation.py:98-100 | No odd-length string over {A, C, G, T} equals its own reverse complement. |
| PalindromeFinder.OddPalindromeWithOtherCharacter | basic_pattern_investigation.py:99-100 | Because of pass-through characters, the odd-length `"ANT"` is a palindrome. |
| PalindromeFinder.LengthTested | basic_pattern_investigation.py:103 | The `t`-th length `min_length + 2t` is tested if and only if it is below `min(max_length + 1, len - i + 1)`. |
| PalindromeFinder.TestedLengthFits | basic_pattern_investigation.py:103-104 | Every tested window fits in the sequence and is at most `max_length` long. |
| PalindromeFinder.FittingLengthIsTested | basic_pattern_investigation.py:103 | Every length that fits is tested, if it is at most `max_length` and has the parity of `min_length`. |
| PalindromeFinder.EntriesAtStep | basic_pattern_investigation.py:104-106 | Testing one more length appends that window if and only if it is a palindrome. |
| PalindromeFinder.EntriesAtSound | basic_pattern_investigation.py:103-106 | At one start offset, every entry qualifies and starts there. Lengths strictly increase. |
| PalindromeFinder.EntriesAtComplete | basic_pattern_investigation.py:103-106 | At one start offset, every palindromic window among the tested lengths is reported. |
| PalindromeFinder.AllFittingLengthsTested | basic_pattern_investigation.py:103-106 | At one start offset, the full inner loop reports every palindromic window of admissible length. |
| PalindromeFinder.EntriesBelowSound | basic_pattern_investigation.py:102-106 | Before start `n`, every entry qualifies. Entries are ordered by offset, then by increasing length. |
| PalindromeFinder.EntriesBelowComplete | basic_pattern_investigation.py:102-106 | Before start `n`, every qualifying window is reported. |
| PalindromeFinder.PalindromesSpec | basic_pattern_investigation.py:102-108 | Each entry `(p, i)` has `p == sequence[i:i+len(p)]`, `min_length <= len(p) <= max_length`, `len(p) - min_length` even, and `p` equal to its reverse complement. Entries are ordered by offset, then by increasing length, so no pair appears twice. Every such pair appears. |
| PalindromeFinder.ReportedPalindromeIsFixedPoint | basic_pattern_investigation.py:105-106 | Every reported substring is a fixed point of the reverse complement. |
| PalindromeFinder.PalindromesExample | basic_pattern_investigation.py:102-108 | `find_palindromes("ACGT", 4, 4) == [("ACGT", 0)]`. |
| PalindromeFinder.FindPalindromes | basic_pattern_investigation.py:96-108 | The nested loops append exactly the entry list characterised above, in scan order. |
| RepeatFinder.WindowOccursAtStart | basic_pattern_investigation.py:77-78 | A window is found by `find_motif` at its own start offset. |
| RepeatFinder.RepeatTableSound | basic_pattern_investigation.py:74-81 | Each key is a substring of length in `[min_length, 20]`. Its value is exactly `find_motif(sequence, key)`. That value has at least `min_count` offsets, and its first offset is a real occurrence. |
| RepeatFinder.RepeatTableComplete | basic_pattern_investigation.py:75-80 | Each substring of length in `[min_length, 20]` that occurs at least `min_count` times is a key. |
| RepeatFinder.ScanStep | basic_pattern_investigation.py:77-80 | One inner iteration stores the window `sequence[i:i+j]` with its `find_motif` offsets when there are at least `min_count` of them. The table stays sound, and it now covers that window too. |
| RepeatFinder.NextStart | basic_pattern_investigation.py:76 | When the inner loop stops at `min(21, len - i + 1)`, every admissible window starting at `i` has been visited. |
| RepeatFinder.AllStartsScanned | basic_pattern_investigation.py:75 | When the outer loop stops at `len - min_length + 1`, every admissible window of the sequence has been visited. |
| RepeatFinder.ScanCoversTable | basic_pattern_investigation.py:75-81 | A table that holds only admissible windows, each mapped to its full occurrence list, and that holds every admissible window occurring often enough, is exactly the repeat table. |
| RepeatFinder.FindRepeats | basic_pattern_investigation.py:74-81 | The nested loops fill the dictionary in place to exactly the repeat table. The table is keyed by content, so it does not depend on which offset found a window first. |
| FastaReader.TrimStartSpec | basic_pattern_investigation.py:17 | Trimming the front removes a whitespace prefix. What remains does not start with whitespace. |
| FastaReader.TrimEndSpec | basic_pattern_investigation.py:17 | Trimming the back removes a whitespace suffix. What remains does not end with whitespace. |
| FastaReader.Strip | basic_pattern_investigation.py:17 | `strip()` never lengthens a line, and its result neither starts nor ends with whitespace. |
| FastaReader.StripSpec | basic_pattern_investigation.py:17 | `strip()` keeps one contiguous slice of the line and removes only whitespace around it. The slice does not start or end with whitespace. |
| FastaReader.HeaderIdSpec | basic_pattern_investigation.py:17-21 | A line is a header if and only if its stripped form starts with `>`. The identifier is the rest of the stripped line: putting the `>` back gives the stripped line, and the identifier is shorter than the line. |
| FastaReader.Concat | basic_pattern_investigation.py:20-27 | `''.join(parts)` is exactly as long as all the parts together. |
| FastaReader.ConcatAppend | basic_pattern_investigation.py:20-27 | Joining a list made of two lists is joining each and concatenating the results, so appending a line to the buffer appends it to the joined record. |
| FastaReader.RecordEnd | basic_pattern_investigation.py:18-24 | A record ends at the first header after its start, or at the end of input. |
| FastaReader.HeaderIdsSpec | basic_pattern_investigation.py:18-21 | An identifier is collected if and only if it is non-empty and some header announces it. |
| FastaReader.HeaderIdsSkip | basic_pattern_investigation.py:23-24 | Data lines add no identifiers. |
| FastaReader.FlushRecord | basic_pattern_investigation.py:19-20 | Storing a record under a non-empty identifier keeps every earlier stored record correct. An overwritten identifier now holds its latest record. |
| FastaReader.FlushKeys | basic_pattern_investigation.py:19-20 | After storing the record of a header, the stored identifiers are exactly the non-empty identifiers of the headers up to the end of that record. |
| FastaReader.Flush | basic_pattern_investigation.py:19-27 | A record is stored under the current identifier only when that identifier is non-empty (truthy). The stored value is the joined buffer. No other identifier is added, and no other stored record changes. With a falsy identifier (none yet, or the empty one of a bare `>`) the map is left exactly as it was. |
| FastaReader.DataLine | basic_pattern_investigation.py:23-24 | A data line is stripped and appended to the buffer. The scan invariant is kept. |
| FastaReader.HeaderLine | basic_pattern_investigation.py:18-22 | A header flushes the current record if its identifier is truthy. It then starts a new, empty record. The scan invariant is kept. |
| FastaReader.EndOfInput | basic_pattern_investigation.py:26-27 | The final flush makes the result complete. |
| FastaReader.ReadFasta | basic_pattern_investigation.py:11-29 | The keys are exactly the non-empty header identifiers. Each identifier maps to the stripped, joined lines after its last header, up to the next header or the end of input. Lines before the first header are dropped. |
| FastaExamples.StripTerminated | basic_pattern_investigation.py:17 | `strip()` returns a line without surrounding whitespace unchanged. With `"\n"` appended, it returns the line without the terminator. |
| FastaExamples.TwoRecordsHeaders | basic_pattern_investigation.py:16-21 | The lines `">s1\n"` and `">s2\n"` announce `s1` and `s2`. The lines `"ACGT\n"` and `"GGGG\n"` are data lines that strip to `ACGT` and `GGGG`. |
| FastaExamples.TwoRecordsLines | basic_pattern_investigation.py:18-24 | In five lines that announce and strip as in the file `>s1\nACGT\nACGT\n>s2\nGGGG\n`, the identifiers are `s1` and `s2`. The records span lines 1-2 and line 4. |
| FastaExamples.TwoRecordsResult | basic_pattern_investigation.py:11-29 | Any result meeting the contract of `ReadFasta` for those lines is `{s1: ACGTACGT, s2: GGGG}`. |
| FastaExamples.TwoRecords | basic_pattern_investigation.py:11-29 | Reading the lines of the file `>s1\nACGT\nACGT\n>s2\nGGGG\n`, each still ending in `"\n"`, yields `{s1: ACGTACGT, s2: GGGG}`. |
| FastaExamples.QuirksLines | basic_pattern_investigation.py:18-24 | In `NN, >a, AC, >, GG, >a, TT`, the only identifier is `a`. Its last header is line 5. |
| FastaExamples.QuirksResult | basic_pattern_investigation.py:11-29 | Any result meeting the contract of `ReadFasta` for those lines is `{a: TT}`. |
| FastaExamples.Quirks | basic_pattern_investigation.py:11-29 | Data before the first header is dropped. A bare `>` record is never stored. A repeated identifier keeps its last record: the result is `{a: TT}`. |
| SequenceAnalyzer.AnalyzeSequence | basic_pattern_investigation.py:121-134 | The report carries the identifier and the length. Its base counts are exact character counts summing to at most the length. Its GC percentage is consistent with the G and C counts. Its repeats and palindromes are the tables for the default thresholds (4, 2) and (4, 12). |
| SequenceAnalyzer.ReportCollections | basic_pattern_investigation.py:125-126 | Every repeat in a report is 4 to 20 characters long and occurs at least twice, at the offsets listed. Every palindrome is an even-length window of 4 to 12 characters at its offset, equal to its reverse complement. |
| SequenceAnalyzer.EmptySequenceReport | basic_pattern_investigation.py:121-134 | The empty sequence gives length 0, GC 0, no repeats, no palindromes and zero counts. |

## Left out

- The file handle of `read_fasta` (line 15) and its I/O errors are not modelled. `ReadFasta` takes the lines that iterating over the file would yield.
- The `__main__` block (lines 137-160) is left out: the hard-coded path, printing, `:.2f` formatting and the print-time `len(repeat) >= 6` filter. It does not change any result.
- `pca_creator.py` is not part of this model. It is plotting and PCA glue around third-party libraries.
- GcContent: IEEE floating-point rounding is not modelled, because the result is the exact rational percentage. For the empty sequence Python returns the integer `0`; here it is the real `0.0`.
- FindRepeats and FindPalindromes: negative `min_length` is excluded by typing it `nat`, because Python's negative-index slicing would then apply. Negative `max_length` and any `min_count` are allowed.
- FindRepeats and ReadFasta: Python dictionaries keep insertion order; a Dafny `map` does not. In `read_fasta` a repeated identifier keeps the position of its first header while its value is replaced; the model does not record that position. No stated property depends on key order.
- Strip: `str.strip()` is modelled over the characters for which `str.isspace()` holds. Splitting the file into lines (universal newlines) is not modelled.
- Identical input giving identical output is not a separate lemma: `AnalyzeSequence` is a Dafny function, so this holds by construction.
- The running time of the brute-force loops is not modelled.
