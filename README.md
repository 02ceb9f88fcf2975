# FASTA taxon filter

A Dafny model of `extract_specific_taxa_sequences`, the single-pass filter of
the ExtractTaxafromDatabase repository. It reads a FASTA file line by line.
Every header line (a line that starts with `>` once stripped) opens a record
whose taxon label is the last `;`-separated field of the header, trimmed. The
data lines that follow are stripped and concatenated into the record's
sequence. When the next header or the end of input finalizes a record, the
filter writes it as `>label`, newline, sequence, newline. It does so only if
the sequence is not empty and the target taxon occurs in the label as a
substring.

The project has four modules:

- `Text` (`text.dfy`) holds the string operations the filter borrows from
  Python: `Strip` (`str.strip()`), `LastField` (`split(sep)[-1]`) and
  `Contains` (`in` between two strings). Each comes with lemmas that pin down
  its meaning independently of its body.
- `Fasta` (`fasta.dfy`) holds the reading of a FASTA file. `Classify` strips a
  line and reads it as a `Header` carrying its `Label`, or as `Data` carrying
  the stripped text. `Records` gives one record per header, with its label
  and the `Leading` body after it. `Blocks` is every record the scan
  finalizes: first the data before any header, under the empty label the
  scan starts with, then the `Records`.
- `Extract` (`extract.dfy`) holds the filter. It has the specification
  `Output` = `Render(Filter(Blocks(Classified(lines)), target))` and the imperative
  `ExtractSpecificTaxaSequences`. That method has the source's loop, its two
  mutable locals and its final flush, and it is proved to return exactly
  `Output`. The lemmas state soundness, completeness and order, the
  empty-body guard, the treatment of the preamble, the `>>` edge case and
  the two-lines-per-record format.
- `Scenario` (`scenario.dfy`) works through one input: two lineage headers
  filtered for `Rhizobium`: how each line is classified, which records
  they form and what is written.

Behaviour kept exactly as the code has it:

- The target is not required to be non-empty. With the empty target, `'' in
  ''` holds. Data lines before the first header are then written under the
  empty label, as `>` followed by a newline (`EmptyTargetKeepsPreamble`).
  With a non-empty target they are dropped (`NonEmptyTargetDropsPreamble`).
  Leading data is therefore discarded only when the target is not empty.
- A header without `;` is its own label, `>` included. Its record is written
  as `>>...` (`UnsplitHeaderDoublesMarker`).

## Model

| member | source | states |
|---|---|---|
| `Extract.ExtractSpecificTaxaSequences` | extract_specific_taxa_sequences.py:30-51 | The loop over the lines, with its pending taxon and sequence, its emission at each header and its final flush under the same guard, returns exactly `Output(lines, target)`: the finalized records that pass the guard, each rendered as `>label\nsequence\n`, in input order |
| `Extract.Output` | extract_specific_taxa_sequences.py:30-51 | Definition: the lines are classified, grouped into the records the scan finalizes, filtered by the guard and written in order; characterized by `Soundness`, `HeaderWrittenInPlace`, `EmptyBodyNotWritten` and `TwoLinesPerRecord`, and met by `ExtractSpecificTaxaSequences` |
| `Extract.Emits` | extract_specific_taxa_sequences.py:38 | Definition of the guard: a non-empty sequence and the target occurring in the label; the same guard at line 50 is the final flush (`FinalizeWrites`) |
| `Extract.Filter` | extract_specific_taxa_sequences.py:38-40 | Definition: the records passing `Emits`, in order; characterized by `FilterKeepsExactly` and `FilterAppend` |
| `Extract.Format` | extract_specific_taxa_sequences.py:40 | Definition of the written form `>label`, newline, sequence, newline (also line 51); characterized by `RenderLineCount` and `UnsplitHeaderDoublesMarker` |
| `Extract.Render` | extract_specific_taxa_sequences.py:40 | Definition: the records' `Format`s one after the other; characterized by `RenderAppend` and `RenderLineCount` |
| `Extract.ScanLine` | extract_specific_taxa_sequences.py:35-47 | One step of the loop on a line: stripped, a header writes the pending record exactly when it passes the guard and opens a record under its label with an empty sequence; any other line grows the pending sequence by its stripped text. The scan state stays in step with `Blocks` of the lines read |
| `Extract.ScanHeader` | extract_specific_taxa_sequences.py:36-44 | A header line writes the pending record iff its sequence is non-empty and the target occurs in its label, then opens a record with the header's label and an empty sequence; the scan state stays in step with the specification |
| `Extract.ScanData` | extract_specific_taxa_sequences.py:45-47 | A data line appends its stripped text to the pending sequence and writes nothing |
| `Extract.FinalizeWrites` | extract_specific_taxa_sequences.py:49-51 | Finalizing the last pending record extends the output by that record exactly when it passes the guard, so the final flush treats the last record like any other |
| `Extract.FilterKeepsExactly` | extract_specific_taxa_sequences.py:38-40 | A record is kept iff it passes the guard: every kept record is an input record with a non-empty sequence whose label contains the target, and every such input record is kept |
| `Extract.Soundness` | extract_specific_taxa_sequences.py:38 | Every written record's label contains the target and its sequence is non-empty; every finalized record meeting both is written |
| `Extract.FilterAppend` | extract_specific_taxa_sequences.py:34-51 | Filtering distributes over concatenation, so records are written one by one and in input order |
| `Extract.RenderAppend` | extract_specific_taxa_sequences.py:40 | The output for two runs of records is the concatenation of their outputs, since each record is written independently |
| `Extract.HeaderWrittenInPlace` | extract_specific_taxa_sequences.py:34-51 | The header at line `j` yields the record at position `CountHeaders(ls[..j]) + 1`, with the header's label and the body after it. The output is the output for the earlier records, then this record once if it passes the guard (nothing otherwise), then the output for the later records |
| `Extract.EmptyBodyNotWritten` | extract_specific_taxa_sequences.py:38-43 | A header followed by another header, by the end of input, or by data lines that all strip to nothing contributes nothing to the output |
| `Extract.NoHeaderNoRecords` | extract_specific_taxa_sequences.py:36-44 | Input without a header line opens no record |
| `Extract.NonEmptyTargetDropsPreamble` | extract_specific_taxa_sequences.py:31-32 | With a non-empty target, data before the first header is never written, and input without any header gives empty output |
| `Extract.EmptyTargetKeepsPreamble` | extract_specific_taxa_sequences.py:31-32 | With the empty target, non-empty data before the first header is written first, as `>\n` + that data + `\n` |
| `Extract.UnsplitHeaderDoublesMarker` | extract_specific_taxa_sequences.py:40-44 | A header without `;` is written as `>` + the whole stripped header, so the written line starts with `>>` |
| `Extract.TwoLinesPerRecord` | extract_specific_taxa_sequences.py:40-51 | For lines read from a text file, the output holds exactly two newlines per written record |
| `Extract.RenderLineCount` | extract_specific_taxa_sequences.py:40 | Records without line breaks render as exactly two lines each |
| `Extract.ClassifyHasNoBreak` | extract_specific_taxa_sequences.py:35-44 | A line read from a text file gives a label or a data text without newline |
| `Extract.RecordsOneLine` | extract_specific_taxa_sequences.py:35-47 | Labels and bodies derived from file lines contain no newline |
| `Extract.LeadingOneLine` | extract_specific_taxa_sequences.py:47 | A concatenated body of stripped file lines contains no newline |
| `Fasta.Label` | extract_specific_taxa_sequences.py:44 | The label of a header contains no `;` and neither starts nor ends with whitespace |
| `Fasta.LabelOfLineage` | extract_specific_taxa_sequences.py:44 | For a lineage `p;q` with no `;` in `q`, the label is `q` stripped |
| `Fasta.LabelWithoutSemicolon` | extract_specific_taxa_sequences.py:44 | A stripped header without `;` is its own label, `>` included |
| `Fasta.Classify` | extract_specific_taxa_sequences.py:35-47 | Definition: a line is stripped, and is a header carrying its `Label` when it then starts with `>`, data carrying the stripped text otherwise; characterized by `Label`, `LabelOfLineage` and `ClassifyHasNoBreak` |
| `Fasta.Leading` | extract_specific_taxa_sequences.py:47 | Definition: the data lines up to the next header, concatenated; characterized by `LeadingIsJoinedBody`, `LeadingEmptyIff` and `LeadingSnoc` |
| `Fasta.Classified` | extract_specific_taxa_sequences.py:34-35 | The scan reads one classified line per input line |
| `Fasta.ClassifiedAt` | extract_specific_taxa_sequences.py:35-36 | Each line is classified on its own, independently of the lines around it |
| `Fasta.ClassifiedSnoc` | extract_specific_taxa_sequences.py:34-35 | Reading one more line keeps what was read and classifies the new line |
| `Fasta.Records` | extract_specific_taxa_sequences.py:36-44 | There is exactly one record per header line |
| `Fasta.Blocks` | extract_specific_taxa_sequences.py:31-32 | The scan finalizes one record more than there are headers, and the first is the preamble under the empty label |
| `Fasta.FirstHeader` | extract_specific_taxa_sequences.py:36 | Gives the position of the first header line, or the number of lines when there is none; no line before it is a header |
| `Fasta.RecordOfHeader` | extract_specific_taxa_sequences.py:34-47 | The `n`-th header gives the `n`-th record, holding that header's label and the body that follows it |
| `Fasta.LeadingIsJoinedBody` | extract_specific_taxa_sequences.py:35-47 | A record's sequence is exactly the concatenation, with no separator, of the stripped lines between its header and the next header or the end of input |
| `Fasta.JoinedEmptyIff` | extract_specific_taxa_sequences.py:47 | A concatenation of stripped lines is empty iff every line strips to nothing |
| `Fasta.LeadingEmptyIff` | extract_specific_taxa_sequences.py:38-47 | A body is empty iff every line up to the next header strips to nothing |
| `Fasta.LeadingSnoc` | extract_specific_taxa_sequences.py:47 | One more line extends the data before the first header iff no header has been read and the line is not one |
| `Fasta.RecordsSnocHeader` | extract_specific_taxa_sequences.py:43-44 | Reading a header appends a record with its label and an empty sequence |
| `Fasta.RecordsSnocData` | extract_specific_taxa_sequences.py:47 | Reading a data line appends its stripped text to the last record's sequence and leaves all other records unchanged |
| `Fasta.BlocksSnocHeader` | extract_specific_taxa_sequences.py:36-44 | One step of the scan on a header: the records finalized so far are kept and a new pending record opens with the header's label and an empty sequence |
| `Fasta.BlocksSnocData` | extract_specific_taxa_sequences.py:45-47 | One step of the scan on a data line: the pending record's sequence grows by the stripped line and nothing else changes |
| `Text.Strip` | extract_specific_taxa_sequences.py:35 | `strip()` returns a string no longer than its input that neither starts nor ends with whitespace |
| `Text.StripSlice` | extract_specific_taxa_sequences.py:35 | `strip()` removes only whitespace, only from either end |
| `Text.StripUnique` | extract_specific_taxa_sequences.py:35 | Any `a + m + b` with whitespace-only `a` and `b` and `m` without whitespace at its ends strips to `m` |
| `Text.StripIdempotent` | extract_specific_taxa_sequences.py:35 | Stripping twice is stripping once |
| `Text.StripKeepsOut` | extract_specific_taxa_sequences.py:44 | Stripping never adds a character |
| `Text.StripRemovesNewline` | extract_specific_taxa_sequences.py:35 | A line read from a file has no newline once stripped |
| `Text.TrimLeftSpec` | extract_specific_taxa_sequences.py:35 | Stripping the left end drops a whitespace-only prefix and stops at the first non-whitespace character |
| `Text.TrimRightSpec` | extract_specific_taxa_sequences.py:35 | Stripping the right end drops a whitespace-only suffix and stops at the last non-whitespace character |
| `Text.LastField` | extract_specific_taxa_sequences.py:44 | `split(';')[-1]` is a suffix of the header without `;`, preceded by `;` whenever it is not the whole header |
| `Text.LastFieldAfterLastSep` | extract_specific_taxa_sequences.py:44 | The last field of `p;q`, with no `;` in `q`, is `q` |
| `Text.LastFieldWithoutSep` | extract_specific_taxa_sequences.py:44 | Without `;`, the last field is the whole string |
| `Text.Contains` | extract_specific_taxa_sequences.py:38 | `target in taxon` holds iff the target occurs at some position of the label; the empty target occurs in every label |
| `Scenario.FirstHeaderLine` | extract_specific_taxa_sequences.py:35-44 | `>lineageA;B;Rhizobium` is a header labelled `Rhizobium` |
| `Scenario.SecondHeaderLine` | extract_specific_taxa_sequences.py:35-44 | `>lineageC;D;Other` is a header labelled `Other` |
| `Scenario.DataLines` | extract_specific_taxa_sequences.py:35-47 | `ACGT` and `TTTT` are data lines kept as they are |
| `Scenario.TwoRecords` | extract_specific_taxa_sequences.py:34-47 | Two headers, each followed by one data line, finalize the empty preamble, then one record per header holding its data line |
| `Scenario.ScenarioFilter` | extract_specific_taxa_sequences.py:38 | Of the preamble, `Rhizobium` with `ACGT` and `Other` with `TTTT`, only the `Rhizobium` record passes the guard for target `Rhizobium` |
| `Scenario.ScenarioLines` | extract_specific_taxa_sequences.py:34-47 | The four raw lines `>lineageA;B;Rhizobium`, `ACGT`, `>lineageC;D;Other`, `TTTT` are read as a header `Rhizobium`, data `ACGT`, a header `Other`, data `TTTT` |
| `Scenario.ScenarioWritten` | extract_specific_taxa_sequences.py:34-51 | Those classified lines, filtered for `Rhizobium`, write exactly `>Rhizobium\nACGT\n` |
| `Scenario.ScenarioOutput` | extract_specific_taxa_sequences.py:18-51 | Filtering the four raw lines for `Rhizobium` through `Output`, the specification the method is proved to meet, writes exactly `>Rhizobium\nACGT\n` |

## Left out

- File opening and closing (extract_specific_taxa_sequences.py:30) are not modelled. The input is the sequence of lines that iterating the file yields, and the method returns what it writes to the output file, in the order it writes it.
- The module-level example call with fixed paths and target (extract_specific_taxa_sequences.py:53-58) is not modelled. It is script glue.
- `Text.Strip` removes only space, tab, newline, carriage return, vertical tab and form feed, not every character Python's `str.strip()` removes: the ASCII separators `\x1c` to `\x1f`, `\x85`, the no-break space and the Unicode spaces and line separators are kept.
- Splitting the file into lines is not modelled, and neither is Python's newline translation. `IsFileLine` states what the line-count lemma assumes of a line: a newline can only be its last character.
- The second variant of the tool is not part of this model. It matches the whole header rather than the derived label, writes a summary of the matched identifiers, takes command-line flags and reports I/O errors. No source for it is among the modelled files.
- Running the filter twice on the same input gives the same output. This holds by construction, because `Output` is a function of the lines and the target.
