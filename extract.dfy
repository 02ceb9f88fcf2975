/** The taxon filter itself: one pass over the lines of a FASTA file that
    writes out every record whose taxon label contains the target. */
module Extract {
  import opened Text
  import opened Fasta

  /** The guard the scan applies when it finalizes a record: a non-empty
      sequence, and the target occurring in the label. */
  predicate Emits(r: Record, target: string) {
    |r.sequence| > 0 && Contains(r.taxon, target)
  }

  /** The records that pass the guard, in their original order. */
  function Filter(rs: seq<Record>, target: string): seq<Record> {
    if rs == [] then []
    else
      var last := rs[|rs| - 1];
      Filter(rs[..|rs| - 1], target) + (if Emits(last, target) then [last] else [])
  }

  /** How one record is written out: two lines, `>` and the label, then
      the sequence. */
  function Format(r: Record): string {
    ">" + r.taxon + "\n" + r.sequence + "\n"
  }

  /** The records written out one after the other. */
  function Render(rs: seq<Record>): string {
    if rs == [] then "" else Render(rs[..|rs| - 1]) + Format(rs[|rs| - 1])
  }

  /** What is written for the input read as `ls`. */
  function Written(ls: seq<Line>, target: string): string {
    Render(Filter(Blocks(ls), target))
  }

  /** What the output file holds once the scan is done. */
  function Output(lines: seq<string>, target: string): string {
    Written(Classified(lines), target)
  }

  /** The state of the scan after reading `read`: the pending record is the
      last one finalized so far by the specification, and what has been
      written is the output for the records before it. */
  ghost predicate Scanned(read: seq<Line>, target: string, taxon: string, sequence: string, written: string) {
    var bs := Blocks(read);
    bs[|bs| - 1] == Record(taxon, sequence) && written == Render(Filter(bs[..|bs| - 1], target))
  }

  /** The scan over the lines of the input file. It keeps the label and the
      sequence of the pending record, writes it out when the next header or
      the end of input finalizes it and it passes the guard, and returns
      everything written. */
  method ExtractSpecificTaxaSequences(lines: seq<string>, target: string) returns (written: string)
    ensures written == Output(lines, target)
  {
    var currentSequence := "";
    var currentTaxon := "";
    written := "";
    var i := 0;
    while i < |lines|
      invariant 0 <= i <= |lines|
      invariant Scanned(Classified(lines[..i]), target, currentTaxon, currentSequence, written)
    {
      var line := Strip(lines[i]);
      ScanLine(lines, i, target, currentTaxon, currentSequence, written);
      if |line| > 0 && line[0] == '>' {
        if |currentSequence| > 0 && Contains(currentTaxon, target) {
          written := written + Format(Record(currentTaxon, currentSequence));
        }
        currentSequence := "";
        currentTaxon := Label(line);
      } else {
        currentSequence := currentSequence + line;
      }
      i := i + 1;
    }
    assert lines[..i] == lines;
    FinalizeWrites(Blocks(Classified(lines)), target, written);
    if |currentSequence| > 0 && Contains(currentTaxon, target) {
      written := written + Format(Record(currentTaxon, currentSequence));
    }
  }

  /** Finalizing the pending (last) record: what was written for the
      records before it, followed by the record itself if it passes the
      guard, is what the filter writes for all of them. */
  lemma FinalizeWrites(bs: seq<Record>, target: string, written: string)
    requires bs != []
    requires written == Render(Filter(bs[..|bs| - 1], target))
    ensures var pending := bs[|bs| - 1];
            Render(Filter(bs, target))
            == if Emits(pending, target) then written + Format(pending) else written
  {
    var pending := bs[|bs| - 1];
    var mid := if Emits(pending, target) then [pending] else [];
    assert Filter(bs, target) == Filter(bs[..|bs| - 1], target) + mid;
    RenderAppend(Filter(bs[..|bs| - 1], target), mid);
    assert mid != [] ==> mid[..0] == [];
  }

  /** One step of the scan on line `i`, stripped: a header finalizes the
      pending record and opens a new one under its label; any other line
      grows the pending sequence. */
  lemma ScanLine(lines: seq<string>, i: nat, target: string,
                 taxon: string, sequence: string, written: string)
    requires i < |lines|
    requires Scanned(Classified(lines[..i]), target, taxon, sequence, written)
    ensures var s := Strip(lines[i]);
            var pending := Record(taxon, sequence);
            if |s| > 0 && s[0] == '>' then
              Scanned(Classified(lines[..i + 1]), target, Label(s), "",
                      if Emits(pending, target) then written + Format(pending) else written)
            else
              Scanned(Classified(lines[..i + 1]), target, taxon, sequence + s, written)
  {
    var read := Classified(lines[..i]);
    var l := Classify(lines[i]);
    assert lines[..i + 1] == lines[..i] + [lines[i]];
    ClassifiedSnoc(lines[..i], lines[i]);
    if l.Header? {
      ScanHeader(read, l, target, taxon, sequence, written);
    } else {
      ScanData(read, l, target, taxon, sequence, written);
    }
  }

  /** A header line finalizes the pending record, writing it when it passes
      the guard, and opens a new pending record with an empty sequence. */
  lemma ScanHeader(read: seq<Line>, line: Line, target: string,
                   taxon: string, sequence: string, written: string)
    requires line.Header?
    requires Scanned(read, target, taxon, sequence, written)
    ensures var pending := Record(taxon, sequence);
            Scanned(read + [line], target, line.taxon, "",
                    if Emits(pending, target) then written + Format(pending) else written)
  {
    var bs := Blocks(read);
    BlocksSnocHeader(read, line);
    FinalizeWrites(bs, target, written);
    assert (bs + [Record(line.taxon, "")])[..|bs|] == bs;
  }

  /** A data line is appended, stripped, to the pending record's sequence;
      nothing is written. */
  lemma ScanData(read: seq<Line>, line: Line, target: string,
                 taxon: string, sequence: string, written: string)
    requires line.Data?
    requires Scanned(read, target, taxon, sequence, written)
    ensures Scanned(read + [line], target, taxon, sequence + line.text, written)
  {
    var bs := Blocks(read);
    BlocksSnocData(read, line);
    var grown := Record(taxon, sequence + line.text);
    assert (bs[..|bs| - 1] + [grown])[..|bs| - 1] == bs[..|bs| - 1];
  }

  /** Filtering distributes over concatenation: records are kept or dropped
      one by one, and the kept ones stay in input order. */
  lemma {:induction false} FilterAppend(xs: seq<Record>, ys: seq<Record>, target: string)
    ensures Filter(xs + ys, target) == Filter(xs, target) + Filter(ys, target)
  {
    if ys == [] {
      assert xs + ys == xs;
    } else {
      var init, last := ys[..|ys| - 1], ys[|ys| - 1];
      var mid := if Emits(last, target) then [last] else [];
      assert (xs + ys)[..|xs + ys| - 1] == xs + init;
      assert (xs + ys)[|xs + ys| - 1] == last;
      FilterAppend(xs, init, target);
      calc {
        Filter(xs + ys, target);
        Filter(xs + init, target) + mid;
        Filter(xs, target) + Filter(init, target) + mid;
        Filter(xs, target) + (Filter(init, target) + mid);
        Filter(xs, target) + Filter(ys, target);
      }
    }
  }

  lemma {:induction false} RenderAppend(xs: seq<Record>, ys: seq<Record>)
    ensures Render(xs + ys) == Render(xs) + Render(ys)
  {
    if ys == [] {
      assert xs + ys == xs;
    } else {
      var init, last := ys[..|ys| - 1], ys[|ys| - 1];
      assert (xs + ys)[..|xs + ys| - 1] == xs + init;
      assert (xs + ys)[|xs + ys| - 1] == last;
      RenderAppend(xs, init);
      calc {
        Render(xs + ys);
        Render(xs + init) + Format(last);
        Render(xs) + Render(init) + Format(last);
        Render(xs) + (Render(init) + Format(last));
        Render(xs) + Render(ys);
      }
    }
  }

  /** The filter keeps exactly the records that pass the guard: every kept
      record is one of the input's and passes it, and every input record
      that passes it is kept. */
  lemma {:induction false} FilterKeepsExactly(rs: seq<Record>, target: string)
    ensures forall r | r in Filter(rs, target) :: r in rs && Emits(r, target)
    ensures forall r | r in rs && Emits(r, target) :: r in Filter(rs, target)
  {
    if rs != [] {
      var init := rs[..|rs| - 1];
      FilterKeepsExactly(init, target);
      assert rs == init + [rs[|rs| - 1]];
    }
  }

  /** Every written record passes the guard: its label contains the target
      and its sequence is not empty. Every finalized record that passes it
      is written. */
  lemma Soundness(ls: seq<Line>, target: string)
    ensures forall r | r in Filter(Blocks(ls), target) :: Contains(r.taxon, target) && |r.sequence| > 0
    ensures forall r | r in Blocks(ls) && Contains(r.taxon, target) && |r.sequence| > 0 ::
              r in Filter(Blocks(ls), target)
  {
    FilterKeepsExactly(Blocks(ls), target);
  }

  /** The header at position `j` is written out exactly once, at its place
      in input order, when its label contains the target and its body is
      not empty; otherwise it is not written at all. What comes before and
      after it is the output for the records before and after it. */
  lemma HeaderWrittenInPlace(ls: seq<Line>, target: string, j: nat)
    requires j < |ls| && ls[j].Header?
    ensures var bs := Blocks(ls);
            var k := CountHeaders(ls[..j]) + 1;
            k < |bs|
            && bs[k] == Record(ls[j].taxon, Leading(ls[j + 1..]))
            && Written(ls, target)
               == Render(Filter(bs[..k], target))
                  + (if Emits(bs[k], target) then Format(bs[k]) else "")
                  + Render(Filter(bs[k + 1..], target))
  {
    var bs, rs := Blocks(ls), Records(ls);
    var k := CountHeaders(ls[..j]) + 1;
    RecordOfHeader(ls, j);
    assert bs == [bs[0]] + rs;
    assert bs[k] == rs[k - 1];
    var pre, x, post := bs[..k], bs[k], bs[k + 1..];
    assert bs == pre + [x] + post;
    FilterAppend(pre + [x], post, target);
    FilterAppend(pre, [x], target);
    assert [x][..0] == [];
    var mid := if Emits(x, target) then [x] else [];
    assert Filter([x], target) == mid;
    assert Filter(bs, target) == Filter(pre, target) + mid + Filter(post, target);
    RenderAppend(Filter(pre, target) + mid, Filter(post, target));
    RenderAppend(Filter(pre, target), mid);
    assert mid[..0] == [] <== mid != [];
    assert Render(mid) == if Emits(x, target) then Format(x) else "";
  }

  /** A header followed directly by another header or by the end of input,
      or by data lines that all strip to nothing, is never written out. */
  lemma EmptyBodyNotWritten(ls: seq<Line>, target: string, j: nat)
    requires j < |ls| && ls[j].Header?
    requires forall i | j < i <= j + FirstHeader(ls[j + 1..]) :: ls[i].text == ""
    ensures var bs := Blocks(ls);
            var k := CountHeaders(ls[..j]) + 1;
            k < |bs|
            && Written(ls, target) == Render(Filter(bs[..k], target)) + Render(Filter(bs[k + 1..], target))
  {
    var rest := ls[j + 1..];
    forall i | 0 <= i < FirstHeader(rest)
      ensures rest[i].text == ""
    {
      var n := j + 1 + i;
      assert j < n <= j + FirstHeader(rest);
      assert rest[i] == ls[n];
    }
    LeadingEmptyIff(rest);
    HeaderWrittenInPlace(ls, target, j);
  }

  /** A header without `;` is its own label, `>` included, so its record is
      written with a doubled marker. */
  lemma UnsplitHeaderDoublesMarker(line: string, sequence: string)
    requires Classify(line).Header? && ';' !in Strip(line)
    ensures Format(Record(Classify(line).taxon, sequence)) == ">" + Strip(line) + "\n" + sequence + "\n"
    ensures Format(Record(Classify(line).taxon, sequence))[..2] == ">>"
  {
    StripIdempotent(line);
    LabelWithoutSemicolon(Strip(line));
  }

  lemma {:induction false} NoHeaderNoRecords(ls: seq<Line>)
    requires forall i | 0 <= i < |ls| :: ls[i].Data?
    ensures Records(ls) == []
  {
    if ls != [] {
      assert forall i | 1 <= i < |ls| :: ls[1..][i - 1] == ls[i];
      NoHeaderNoRecords(ls[1..]);
    }
  }

  /** The data before the first header is filed under the empty label; with
      a non-empty target it is never written, and input without any header
      line, the empty input included, gives empty output. */
  lemma NonEmptyTargetDropsPreamble(ls: seq<Line>, target: string)
    requires |target| > 0
    ensures Written(ls, target) == Render(Filter(Records(ls), target))
    ensures (forall i | 0 <= i < |ls| :: ls[i].Data?) ==> Written(ls, target) == ""
  {
    var bs := Blocks(ls);
    var rs := Records(ls);
    assert bs == [bs[0]] + rs;
    assert !Contains(bs[0].taxon, target);
    FilterAppend([bs[0]], rs, target);
    assert [bs[0]][..0] == [];
    assert Filter([bs[0]], target) == [];
    assert Filter(bs, target) == Filter(rs, target);
    if forall i | 0 <= i < |ls| :: ls[i].Data? {
      NoHeaderNoRecords(ls);
      assert Filter(rs, target) == [];
    }
  }

  /** With the empty target, which occurs in every label, data before the
      first header is written out first under the empty label. */
  lemma EmptyTargetKeepsPreamble(ls: seq<Line>)
    requires Leading(ls) != ""
    ensures Written(ls, "") == ">\n" + Leading(ls) + "\n" + Render(Filter(Records(ls), ""))
  {
    var bs := Blocks(ls);
    assert bs == [bs[0]] + Records(ls);
    assert OccursAt(bs[0].taxon, "", 0);
    FilterAppend([bs[0]], Records(ls), "");
    assert Filter([bs[0]], "") == [bs[0]];
    RenderAppend([bs[0]], Filter(Records(ls), ""));
    assert [bs[0]][..0] == [];
  }

  function CountChar(s: string, c: char): nat {
    if s == [] then 0 else (if s[0] == c then 1 else 0) + CountChar(s[1..], c)
  }

  lemma {:induction false} CountCharAppend(s: string, t: string, c: char)
    ensures CountChar(s + t, c) == CountChar(s, c) + CountChar(t, c)
  {
    if s == [] {
      assert s + t == t;
    } else {
      assert (s + t)[0] == s[0];
      assert (s + t)[1..] == s[1..] + t;
      CountCharAppend(s[1..], t, c);
      calc {
        CountChar(s + t, c);
        (if s[0] == c then 1 else 0) + CountChar(s[1..] + t, c);
        (if s[0] == c then 1 else 0) + CountChar(s[1..], c) + CountChar(t, c);
      }
    }
  }

  lemma {:induction false} CountCharAbsent(s: string, c: char)
    requires c !in s
    ensures CountChar(s, c) == 0
  {
    if s != [] {
      assert forall x | x in s[1..] :: x in s;
      CountCharAbsent(s[1..], c);
    }
  }

  predicate OneLine(r: Record) {
    '\n' !in r.taxon && '\n' !in r.sequence
  }

  predicate LineHasNoBreak(l: Line) {
    match l
    case Header(taxon) => '\n' !in taxon
    case Data(text) => '\n' !in text
  }

  /** Records without line breaks are written as exactly two lines each. */
  lemma {:induction false} RenderLineCount(rs: seq<Record>)
    requires forall r | r in rs :: OneLine(r)
    ensures CountChar(Render(rs), '\n') == 2 * |rs|
  {
    if rs != [] {
      var init := rs[..|rs| - 1];
      var r := rs[|rs| - 1];
      assert forall x | x in init :: x in rs;
      assert r in rs;
      RenderLineCount(init);
      CountCharAbsent(r.taxon, '\n');
      CountCharAbsent(r.sequence, '\n');
      CountCharAppend(Render(init), Format(r), '\n');
      CountCharAppend(">" + r.taxon + "\n" + r.sequence, "\n", '\n');
      CountCharAppend(">" + r.taxon + "\n", r.sequence, '\n');
      CountCharAppend(">" + r.taxon, "\n", '\n');
      CountCharAppend(">", r.taxon, '\n');
    }
  }

  /** A line read from a text file has no line break once classified. */
  lemma ClassifyHasNoBreak(raw: string)
    requires IsFileLine(raw)
    ensures LineHasNoBreak(Classify(raw))
  {
    var s := Strip(raw);
    StripRemovesNewline(raw);
    if |s| > 0 && s[0] == '>' {
      var field := LastField(s, ';');
      assert forall k | 0 <= k < |field| :: field[k] == s[|s| - |field| + k];
      StripKeepsOut(field, '\n');
    }
  }

  lemma {:induction false} LeadingOneLine(ls: seq<Line>)
    requires forall l | l in ls :: LineHasNoBreak(l)
    ensures '\n' !in Leading(ls)
  {
    if ls != [] && ls[0].Data? {
      assert ls[0] in ls;
      assert forall l | l in ls[1..] :: l in ls;
      LeadingOneLine(ls[1..]);
      assert Leading(ls) == ls[0].text + Leading(ls[1..]);
    }
  }

  lemma {:induction false} RecordsOneLine(ls: seq<Line>)
    requires forall l | l in ls :: LineHasNoBreak(l)
    ensures forall r | r in Records(ls) :: OneLine(r)
  {
    if ls != [] {
      var rest := ls[1..];
      assert ls[0] in ls;
      assert forall l | l in rest :: l in ls;
      RecordsOneLine(rest);
      LeadingOneLine(rest);
      var here := if ls[0].Header? then [Record(ls[0].taxon, Leading(rest))] else [];
      assert Records(ls) == here + Records(rest);
      assert forall r | r in here :: OneLine(r);
    }
  }

  /** Read from a text file line by line, the input yields an output with
      exactly two lines per written record. */
  lemma TwoLinesPerRecord(lines: seq<string>, target: string)
    requires forall l | l in lines :: IsFileLine(l)
    ensures CountChar(Output(lines, target), '\n') == 2 * |Filter(Blocks(Classified(lines)), target)|
  {
    var ls := Classified(lines);
    forall l | l in ls
      ensures LineHasNoBreak(l)
    {
      var i :| 0 <= i < |ls| && ls[i] == l;
      ClassifiedAt(lines, i);
      ClassifyHasNoBreak(lines[i]);
    }
    LeadingOneLine(ls);
    RecordsOneLine(ls);
    FilterKeepsExactly(Blocks(ls), target);
    RenderLineCount(Filter(Blocks(ls), target));
  }
}
