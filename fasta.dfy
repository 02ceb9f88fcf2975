/** How the filter reads a FASTA file: what each line is (a header and the
    taxon label it yields, or a piece of sequence), and which records the
    lines form. */
module Fasta {
  import opened Text

  /** A record the scan finalizes: the taxon label it is filed under and
      its reconstructed sequence. */
  datatype Record = Record(taxon: string, sequence: string)

  /** A line once stripped: a header with its label, or sequence data. */
  datatype Line = Header(taxon: string) | Data(text: string)

  /** The taxon label of a stripped header: the last `;`-separated field,
      trimmed. A header without `;` keeps its `>` in the label. */
  function Label(header: string): (taxon: string)
    ensures ';' !in taxon
    ensures taxon == [] || (!IsSpace(taxon[0]) && !IsSpace(taxon[|taxon| - 1]))
  {
    var field := LastField(header, ';');
    StripKeepsOut(field, ';');
    Strip(field)
  }

  /** In a lineage header, the label is the trimmed text after the last `;`. */
  lemma LabelOfLineage(lineage: string, taxon: string)
    requires ';' !in taxon
    ensures Label(lineage + ";" + taxon) == Strip(taxon)
  {
    LastFieldAfterLastSep(lineage, ';', taxon);
  }

  /** A stripped header without `;` is its own label, marker included. */
  lemma LabelWithoutSemicolon(header: string)
    requires ';' !in header
    requires header == Strip(header)
    ensures Label(header) == header
  {
    LastFieldWithoutSep(header, ';');
  }

  /** A raw line is stripped; it is a header when it then starts with `>`,
      and sequence data otherwise. */
  function Classify(raw: string): Line {
    var s := Strip(raw);
    if |s| > 0 && s[0] == '>' then Header(Label(s)) else Data(s)
  }

  /** `f` applied to every element of `xs`, in order. */
  function MapSnoc<A, B>(f: A -> B, xs: seq<A>): (ys: seq<B>)
    ensures |ys| == |xs|
  {
    if xs == [] then [] else MapSnoc(f, xs[..|xs| - 1]) + [f(xs[|xs| - 1])]
  }

  lemma {:induction false} MapSnocAt<A, B>(f: A -> B, xs: seq<A>, i: nat)
    requires i < |xs|
    ensures MapSnoc(f, xs)[i] == f(xs[i])
  {
    var init := xs[..|xs| - 1];
    if i < |init| {
      MapSnocAt(f, init, i);
    }
  }

  lemma MapSnocAppend<A, B>(f: A -> B, xs: seq<A>, x: A)
    ensures MapSnoc(f, xs + [x]) == MapSnoc(f, xs) + [f(x)]
  {
    assert (xs + [x])[..|xs|] == xs;
  }

  lemma MapSnocFour<A, B>(f: A -> B, a: A, b: A, c: A, d: A)
    ensures MapSnoc(f, [a, b, c, d]) == [f(a), f(b), f(c), f(d)]
  {
    MapSnocAppend(f, [], a);
    assert [] + [a] == [a];
    MapSnocAppend(f, [a], b);
    assert [a] + [b] == [a, b];
    MapSnocAppend(f, [a, b], c);
    assert [a, b] + [c] == [a, b, c];
    MapSnocAppend(f, [a, b, c], d);
    assert [a, b, c] + [d] == [a, b, c, d];
  }

  /** The input, line by line, as the scan sees it. */
  function Classified(lines: seq<string>): (ls: seq<Line>)
    ensures |ls| == |lines|
  {
    MapSnoc(Classify, lines)
  }

  /** Each line is classified on its own. */
  lemma ClassifiedAt(lines: seq<string>, i: nat)
    requires i < |lines|
    ensures Classified(lines)[i] == Classify(lines[i])
  {
    MapSnocAt(Classify, lines, i);
  }

  /** Reading one more line classifies it and keeps what was read. */
  lemma ClassifiedSnoc(lines: seq<string>, raw: string)
    ensures Classified(lines + [raw]) == Classified(lines) + [Classify(raw)]
  {
    MapSnocAppend(Classify, lines, raw);
  }

  /** The data before the first header, concatenated with no separator:
      the body that follows a header up to the next one. */
  function Leading(ls: seq<Line>): string {
    if ls == [] || ls[0].Header? then "" else ls[0].text + Leading(ls[1..])
  }

  function CountHeaders(ls: seq<Line>): nat {
    if ls == [] then 0 else (if ls[0].Header? then 1 else 0) + CountHeaders(ls[1..])
  }

  /** One record per header, in input order, each holding the label of its
      header and the body that follows it. */
  function Records(ls: seq<Line>): (rs: seq<Record>)
    ensures |rs| == CountHeaders(ls)
  {
    if ls == [] then []
    else
      var here := if ls[0].Header? then [Record(ls[0].taxon, Leading(ls[1..]))] else [];
      here + Records(ls[1..])
  }

  /** Every record the scan finalizes, in order: the data before the first
      header under the empty label the scan starts with, then one record
      per header. */
  function Blocks(ls: seq<Line>): (bs: seq<Record>)
    ensures |bs| == CountHeaders(ls) + 1
    ensures bs[0] == Record("", Leading(ls))
  {
    [Record("", Leading(ls))] + Records(ls)
  }

  /** The position of the first header, or the number of lines if none. */
  function FirstHeader(ls: seq<Line>): (k: nat)
    ensures k <= |ls|
    ensures k < |ls| ==> ls[k].Header?
    ensures forall i | 0 <= i < k :: ls[i].Data?
  {
    if ls == [] || ls[0].Header? then 0
    else
      var k := FirstHeader(ls[1..]);
      assert forall i | 1 <= i <= k :: ls[i] == ls[1..][i - 1];
      1 + k
  }

  /** The text of the data lines, concatenated with no separator. */
  function Joined(ls: seq<Line>): string {
    if ls == [] then ""
    else (if ls[0].Data? then ls[0].text else "") + Joined(ls[1..])
  }

  lemma {:induction false} JoinedEmptyIff(ls: seq<Line>)
    requires forall i | 0 <= i < |ls| :: ls[i].Data?
    ensures Joined(ls) == "" <==> forall i | 0 <= i < |ls| :: ls[i].text == ""
  {
    if ls != [] {
      assert forall i | 1 <= i < |ls| :: ls[i] == ls[1..][i - 1];
      JoinedEmptyIff(ls[1..]);
    }
  }

  /** The body after a header is exactly the concatenation of the data
      lines up to the next header or the end of input. */
  lemma {:induction false} LeadingIsJoinedBody(ls: seq<Line>)
    ensures Leading(ls) == Joined(ls[..FirstHeader(ls)])
  {
    if ls != [] && ls[0].Data? {
      LeadingIsJoinedBody(ls[1..]);
      assert ls[..FirstHeader(ls)][1..] == ls[1..][..FirstHeader(ls[1..])];
    }
  }

  /** The body is empty exactly when every data line of it is empty, in
      particular when the next line is a header or there is none. */
  lemma LeadingEmptyIff(ls: seq<Line>)
    ensures Leading(ls) == "" <==> forall i | 0 <= i < FirstHeader(ls) :: ls[i].text == ""
  {
    LeadingIsJoinedBody(ls);
    var body := ls[..FirstHeader(ls)];
    assert forall i | 0 <= i < |body| :: body[i] == ls[i];
    JoinedEmptyIff(body);
  }

  /** The header at position `j` gives the record at position
      `CountHeaders(ls[..j])`: its label, and the body after it. */
  lemma {:induction false} RecordOfHeader(ls: seq<Line>, j: nat)
    requires j < |ls| && ls[j].Header?
    ensures CountHeaders(ls[..j]) < |Records(ls)|
    ensures Records(ls)[CountHeaders(ls[..j])] == Record(ls[j].taxon, Leading(ls[j + 1..]))
  {
    var rest := ls[1..];
    var here := if ls[0].Header? then [Record(ls[0].taxon, Leading(rest))] else [];
    assert Records(ls) == here + Records(rest);
    if j == 0 {
      assert ls[..0] == [];
    } else {
      RecordOfHeader(rest, j - 1);
      assert ls[..j][1..] == rest[..j - 1];
      assert CountHeaders(ls[..j]) == |here| + CountHeaders(rest[..j - 1]);
      assert rest[j - 1 + 1..] == ls[j + 1..];
    }
  }

  /** Reading one more line extends the body before the first header only
      while no header has been seen. */
  lemma {:induction false} LeadingSnoc(ls: seq<Line>, l: Line)
    ensures Leading(ls + [l]) ==
            if CountHeaders(ls) > 0 || l.Header? then Leading(ls) else Leading(ls) + l.text
  {
    if ls != [] {
      assert (ls + [l])[1..] == ls[1..] + [l];
      LeadingSnoc(ls[1..], l);
    }
  }

  /** Reading a header opens a new record with an empty body. */
  lemma {:induction false} RecordsSnocHeader(ls: seq<Line>, l: Line)
    requires l.Header?
    ensures Records(ls + [l]) == Records(ls) + [Record(l.taxon, "")]
  {
    if ls == [] {
      assert [l][1..] == [];
    } else {
      var rest := ls[1..];
      assert (ls + [l])[1..] == rest + [l];
      RecordsSnocHeader(rest, l);
      LeadingSnoc(rest, l);
      var here := if ls[0].Header? then [Record(ls[0].taxon, Leading(rest))] else [];
      assert Records(ls + [l]) == here + Records(rest + [l]);
      assert Records(ls) == here + Records(rest);
    }
  }

  /** Reading a data line appends its text to the body of the last record,
      if there is one. */
  lemma {:induction false} RecordsSnocData(ls: seq<Line>, l: Line)
    requires l.Data?
    ensures Records(ls) == [] ==> Records(ls + [l]) == []
    ensures Records(ls) != [] ==>
              var rs := Records(ls);
              var last := rs[|rs| - 1];
              Records(ls + [l]) == rs[..|rs| - 1] + [Record(last.taxon, last.sequence + l.text)]
  {
    if ls == [] {
      assert [l][1..] == [];
    } else {
      var rest := ls[1..];
      assert (ls + [l])[1..] == rest + [l];
      RecordsSnocData(rest, l);
      LeadingSnoc(rest, l);
      if ls[0].Header? {
        var r := Record(ls[0].taxon, Leading(rest));
        assert Records(ls) == [r] + Records(rest);
        if Records(rest) == [] {
          assert Records(ls + [l]) == [Record(r.taxon, r.sequence + l.text)] + [];
        } else {
          var rs := Records(rest);
          assert Records(ls + [l]) == [r] + Records(rest + [l]);
          assert ([r] + rs)[..|rs|] == [r] + rs[..|rs| - 1];
        }
      } else {
        assert Records(ls) == Records(rest);
        assert Records(ls + [l]) == Records(rest + [l]);
      }
    }
  }

  /** The scan's step on a header: the records finalized so far are kept
      and a new pending record opens with the header's label and an empty
      body. */
  lemma BlocksSnocHeader(ls: seq<Line>, l: Line)
    requires l.Header?
    ensures Blocks(ls + [l]) == Blocks(ls) + [Record(l.taxon, "")]
  {
    LeadingSnoc(ls, l);
    RecordsSnocHeader(ls, l);
    assert Blocks(ls + [l]) == [Record("", Leading(ls))] + (Records(ls) + [Record(l.taxon, "")]);
  }

  /** The scan's step on a data line: the pending (last) record's body grows
      by the line's text and nothing else changes. */
  lemma BlocksSnocData(ls: seq<Line>, l: Line)
    requires l.Data?
    ensures var bs := Blocks(ls);
            var last := bs[|bs| - 1];
            Blocks(ls + [l]) == bs[..|bs| - 1] + [Record(last.taxon, last.sequence + l.text)]
  {
    LeadingSnoc(ls, l);
    RecordsSnocData(ls, l);
    var rs := Records(ls);
    var pre := Record("", Leading(ls));
    if rs != [] {
      var last := rs[|rs| - 1];
      assert ([pre] + rs)[..|rs|] == [pre] + rs[..|rs| - 1];
      assert Blocks(ls + [l]) == [pre] + (rs[..|rs| - 1] + [Record(last.taxon, last.sequence + l.text)]);
    }
  }
}
