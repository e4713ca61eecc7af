/**
  The rendered Prometheus text, read back: cut at its line ends, header lines passed over, and every
  other line scanned as a sample.
 */
module Scrape {
  import opened Bytes
  import opened Decimals
  import opened Prometheus
  import opened Wrappers

  type Reading = (Bytes, Labels, int)

  // Each line with its end.
  function Cut(text: Bytes): seq<Bytes>
    decreases |text|
  {
    var p := Find(text, [NEWLINE], 0);
    if text == [] then []
    else if p == NPOS then [text]
    else [text[..p + 1]] + Cut(text[p + 1..])
  }

  predicate IsHeader(line: Bytes) {
    HELP <= line || TYPE <= line
  }

  function ScanLine(line: Bytes): seq<Reading> {
    if IsHeader(line) then []
    else match ScanSample(line)
         case None => []
         case Some(reading) => [reading]
  }

  function ScanAll(lines: seq<Bytes>): seq<Reading> {
    if lines == [] then [] else ScanLine(lines[0]) + ScanAll(lines[1..])
  }

  function Scan(text: Bytes): seq<Reading> {
    ScanAll(Cut(text))
  }

  // What can be read of a row.
  function Read(rows: seq<Row>): seq<Reading> {
    if rows == [] then []
    else [(Underscored(rows[0].name), rows[0].labels, rows[0].value)] + Read(rows[1..])
  }

  // Nothing in the row ends a line; its name ends at a space or a brace, its label names at a '='.
  predicate Readable(row: Row) {
    && NEWLINE !in row.name && NEWLINE !in row.kind && NEWLINE !in row.description
    && (forall i :: 0 <= i < |row.labels| ==> NEWLINE !in row.labels[i].0)
    && PlainName(row.name) && Clean(row.labels)
  }

  predicate AllReadable(rows: seq<Row>) {
    forall i :: 0 <= i < |rows| ==> Readable(rows[i])
  }

  // ----- Lines -----

  predicate Whole(line: Bytes) {
    line != [] && line[|line| - 1] == NEWLINE && NEWLINE !in line[..|line| - 1]
  }

  lemma {:induction false} CutFirst(line: Bytes, rest: Bytes)
    requires Whole(line)
    ensures Cut(line + rest) == [line] + Cut(rest)
  {
    var before := line[..|line| - 1];
    var text := line + rest;
    assert line == before + [NEWLINE];
    assert text == before + [NEWLINE] + rest;
    FirstByte(text, before, NEWLINE, rest);
    assert text[..|line|] == line && text[|line|..] == rest;
  }

  lemma MakesWhole(body: Bytes)
    requires NEWLINE !in body
    ensures Whole(body + [NEWLINE])
  {
    assert (body + [NEWLINE])[..|body|] == body;
  }

  lemma {:induction false} JoinedNoNewline(labels: Labels)
    requires forall i :: 0 <= i < |labels| ==> NEWLINE !in labels[i].0
    ensures NEWLINE !in Joined(labels)
  {
    if labels != [] {
      QuotedOneLine(labels[0].1);
      hide Quoted;
      MoreNoNewline(labels[1..]);
    }
  }

  lemma {:induction false} MoreNoNewline(labels: Labels)
    requires forall i :: 0 <= i < |labels| ==> NEWLINE !in labels[i].0
    ensures NEWLINE !in More(labels)
  {
    if labels != [] {
      QuotedOneLine(labels[0].1);
      hide Quoted;
      MoreNoNewline(labels[1..]);
    }
  }

  lemma UnderscoredNoNewline(name: Bytes)
    requires NEWLINE !in name
    ensures NEWLINE !in Underscored(name)
  {
  }

  lemma {:induction false} SampleWhole(row: Row)
    requires Readable(row)
    ensures Whole(Sample(row))
  {
    UnderscoredNoNewline(row.name);
    JoinedNoNewline(row.labels);
    SignedReads(row.value);
    hide Underscored, Joined, Signed, SignedNumber, Whole;
    MakesWhole(Underscored(row.name) + Braced(row.labels) + [SPACE] + Signed(row.value));
  }

  lemma {:induction false} HeaderWhole(start: Bytes, name: Bytes, what: Bytes)
    requires NEWLINE !in start && NEWLINE !in name && NEWLINE !in what
    ensures Whole(start + Underscored(name) + [SPACE] + what + [NEWLINE])
    ensures start <= start + Underscored(name) + [SPACE] + what + [NEWLINE]
  {
    UnderscoredNoNewline(name);
    hide Underscored, Whole;
    MakesWhole(start + Underscored(name) + [SPACE] + what);
  }

  // ----- A sample is no header -----

  const HASH: byte := 35

  lemma HeaderBegins(line: Bytes)
    requires IsHeader(line)
    ensures |line| > 2 && line[0] == HASH && line[1] == SPACE && !IsDigit(line[2]) && line[2] != MINUS
  {
    assert line[0] == line[..7][0] && line[1] == line[..7][1] && line[2] == line[..7][2];
    if HELP <= line {
      assert line[..7] == HELP;
    } else {
      assert line[..7] == TYPE;
    }
  }

  lemma {:induction false} NoHeader(name: Bytes, rest: Bytes)
    requires PlainName(name) && |rest| > 1
    requires rest[0] == OPEN || (rest[0] == SPACE && (IsDigit(rest[1]) || rest[1] == MINUS))
    ensures !IsHeader(name + rest)
  {
    var line := name + rest;
    assert |name| >= 2 ==> line[1] == name[1];
    assert line[|name|] == rest[0] && line[|name| + 1] == rest[1];
    if IsHeader(line) {
      HeaderBegins(line);
    }
  }

  lemma {:induction false} SampleBegins(row: Row)
    requires PlainName(row.name)
    ensures !IsHeader(Sample(row))
  {
    SampleIs(row);
    UnderscoredPlain(row.name);
    SignedReads(row.value);
    SignedNonempty(row.value);
    hide Sample, Underscored, Joined, Signed, SignedNumber, IsHeader, PlainName, IsDigit;
    var value := Signed(row.value);
    var tail := [SPACE] + (value + [NEWLINE]);
    if row.labels == [] {
      assert tail[1] == value[0];
      NoHeader(Underscored(row.name), tail);
    } else {
      NoHeader(Underscored(row.name), [OPEN] + (Joined(row.labels) + [CLOSE] + tail));
    }
  }

  lemma SignedNonempty(n: int)
    ensures Signed(n) != []
  {
  }

  // ----- The text -----

  // A line that a readable row brings.
  predicate Fits(line: Line) {
    match line
    case Help(name, description) => NEWLINE !in name && NEWLINE !in description
    case Type(name, kind) => NEWLINE !in name && NEWLINE !in kind
    case Sampled(row) => Readable(row)
  }

  lemma {:induction false} LineReads(line: Line)
    requires Fits(line)
    ensures Whole(Printed(line)) && ScanLine(Printed(line)) == Read(RowsOf(line))
  {
    hide Underscored, Whole, ScanSample, Sample, Readable;
    match line {
      case Help(name, description) =>
        HeaderWhole(HELP, name, description);
      case Type(name, kind) =>
        HeaderWhole(TYPE, name, kind);
      case Sampled(row) =>
        assert PlainName(row.name) && Clean(row.labels) by { ReadableParts(row); }
        SampleWhole(row);
        SampleBegins(row);
        ScansSample(row);
        assert [row][1..] == [];
    }
  }

  lemma ReadableParts(row: Row)
    requires Readable(row)
    ensures PlainName(row.name) && Clean(row.labels)
  {
  }

  lemma {:induction false} ReadInTurn(x: seq<Row>, y: seq<Row>)
    ensures Read(x + y) == Read(x) + Read(y)
  {
    hide Underscored;
    if x == [] {
      assert x + y == y;
    } else {
      assert (x + y)[1..] == x[1..] + y;
      ReadInTurn(x[1..], y);
    }
  }

  lemma {:induction false} LinesRead(lines: seq<Line>)
    requires forall i :: 0 <= i < |lines| ==> Fits(lines[i])
    ensures Scan(AllPrinted(lines)) == Read(Samples(lines))
  {
    hide Fits, Printed, ScanLine, RowsOf, Whole;
    if lines != [] {
      var line, later := lines[0], lines[1..];
      LineReads(line);
      LinesRead(later);
      CutFirst(Printed(line), AllPrinted(later));
      hide Cut;
      assert ([Printed(line)] + Cut(AllPrinted(later)))[1..] == Cut(AllPrinted(later));
      ReadInTurn(RowsOf(line), Samples(later));
    } else {
      assert Cut([]) == [];
    }
  }

  lemma {:induction false} RowsFit(rows: seq<Row>, last: Bytes)
    requires AllReadable(rows)
    ensures forall i :: 0 <= i < |Lines(rows, last)| ==> Fits(Lines(rows, last)[i])
  {
    if rows != [] {
      RowFits(rows[0], last);
      hide RowLines, Fits, Readable;
      RowsFit(rows[1..], rows[0].name);
    }
  }

  lemma {:induction false} RowFits(row: Row, last: Bytes)
    requires Readable(row)
    ensures forall i :: 0 <= i < |RowLines(row, last)| ==> Fits(RowLines(row, last)[i])
  {
    hide PlainName, Clean;
  }

  // The rendered text reads back as its rows: name, labels and value of each, in order.
  lemma {:induction false} TextReads(counters: seq<Row>, gauges: seq<Row>)
    requires AllReadable(counters) && AllReadable(gauges)
    ensures Scan(AllPrinted(Exposition(counters, gauges))) == Read(counters + gauges)
  {
    hide Readable, Lines, Fits, AllPrinted, Scan;
    RowsFit(counters + gauges, NO_NAME);
    LinesRead(Exposition(counters, gauges));
    SamplesAreRows(counters + gauges, NO_NAME);
  }

  // ----- The header lines -----

  // "# HELP " or "# TYPE ", a name, and the description or the kind.
  type Heading = (Bytes, Bytes, Bytes)

  function ScanHeader(line: Bytes): seq<Heading> {
    if HELP <= line then ScanAfter(HELP, line) else if TYPE <= line then ScanAfter(TYPE, line) else []
  }

  // The name up to the space, and what is between the space and the line's end.
  function ScanAfter(start: Bytes, line: Bytes): seq<Heading>
    requires start <= line
  {
    var rest := line[|start|..];
    var p := Find(rest, [SPACE], 0);
    if p == NPOS || p == |rest| - 1 || rest[|rest| - 1] != NEWLINE then []
    else [(start, rest[..p], rest[p + 1..|rest| - 1])]
  }

  function ScanHeaders(lines: seq<Bytes>): seq<Heading> {
    if lines == [] then [] else ScanHeader(lines[0]) + ScanHeaders(lines[1..])
  }

  // What the rows ask for: where a name differs from the last one, its description if it has one, and then
  // its kind.
  function Headings(rows: seq<Row>, last: Bytes): seq<Heading> {
    if rows == [] then []
    else
      var row := rows[0];
      var shown := Underscored(row.name);
      var help: seq<Heading> := if row.description == [] then [] else [(HELP, shown, row.description)];
      (if row.name == last then [] else help + [(TYPE, shown, row.kind)]) + Headings(rows[1..], row.name)
  }

  function HeadingOf(line: Line): seq<Heading> {
    match line
    case Help(name, description) => [(HELP, Underscored(name), description)]
    case Type(name, kind) => [(TYPE, Underscored(name), kind)]
    case Sampled(_) => []
  }

  function HeadingsOf(lines: seq<Line>): seq<Heading> {
    if lines == [] then [] else HeadingOf(lines[0]) + HeadingsOf(lines[1..])
  }

  lemma {:induction false} HeaderReads(start: Bytes, name: Bytes, what: Bytes)
    requires SPACE !in name
    ensures var line := start + Underscored(name) + [SPACE] + what + [NEWLINE];
            start <= line && ScanAfter(start, line) == [(start, Underscored(name), what)]
  {
    var shown := Underscored(name);
    assert SPACE !in shown;
    hide Underscored;
    var rest := shown + [SPACE] + (what + [NEWLINE]);
    HeaderLine(start, shown, what);
    FirstByte(rest, shown, SPACE, what + [NEWLINE]);
    RestCut(shown, what);
  }

  lemma HeaderLine(start: Bytes, shown: Bytes, what: Bytes)
    ensures var line := start + shown + [SPACE] + what + [NEWLINE];
            start <= line && line[|start|..] == shown + [SPACE] + (what + [NEWLINE])
  {
  }

  lemma RestCut(shown: Bytes, what: Bytes)
    ensures var rest := shown + [SPACE] + (what + [NEWLINE]);
            && rest[..|shown|] == shown && rest[|rest| - 1] == NEWLINE
            && rest[|shown| + 1..|rest| - 1] == what
  {
  }

  // The two keywords differ in their third byte.
  lemma HelpOrType(text: Bytes)
    ensures (TYPE <= text ==> |text| > 2 && text[2] == 84) && (HELP <= text ==> |text| > 2 && text[2] == 72)
  {
    assert |text| >= 7 ==> text[2] == text[..7][2];
  }

  lemma {:induction false} LineHeads(line: Line)
    requires Fits(line) && (line.Sampled? || SPACE !in line.name)
    ensures ScanHeader(Printed(line)) == HeadingOf(line)
  {
    HelpOrType(Printed(line));
    hide HELP, TYPE, ScanAfter, Underscored;
    match line {
      case Help(name, description) =>
        HeaderReads(HELP, name, description);
      case Type(name, kind) =>
        HeaderReads(TYPE, name, kind);
      case Sampled(row) =>
        ReadableParts(row);
        SampleBegins(row);
    }
  }

  lemma {:induction false} LinesHeaded(lines: seq<Line>)
    requires forall i :: 0 <= i < |lines| ==> Fits(lines[i]) && (lines[i].Sampled? || SPACE !in lines[i].name)
    ensures ScanHeaders(Cut(AllPrinted(lines))) == HeadingsOf(lines)
  {
    hide Fits, Printed, ScanHeader, HeadingOf, Whole;
    if lines != [] {
      var line, later := lines[0], lines[1..];
      LineHeads(line);
      LineReads(line);
      LinesHeaded(later);
      CutFirst(Printed(line), AllPrinted(later));
      hide Cut;
      assert ([Printed(line)] + Cut(AllPrinted(later)))[1..] == Cut(AllPrinted(later));
    } else {
      assert Cut([]) == [];
    }
  }

  lemma {:induction false} HeadersPlain(rows: seq<Row>, last: Bytes)
    requires AllReadable(rows)
    ensures forall i :: 0 <= i < |Lines(rows, last)| ==>
              Lines(rows, last)[i].Sampled? || SPACE !in Lines(rows, last)[i].name
  {
    if rows != [] {
      ReadableParts(rows[0]);
      HeadersPlain(rows[1..], rows[0].name);
    }
  }

  lemma {:induction false} HeadingsInTurn(x: seq<Line>, y: seq<Line>)
    ensures HeadingsOf(x + y) == HeadingsOf(x) + HeadingsOf(y)
  {
    hide HeadingOf;
    if x == [] {
      assert x + y == y;
    } else {
      assert (x + y)[1..] == x[1..] + y;
      HeadingsInTurn(x[1..], y);
    }
  }

  lemma {:induction false} HeadingsOne(line: Line)
    ensures HeadingsOf([line]) == HeadingOf(line)
  {
    hide HeadingOf;
    assert [line][1..] == [];
  }

  lemma {:induction false} RowHeads(row: Row, last: Bytes)
    ensures HeadingsOf(RowLines(row, last)) + Headings([], row.name) == Headings([row], last)
  {
    var kind, sample := Type(row.name, row.kind), Sampled(row);
    var help: seq<Line> := if row.description == [] then [] else [Help(row.name, row.description)];
    var header := if row.name == last then [] else help + [kind];
    assert RowLines(row, last) == header + [sample];
    hide HELP, TYPE, Underscored, RowLines;
    HeadingsOne(kind);
    HeadingsOne(sample);
    HeadingsOne(Help(row.name, row.description));
    HeadingsInTurn(header, [sample]);
    HeadingsInTurn(help, [kind]);
    assert HeadingsOf([]) == [] && [row][1..] == [];
    hide HeadingsOf;
  }

  lemma {:induction false} HeadingsAre(rows: seq<Row>, last: Bytes)
    ensures HeadingsOf(Lines(rows, last)) == Headings(rows, last)
  {
    if rows != [] {
      RowHeads(rows[0], last);
      assert [rows[0]][1..] == [];
      HeadingsAre(rows[1..], rows[0].name);
      HeadingsInTurn(RowLines(rows[0], last), Lines(rows[1..], rows[0].name));
      hide RowLines, HeadingsOf, HELP, TYPE, Underscored;
    }
  }

  // The rendered text's HELP and TYPE lines read back as what the rows ask for, in order.
  lemma {:induction false} TextHeaders(counters: seq<Row>, gauges: seq<Row>)
    requires AllReadable(counters) && AllReadable(gauges)
    ensures ScanHeaders(Cut(AllPrinted(Exposition(counters, gauges)))) == Headings(counters + gauges, NO_NAME)
  {
    hide Readable, Lines, Fits, AllPrinted, Cut, Headings;
    RowsFit(counters + gauges, NO_NAME);
    HeadersPlain(counters + gauges, NO_NAME);
    LinesHeaded(Exposition(counters, gauges));
    HeadingsAre(counters + gauges, NO_NAME);
  }
}
