/**
  The text exposition of `RenderPrometheus` in `contracts/acl_audit.hpp`: each printed piece against a
  scanner that reads it back, and the header lines over a sorted list of rows.
 */
module Prometheus {
  import opened Bytes
  import opened Decimals
  import opened Ordered
  import opened Wrappers

  const QUOTE: byte := 34
  const BACKSLASH: byte := 92
  const NEWLINE: byte := 10
  const LETTER_N: byte := 110
  const COMMA: byte := 44
  const EQUALS: byte := 61
  const OPEN: byte := 123
  const CLOSE: byte := 125
  const SPACE: byte := 32
  const DOT: byte := 46
  const UNDERSCORE: byte := 95

  // The constants are the characters they stand for.
  lemma SpelledBytes()
    ensures Spells([QUOTE, BACKSLASH, NEWLINE, LETTER_N, COMMA, EQUALS], "\"\\\nn,=")
    ensures Spells([OPEN, CLOSE, SPACE, DOT, UNDERSCORE], "{} ._")
  {
  }

  type Labels = seq<(Bytes, Bytes)>

  // ----- Quoting -----

  function Escaped(c: byte): Bytes {
    if c == QUOTE || c == BACKSLASH then [BACKSLASH, c]
    else if c == NEWLINE then [BACKSLASH, LETTER_N]
    else [c]
  }

  // Three characters are escaped, and no other.
  lemma EscapesAre(c: byte)
    ensures Spells(Escaped(QUOTE), "\\\"") && Spells(Escaped(BACKSLASH), "\\\\") && Spells(Escaped(NEWLINE), "\\n")
    ensures c != QUOTE && c != BACKSLASH && c != NEWLINE ==> Escaped(c) == [c]
  {
  }

  function Body(value: Bytes): Bytes {
    if value == [] then [] else Escaped(value[0]) + Body(value[1..])
  }

  function Quoted(value: Bytes): Bytes {
    [QUOTE] + Body(value) + [QUOTE]
  }

  // The lambda `quote`.
  method Quote(value: Bytes) returns (out: Bytes)
    ensures out == Quoted(value)
  {
    out := [QUOTE];
    for i := 0 to |value|
      invariant out + Body(value[i..]) == [QUOTE] + Body(value)
    {
      var c := value[i];
      ghost var before := out;
      assert value[i..][1..] == value[i + 1..];
      Associate(before, Escaped(c), Body(value[i + 1..]));
      if c == QUOTE || c == BACKSLASH {
        out := out + [BACKSLASH];
      }
      if c == NEWLINE {
        out := out + [BACKSLASH, LETTER_N];
        continue;
      }
      out := out + [c];
      assert out == before + Escaped(c);
    }
    out := out + [QUOTE];
  }

  // A scanner past the opening quote: the value, and what follows the closing quote.
  function Unquoted(text: Bytes): Option<(Bytes, Bytes)> {
    if text == [] then None
    else if text[0] == QUOTE then Some(([], text[1..]))
    else if text[0] == BACKSLASH then
      if |text| == 1 then None
      else After(if text[1] == LETTER_N then NEWLINE else text[1], Unquoted(text[2..]))
    else After(text[0], Unquoted(text[1..]))
  }

  function After(c: byte, scanned: Option<(Bytes, Bytes)>): Option<(Bytes, Bytes)> {
    match scanned
    case None => None
    case Some((value, rest)) => Some(([c] + value, rest))
  }

  // Any value is read back, whatever follows.
  lemma {:induction false} UnquotesQuoted(value: Bytes, rest: Bytes)
    ensures Unquoted(Body(value) + [QUOTE] + rest) == Some((value, rest))
  {
    if value == [] {
      assert Body(value) + [QUOTE] + rest == [QUOTE] + rest;
      assert ([QUOTE] + rest)[1..] == rest;
    } else {
      var c, later := value[0], Body(value[1..]) + [QUOTE] + rest;
      UnquotesQuoted(value[1..], rest);
      var text := Escaped(c) + later;
      assert Body(value) + [QUOTE] + rest == text;
      assert text[|Escaped(c)|..] == later;
      assert value == [c] + value[1..];
    }
  }

  // A quoted value stays on its line.
  lemma {:induction false} QuotedOneLine(value: Bytes)
    ensures NEWLINE !in Quoted(value)
  {
    BodyOneLine(value);
  }

  lemma {:induction false} BodyOneLine(value: Bytes)
    ensures NEWLINE !in Body(value)
  {
    if value != [] {
      BodyOneLine(value[1..]);
    }
  }

  // ----- Labels -----

  function Label(pair: (Bytes, Bytes)): Bytes {
    pair.0 + [EQUALS] + Quoted(pair.1)
  }

  function Joined(labels: Labels): Bytes {
    if labels == [] then [] else Label(labels[0]) + More(labels[1..])
  }

  function More(labels: Labels): Bytes {
    if labels == [] then [] else ([COMMA] + Label(labels[0])) + More(labels[1..])
  }

  method JoinLabels(labels: Labels) returns (out: Bytes)
    ensures out == Joined(labels)
  {
    hide Quoted;
    out := [];
    for i := 0 to |labels|
      invariant if i == 0 then out == [] else out != [] && out + More(labels[i..]) == Joined(labels)
    {
      ghost var before, one, rest := out, Label(labels[i]), More(labels[i + 1..]);
      assert labels[i..][1..] == labels[i + 1..];
      if out != [] {
        out := out + [COMMA];
      }
      var quoted := Quote(labels[i].1);
      out := out + (labels[i].0 + [EQUALS] + quoted);
      if i > 0 {
        Associate(before, [COMMA], one);
        Associate(before, [COMMA] + one, rest);
      }
    }
  }

  // A scanner past the opening brace: the labels, and what follows the closing brace.
  function ScanLabels(text: Bytes): Option<(Labels, Bytes)>
    decreases |text|
  {
    var p := Find(text, [EQUALS], 0);
    if p == NPOS || p + 1 >= |text| || text[p + 1] != QUOTE then None
    else
      match Unquoted(text[p + 2..])
      case None => None
      case Some((value, rest)) =>
        if rest == [] || |rest| >= |text| then None
        else if rest[0] == CLOSE then Some(([(text[..p], value)], rest[1..]))
        else if rest[0] == COMMA then
          match ScanLabels(rest[1..])
          case None => None
          case Some((later, end)) => Some(([(text[..p], value)] + later, end))
        else None
  }

  predicate Clean(labels: Labels) {
    forall i :: 0 <= i < |labels| ==> EQUALS !in labels[i].0
  }

  lemma {:induction false} ScanFirst(name: Bytes, value: Bytes, rest: Bytes)
    requires EQUALS !in name
    ensures var text := Label((name, value)) + rest;
            && Find(text, [EQUALS], 0) == |name| && |name| + 1 < |text| && text[|name| + 1] == QUOTE
            && text[..|name|] == name && Unquoted(text[|name| + 2..]) == Some((value, rest)) && |rest| < |text|
  {
    UnquotesQuoted(value, rest);
    hide Body, Unquoted;
    var text := Label((name, value)) + rest;
    var later := Body(value) + [QUOTE] + rest;
    assert text == name + [EQUALS] + ([QUOTE] + later);
    FirstByte(text, name, EQUALS, [QUOTE] + later);
    assert text[|name| + 2..] == later;
  }

  lemma {:induction false} ScanLast(name: Bytes, value: Bytes, rest: Bytes)
    requires EQUALS !in name
    ensures ScanLabels(Label((name, value)) + ([CLOSE] + rest)) == Some(([(name, value)], rest))
  {
    ScanFirst(name, value, [CLOSE] + rest);
    hide Label, Unquoted, Find;
    assert ([CLOSE] + rest)[1..] == rest;
  }

  lemma {:induction false} ScanMore(name: Bytes, value: Bytes, text: Bytes, labels: Labels, rest: Bytes)
    requires EQUALS !in name && ScanLabels(text) == Some((labels, rest))
    ensures ScanLabels(Label((name, value)) + ([COMMA] + text)) == Some(([(name, value)] + labels, rest))
  {
    ScanFirst(name, value, [COMMA] + text);
    hide Label, Unquoted, Find;
    assert ([COMMA] + text)[1..] == text;
  }

  lemma Regroup(a: Bytes, comma: Bytes, b: Bytes, close: Bytes, rest: Bytes)
    ensures (a + (comma + b)) + close + rest == a + (comma + (b + close + rest))
    ensures a + close + rest == a + (close + rest)
  {
  }

  lemma {:induction false} JoinedTurn(labels: Labels)
    requires |labels| > 1
    ensures Joined(labels) == Label(labels[0]) + ([COMMA] + Joined(labels[1..]))
  {
    hide Label;
    Associate([COMMA], Label(labels[1]), More(labels[1..][1..]));
  }

  // Every list of labels with clean names is read back, whatever the values hold.
  lemma {:induction false} ScansLabels(labels: Labels, rest: Bytes)
    requires labels != [] && Clean(labels)
    ensures ScanLabels(Joined(labels) + [CLOSE] + rest) == Some((labels, rest))
    decreases |labels|
  {
    hide Label, ScanLabels;
    var (name, value) := labels[0];
    if |labels| == 1 {
      ScanLast(name, value, rest);
      assert labels == [(name, value)];
      assert Joined(labels) == Label(labels[0]) by {
        assert Label(labels[0]) + [] == Label(labels[0]);
      }
      Regroup(Label(labels[0]), [], [], [CLOSE], rest);
    } else {
      ScansLabels(labels[1..], rest);
      ScanMore(name, value, Joined(labels[1..]) + [CLOSE] + rest, labels[1..], rest);
      assert labels == [(name, value)] + labels[1..];
      JoinedTurn(labels);
      hide Joined;
      Regroup(Label(labels[0]), [COMMA], Joined(labels[1..]), [CLOSE], rest);
    }
  }

  // Two lists with clean names that print alike are the same list.
  lemma {:induction false} CleanPrintsApart(x: Labels, y: Labels)
    requires Clean(x) && Clean(y)
    ensures Joined(x) == Joined(y) ==> x == y
  {
    JoinedNothing(x);
    JoinedNothing(y);
    if x != [] && y != [] && Joined(x) == Joined(y) {
      ScansLabels(x, []);
      ScansLabels(y, []);
    }
  }

  lemma {:induction false} JoinedNothing(labels: Labels)
    ensures Joined(labels) == [] <==> labels == []
  {
  }

  // One label with a whole other one inside its name prints as the two.
  lemma {:induction false} LabelsClash(a: Bytes, x: Bytes, b: Bytes, y: Bytes)
    ensures var inside: Labels := [(a + [EQUALS] + Quoted(x) + ([COMMA] + b), y)];
            var apart: Labels := [(a, x), (b, y)];
            inside != apart && Joined(inside) == Joined(apart)
  {
    hide Quoted;
    JoinedOne(a + [EQUALS] + Quoted(x) + ([COMMA] + b), y);
    JoinedTwo(a, x, b, y);
    NestedLabel(a + [EQUALS] + Quoted(x), [COMMA], b, [EQUALS], Quoted(y));
  }

  lemma NestedLabel(a: Bytes, comma: Bytes, b: Bytes, equals: Bytes, y: Bytes)
    ensures (a + (comma + b)) + equals + y == a + (comma + (b + equals + y))
  {
  }

  lemma {:induction false} JoinedOne(name: Bytes, value: Bytes)
    ensures Joined([(name, value)]) == name + [EQUALS] + Quoted(value)
  {
    hide Quoted;
    var labels: Labels := [(name, value)];
    assert labels[1..] == [];
    assert Label(labels[0]) + [] == Label(labels[0]);
  }

  lemma {:induction false} JoinedTwo(a: Bytes, x: Bytes, b: Bytes, y: Bytes)
    ensures Joined([(a, x), (b, y)]) == (a + [EQUALS] + Quoted(x)) + ([COMMA] + (b + [EQUALS] + Quoted(y)))
  {
    hide Quoted;
    var labels: Labels := [(a, x), (b, y)];
    JoinedTurn(labels);
    assert labels[1..] == [(b, y)];
    JoinedOne(b, y);
  }

  // ----- Which lists print as nothing else -----

  predicate NestedAs(name: Bytes, a: Bytes, w: Bytes, c: Bytes) {
    name == a + [EQUALS] + Quoted(w) + ([COMMA] + c)
  }

  // A name with a whole label and a comma at its beginning.
  ghost predicate Nested(name: Bytes) {
    exists a, w, c :: NestedAs(name, a, w, c)
  }

  ghost predicate PrintsAlone(labels: Labels) {
    forall other: Labels :: Joined(other) == Joined(labels) ==> other == labels
  }

  // Inside the quotes a quotation mark stands behind a backslash.
  lemma {:induction false} BodyQuotes(value: Bytes, i: nat)
    requires i < |Body(value)| && Body(value)[i] == QUOTE
    ensures i > 0 && Body(value)[i - 1] == BACKSLASH
  {
    var n := |Escaped(value[0])|;
    if i >= n {
      BodyQuotes(value[1..], i - n);
    }
  }

  lemma {:induction false} QuotedQuotes(value: Bytes, k: nat)
    requires k + 2 < |Quoted(value)| && Quoted(value)[k + 1] == QUOTE
    ensures Quoted(value)[k] != EQUALS
  {
    hide Body;
    var body := Body(value);
    assert Quoted(value)[k + 1] == body[k];
    BodyQuotes(value, k);
    assert Quoted(value)[k] == body[k - 1];
  }

  // The last '=' before a quotation mark is where the last name ends.
  lemma {:induction false} NoneLater(text: Bytes, name: Bytes, value: Bytes, p: nat)
    requires text == name + [EQUALS] + Quoted(value)
    requires |name| < p && p + 2 < |text| && text[p + 1] == QUOTE
    ensures text[p] != EQUALS
  {
    hide Quoted;
    var k := p - |name| - 1;
    assert text[p] == Quoted(value)[k] && text[p + 1] == Quoted(value)[k + 1];
    QuotedQuotes(value, k);
  }

  lemma {:induction false} NameEndsThere(text: Bytes, name: Bytes, value: Bytes)
    requires text == name + [EQUALS] + Quoted(value)
    ensures |name| + 2 < |text| && text[|name|] == EQUALS && text[|name| + 1] == QUOTE
  {
    hide Body;
  }

  lemma {:induction false} QuotedDecides(v: Bytes, w: Bytes)
    requires Quoted(v) == Quoted(w)
    ensures v == w
  {
    UnquotesQuoted(v, []);
    UnquotesQuoted(w, []);
    hide Body, Unquoted;
    assert Quoted(v)[1..] == Body(v) + [QUOTE] + [];
    assert Quoted(w)[1..] == Body(w) + [QUOTE] + [];
  }

  lemma {:induction false} LabelDecides(n: Bytes, v: Bytes, m: Bytes, w: Bytes)
    requires n + [EQUALS] + Quoted(v) == m + [EQUALS] + Quoted(w)
    ensures n == m && v == w
  {
    var text := n + [EQUALS] + Quoted(v);
    NameEndsThere(text, n, v);
    NameEndsThere(text, m, w);
    hide Quoted;
    if |n| < |m| {
      NoneLater(text, n, v, |m|);
    } else if |m| < |n| {
      NoneLater(text, m, w, |n|);
    }
    Associate(n, [EQUALS], Quoted(v));
    Associate(m, [EQUALS], Quoted(w));
    SameSizeCut(n, [EQUALS] + Quoted(v), m, [EQUALS] + Quoted(w));
    SameSizeCut([EQUALS], Quoted(v), [EQUALS], Quoted(w));
    QuotedDecides(v, w);
  }

  // Of several labels, what stands before the last value is a nested name.
  lemma {:induction false} LastLabel(labels: Labels) returns (name: Bytes, value: Bytes)
    requires labels != []
    ensures Joined(labels) == name + [EQUALS] + Quoted(value)
    ensures if |labels| == 1 then labels == [(name, value)] else Nested(name)
  {
    hide Quoted;
    if |labels| == 1 {
      name, value := labels[0].0, labels[0].1;
      assert labels == [(name, value)];
      JoinedOne(name, value);
    } else {
      var later: Bytes;
      later, value := LastLabel(labels[1..]);
      var first := labels[0].0 + [EQUALS] + Quoted(labels[0].1);
      name := first + ([COMMA] + later);
      JoinedTurn(labels);
      NestedLabel(first, [COMMA], later, [EQUALS], Quoted(value));
      assert NestedAs(name, labels[0].0, labels[0].1, later);
    }
  }

  // Two labels or more print as one fewer.
  lemma {:induction false} Collapses(labels: Labels) returns (other: Labels)
    requires |labels| >= 2
    ensures Joined(other) == Joined(labels) && |other| == 1
  {
    var name, value := LastLabel(labels);
    JoinedOne(name, value);
    other := [(name, value)];
  }

  // A list prints as nothing else if and only if it is empty, or one label whose name does not begin
  // with a whole label and a comma.
  lemma {:induction false} PrintsAloneExactly(labels: Labels)
    ensures PrintsAlone(labels) <==> labels == [] || (|labels| == 1 && !Nested(labels[0].0))
  {
    hide Joined, Quoted;
    if |labels| >= 2 {
      var other := Collapses(labels);
    } else if labels != [] && Nested(labels[0].0) {
      var a, w, c :| NestedAs(labels[0].0, a, w, c);
      LabelsClash(a, w, c, labels[0].1);
      assert labels == [(a + [EQUALS] + Quoted(w) + ([COMMA] + c), labels[0].1)];
    } else {
      forall other: Labels | Joined(other) == Joined(labels)
        ensures other == labels
      {
        NothingElse(labels, other);
      }
    }
  }

  lemma {:induction false} NothingElse(labels: Labels, other: Labels)
    requires labels == [] || (|labels| == 1 && !Nested(labels[0].0))
    requires Joined(other) == Joined(labels)
    ensures other == labels
  {
    JoinedNothing(labels);
    JoinedNothing(other);
    hide Joined, Quoted;
    if labels != [] {
      var n, v := LastLabel(labels);
      var m, w := LastLabel(other);
      LabelDecides(n, v, m, w);
    }
  }

  // ----- Rows -----

  datatype Row = Row(name: Bytes, kind: Bytes, labels: Labels, value: int, description: Bytes)

  function Underscored(name: Bytes): Bytes {
    seq(|name|, i requires 0 <= i < |name| => if name[i] == DOT then UNDERSCORE else name[i])
  }

  // Each dot an underscore, every other byte as it was.
  lemma {:induction false} UnderscoredIs(name: Bytes)
    ensures |Underscored(name)| == |name| && DOT !in Underscored(name)
    ensures forall i :: 0 <= i < |name| ==>
              && (name[i] == DOT ==> Underscored(name)[i] == UNDERSCORE)
              && (name[i] != DOT ==> Underscored(name)[i] == name[i])
  {
  }

  function Braced(labels: Labels): Bytes {
    if labels == [] then [] else [OPEN] + Joined(labels) + [CLOSE]
  }

  function Sample(row: Row): Bytes {
    Underscored(row.name) + Braced(row.labels) + [SPACE] + Signed(row.value) + [NEWLINE]
  }

  // A scanner of a sample's line: the name up to a brace or a space, the labels, the value.
  function ScanSample(line: Bytes): Option<(Bytes, Labels, int)> {
    var at := NameEnd(line);
    if at == |line| then None
    else if line[at] == SPACE then
      if line[|line| - 1] != NEWLINE || at == |line| - 1 then None
      else Some((line[..at], [], SignedNumber(line[at + 1..|line| - 1])))
    else
      match ScanLabels(line[at + 1..])
      case None => None
      case Some((labels, rest)) =>
        if |rest| < 2 || rest[0] != SPACE || rest[|rest| - 1] != NEWLINE then None
        else Some((line[..at], labels, SignedNumber(rest[1..|rest| - 1])))
  }

  function NameEnd(line: Bytes): (at: nat)
    ensures at <= |line|
  {
    if line == [] || line[0] == OPEN || line[0] == SPACE then 0 else 1 + NameEnd(line[1..])
  }

  predicate PlainName(name: Bytes) {
    OPEN !in name && SPACE !in name
  }

  lemma {:induction false} NameEnds(name: Bytes, rest: Bytes)
    requires PlainName(name) && rest != [] && (rest[0] == OPEN || rest[0] == SPACE)
    ensures NameEnd(name + rest) == |name|
  {
    if name == [] {
      assert name + rest == rest;
    } else {
      assert (name + rest)[1..] == name[1..] + rest;
      NameEnds(name[1..], rest);
    }
  }

  lemma UnderscoredPlain(name: Bytes)
    requires PlainName(name)
    ensures PlainName(Underscored(name))
  {
  }

  lemma HeadCut(name: Bytes, c: byte, inside: Bytes)
    ensures var text := name + ([c] + inside);
            text[|name|] == c && text[..|name|] == name && text[|name| + 1..] == inside
  {
  }

  lemma TailCut(name: Bytes, value: Bytes)
    ensures var text := name + ([SPACE] + (value + [NEWLINE]));
            text[|text| - 1] == NEWLINE && |name| + 1 < |text| && text[|name| + 1..|text| - 1] == value
  {
  }

  lemma {:induction false} ScansBare(name: Bytes, value: Bytes)
    requires PlainName(name)
    ensures ScanSample(name + ([SPACE] + (value + [NEWLINE]))) == Some((name, [], SignedNumber(value)))
  {
    var rest := [SPACE] + (value + [NEWLINE]);
    NameEnds(name, rest);
    HeadCut(name, SPACE, value + [NEWLINE]);
    TailCut(name, value);
    hide NameEnd, PlainName, SignedNumber;
  }

  lemma {:induction false} ScansFrom(line: Bytes, at: nat, labels: Labels, rest: Bytes)
    requires NameEnd(line) == at < |line| && line[at] == OPEN
    requires ScanLabels(line[at + 1..]) == Some((labels, rest))
    requires |rest| >= 2 && rest[0] == SPACE && rest[|rest| - 1] == NEWLINE
    ensures ScanSample(line) == Some((line[..at], labels, SignedNumber(rest[1..|rest| - 1])))
  {
    hide NameEnd, SignedNumber, ScanLabels;
  }

  lemma {:induction false} ScansBraced(name: Bytes, inside: Bytes, labels: Labels, rest: Bytes)
    requires PlainName(name) && ScanLabels(inside) == Some((labels, rest))
    requires |rest| >= 2 && rest[0] == SPACE && rest[|rest| - 1] == NEWLINE
    ensures ScanSample(name + ([OPEN] + inside)) == Some((name, labels, SignedNumber(rest[1..|rest| - 1])))
  {
    hide SignedNumber, ScanLabels, ScanSample;
    NameEnds(name, [OPEN] + inside);
    HeadCut(name, OPEN, inside);
    hide NameEnd, PlainName;
    ScansFrom(name + ([OPEN] + inside), |name|, labels, rest);
  }

  lemma SampleParts(name: Bytes, joined: Bytes, tail: Bytes)
    ensures name + ([OPEN] + joined + [CLOSE]) + tail == name + ([OPEN] + (joined + [CLOSE] + tail))
    ensures name + [] + tail == name + tail
  {
  }

  lemma Ending(a: Bytes, space: Bytes, value: Bytes, end: Bytes)
    ensures a + space + value + end == a + (space + (value + end))
  {
  }

  lemma {:induction false} SampleIs(row: Row)
    ensures var tail := [SPACE] + (Signed(row.value) + [NEWLINE]);
            Sample(row) == if row.labels == [] then Underscored(row.name) + tail
                           else Underscored(row.name) + ([OPEN] + (Joined(row.labels) + [CLOSE] + tail))
  {
    hide Signed, Underscored, Joined;
    var tail := [SPACE] + (Signed(row.value) + [NEWLINE]);
    SampleParts(Underscored(row.name), Joined(row.labels), tail);
    Ending(Underscored(row.name) + Braced(row.labels), [SPACE], Signed(row.value), [NEWLINE]);
  }

  // A sample's line reads back as its name, its labels and its value.
  lemma {:induction false} ScansSample(row: Row)
    requires PlainName(row.name) && Clean(row.labels)
    ensures ScanSample(Sample(row)) == Some((Underscored(row.name), row.labels, row.value))
  {
    var name, value := Underscored(row.name), Signed(row.value);
    UnderscoredPlain(row.name);
    SignedReads(row.value);
    SampleIs(row);
    hide Sample, Signed, SignedNumber, Underscored, ScanLabels, Joined, Clean, PlainName, ScanSample;
    if row.labels == [] {
      ScansBare(name, value);
    } else {
      var tail := [SPACE] + (value + [NEWLINE]);
      ScansLabels(row.labels, tail);
      TailCut([], value);
      assert [] + tail == tail;
      ScansBraced(name, Joined(row.labels) + [CLOSE] + tail, row.labels, tail);
    }
  }

  // ----- The rows of a section -----

  datatype Line = Help(name: Bytes, description: Bytes) | Type(name: Bytes, kind: Bytes) | Sampled(row: Row)

  const HELP: Bytes := [35, 32, 72, 69, 76, 80, 32] // "# HELP "
  const TYPE: Bytes := [35, 32, 84, 89, 80, 69, 32] // "# TYPE "

  lemma SpelledHeaders()
    ensures Spells(HELP, "# HELP ") && Spells(TYPE, "# TYPE ")
  {
  }

  function Printed(line: Line): Bytes {
    match line
    case Help(name, description) => HELP + Underscored(name) + [SPACE] + description + [NEWLINE]
    case Type(name, kind) => TYPE + Underscored(name) + [SPACE] + kind + [NEWLINE]
    case Sampled(row) => Sample(row)
  }

  function AllPrinted(lines: seq<Line>): Bytes {
    if lines == [] then [] else Printed(lines[0]) + AllPrinted(lines[1..])
  }

  // A row whose name is not the last one brings its header.
  function RowLines(row: Row, last: Bytes): seq<Line> {
    (if row.name == last then []
     else (if row.description == [] then [] else [Help(row.name, row.description)]) + [Type(row.name, row.kind)])
    + [Sampled(row)]
  }

  function Lines(rows: seq<Row>, last: Bytes): seq<Line> {
    if rows == [] then [] else RowLines(rows[0], last) + Lines(rows[1..], rows[0].name)
  }

  lemma {:induction false} PrintedInTurn(x: seq<Line>, y: seq<Line>)
    ensures AllPrinted(x + y) == AllPrinted(x) + AllPrinted(y)
  {
    hide Printed;
    if x == [] {
      assert x + y == y;
    } else {
      assert (x + y)[1..] == x[1..] + y;
      PrintedInTurn(x[1..], y);
      Associate(Printed(x[0]), AllPrinted(x[1..]), AllPrinted(y));
    }
  }

  lemma {:induction false} PrintedOne(line: Line)
    ensures AllPrinted([line]) == Printed(line)
  {
    hide Printed;
    assert [line][1..] == [];
    assert Printed(line) + [] == Printed(line);
  }

  lemma {:induction false} BracedBy(labels: Labels)
    ensures Braced(labels) == if Joined(labels) == [] then [] else [OPEN] + Joined(labels) + [CLOSE]
  {
    hide Quoted;
  }

  // The lambda `render`.
  method Render(out: Bytes, last: Bytes, row: Row) returns (out': Bytes, last': Bytes)
    ensures out' == out + AllPrinted(RowLines(row, last)) && last' == row.name
  {
    BracedBy(row.labels);
    hide Underscored, HELP, TYPE, Signed, Joined, Braced;
    var name := Underscored(row.name);
    ghost var lines: seq<Line> := [];
    out', last' := out, last;
    if row.name != last {
      last' := row.name;
      if row.description != [] {
        out' := out' + (HELP + name + [SPACE] + row.description + [NEWLINE]);
        PrintedOne(Help(row.name, row.description));
        lines := [Help(row.name, row.description)];
      }
      out' := out' + (TYPE + name + [SPACE] + row.kind + [NEWLINE]);
      PrintedOne(Type(row.name, row.kind));
      PrintedInTurn(lines, [Type(row.name, row.kind)]);
      lines := lines + [Type(row.name, row.kind)];
    }
    assert out' == out + AllPrinted(lines);
    var labels := JoinLabels(row.labels);
    PrintedOne(Sampled(row));
    PrintedInTurn(lines, [Sampled(row)]);
    hide AllPrinted;
    ghost var sample := Printed(Sampled(row));
    Associate(out, AllPrinted(lines), sample);
    var braced := if labels == [] then [] else [OPEN] + labels + [CLOSE];
    out' := out' + (name + braced + [SPACE] + Signed(row.value) + [NEWLINE]);
    assert RowLines(row, last) == lines + [Sampled(row)];
  }

  lemma {:induction false} LinesTurn(rows: seq<Row>, i: nat, last: Bytes)
    requires i < |rows|
    ensures Lines(rows[i..], last) == RowLines(rows[i], last) + Lines(rows[i + 1..], rows[i].name)
    ensures AllPrinted(Lines(rows[i..], last)) ==
            AllPrinted(RowLines(rows[i], last)) + AllPrinted(Lines(rows[i + 1..], rows[i].name))
  {
    hide RowLines, AllPrinted;
    assert rows[i..][1..] == rows[i + 1..];
    PrintedInTurn(RowLines(rows[i], last), Lines(rows[i + 1..], rows[i].name));
  }

  const NO_NAME: Bytes := []

  // The lines of both sections; the last name runs through.
  function Exposition(counters: seq<Row>, gauges: seq<Row>): seq<Line> {
    Lines(counters + gauges, NO_NAME)
  }

  // The two loops over the sorted sections.
  method RenderSections(counters: seq<Row>, gauges: seq<Row>) returns (text: Bytes)
    ensures text == AllPrinted(Exposition(counters, gauges))
  {
    hide RowLines, AllPrinted, Lines;
    ghost var rows := counters + gauges;
    ghost var all := AllPrinted(Lines(rows, NO_NAME));
    var last := NO_NAME;
    text := [];
    assert rows[0..] == rows;
    for i := 0 to |counters|
      invariant text + AllPrinted(Lines(rows[i..], last)) == all
    {
      LinesTurn(rows, i, last);
      Associate(text, AllPrinted(RowLines(rows[i], last)), AllPrinted(Lines(rows[i + 1..], rows[i].name)));
      text, last := Render(text, last, counters[i]);
    }
    for i := 0 to |gauges|
      invariant text + AllPrinted(Lines(rows[|counters| + i..], last)) == all
    {
      ghost var at := |counters| + i;
      LinesTurn(rows, at, last);
      Associate(text, AllPrinted(RowLines(rows[at], last)), AllPrinted(Lines(rows[at + 1..], rows[at].name)));
      text, last := Render(text, last, gauges[i]);
    }
    NothingLeft(rows, last);
  }

  // ----- The order of a section -----

  const SEPARATOR: byte := 0x1f

  // AuditAttributesKey.
  function SortKey(labels: Labels): Bytes {
    if labels == [] then []
    else labels[0].0 + [EQUALS] + labels[0].1 + [SEPARATOR] + SortKey(labels[1..])
  }

  // The comparator `by_name`.
  predicate ByName(a: Row, b: Row) {
    if a.name == b.name then Below(SortKey(a.labels), SortKey(b.labels)) else Below(a.name, b.name)
  }

  predicate InOrder(rows: seq<Row>) {
    forall i, j :: 0 <= i < j < |rows| ==> !ByName(rows[j], rows[i])
  }

  // Sorted rows ascend by name, and those of one name by the key of their labels: each name, '=', value and
  // the byte 0x1f.
  lemma {:induction false} InOrderByBoth(rows: seq<Row>, i: nat, j: nat)
    requires InOrder(rows) && i < j < |rows|
    ensures rows[i].name == rows[j].name || Below(rows[i].name, rows[j].name)
    ensures rows[i].name == rows[j].name ==> !Below(SortKey(rows[j].labels), SortKey(rows[i].labels))
  {
    hide Below, SortKey;
    assert !ByName(rows[j], rows[i]);
    NotBelowBoth(rows[i].name, rows[j].name);
  }

  lemma {:induction false} SortKeyFirst(name: Bytes, value: Bytes, labels: Labels)
    ensures SortKey([(name, value)] + labels) == name + [61] + value + [31] + SortKey(labels)
  {
    assert ([(name, value)] + labels)[1..] == labels;
  }

  lemma {:induction false} NotByNameTransitive(a: Row, b: Row, c: Row)
    requires !ByName(b, a) && !ByName(c, b)
    ensures !ByName(c, a)
  {
    hide Below, SortKey;
    NotBelowBoth(a.name, b.name);
    NotBelowBoth(b.name, c.name);
    NotBelowBoth(a.name, c.name);
    NotBelowTransitive(a.name, b.name, c.name);
    if a.name == b.name == c.name {
      NotBelowTransitive(SortKey(a.labels), SortKey(b.labels), SortKey(c.labels));
    }
  }

  lemma {:induction false} ByNameOneWay(a: Row, b: Row)
    ensures !ByName(a, b) || !ByName(b, a)
  {
    hide Below, SortKey;
    NotBelowBoth(a.name, b.name);
    NotBelowBoth(SortKey(a.labels), SortKey(b.labels));
  }

  // What is promised of std::sort: the same rows, in order; rows that compare equal in any order.
  ghost predicate SortOf(sorted: seq<Row>, rows: seq<Row>) {
    multiset(sorted) == multiset(rows) && InOrder(sorted)
  }

  lemma {:induction false} PutIn(sorted: seq<Row>, at: nat, row: Row)
    requires at <= |sorted| && InOrder(sorted)
    requires forall i :: 0 <= i < at ==> !ByName(row, sorted[i])
    requires forall i :: at <= i < |sorted| ==> !ByName(sorted[i], row)
    ensures InOrder(sorted[..at] + [row] + sorted[at..])
    ensures multiset(sorted[..at] + [row] + sorted[at..]) == multiset(sorted) + multiset{row}
  {
    hide ByName;
    assert sorted == sorted[..at] + sorted[at..];
  }

  // Any sort will do; this one puts each row behind those it does not come before.
  method Sort(rows: seq<Row>) returns (sorted: seq<Row>)
    ensures SortOf(sorted, rows)
  {
    hide ByName;
    sorted := [];
    for i := 0 to |rows|
      invariant multiset(sorted) == multiset(rows[..i]) && InOrder(sorted)
    {
      var row := rows[i];
      var at := |sorted|;
      while at > 0 && ByName(row, sorted[at - 1])
        invariant 0 <= at <= |sorted|
        invariant forall j :: at <= j < |sorted| ==> !ByName(sorted[j], row)
      {
        ByNameOneWay(row, sorted[at - 1]);
        at := at - 1;
      }
      forall j | 0 <= j < at
        ensures !ByName(row, sorted[j])
      {
        if j < at - 1 {
          NotByNameTransitive(sorted[j], sorted[at - 1], row);
        }
      }
      PutIn(sorted, at, row);
      sorted := sorted[..at] + [row] + sorted[at..];
      assert rows[..i + 1] == rows[..i] + [row];
    }
    assert rows[..|rows|] == rows;
  }

  // Both snapshots sorted, and every row of each rendered.
  method RenderPrometheus(counters: seq<Row>, gauges: seq<Row>) returns (text: Bytes)
    ensures exists first, second ::
              SortOf(first, counters) && SortOf(second, gauges) && text == AllPrinted(Exposition(first, second))
  {
    hide SortOf, Exposition;
    var first := Sort(counters);
    var second := Sort(gauges);
    text := RenderSections(first, second);
  }

  lemma {:induction false} NothingLeft(rows: seq<Row>, last: Bytes)
    ensures AllPrinted(Lines(rows[|rows|..], last)) == []
  {
  }

  // ----- Each row once, under its header -----

  function RowsOf(line: Line): seq<Row> {
    if line.Sampled? then [line.row] else []
  }

  function Samples(lines: seq<Line>): seq<Row> {
    if lines == [] then [] else RowsOf(lines[0]) + Samples(lines[1..])
  }

  lemma RowsAssociate(x: seq<Row>, y: seq<Row>, z: seq<Row>)
    ensures (x + y) + z == x + (y + z)
  {
  }

  lemma {:induction false} SamplesInTurn(x: seq<Line>, y: seq<Line>)
    ensures Samples(x + y) == Samples(x) + Samples(y)
  {
    if x == [] {
      assert x + y == y;
    } else {
      hide RowsOf;
      assert (x + y)[1..] == x[1..] + y;
      SamplesInTurn(x[1..], y);
      RowsAssociate(RowsOf(x[0]), Samples(x[1..]), Samples(y));
    }
  }

  lemma {:induction false} SamplesOfHeader(lines: seq<Line>, row: Row)
    requires forall i :: 0 <= i < |lines| ==> !lines[i].Sampled?
    ensures Samples(lines + [Sampled(row)]) == [row]
  {
    if lines == [] {
      assert lines + [Sampled(row)] == [Sampled(row)];
      assert [Sampled(row)][1..] == [];
    } else {
      assert (lines + [Sampled(row)])[1..] == lines[1..] + [Sampled(row)];
      SamplesOfHeader(lines[1..], row);
    }
  }

  // The samples are the rows, each once and in order, with or without headers between them.
  lemma {:induction false} SamplesAreRows(rows: seq<Row>, last: Bytes)
    ensures Samples(Lines(rows, last)) == rows
  {
    if rows != [] {
      var row, lines := rows[0], RowLines(rows[0], last);
      assert lines[..|lines| - 1] + [Sampled(row)] == lines;
      SamplesOfHeader(lines[..|lines| - 1], row);
      SamplesInTurn(lines, Lines(rows[1..], row.name));
      SamplesAreRows(rows[1..], row.name);
      assert rows == [row] + rows[1..];
    }
  }

  // ----- One header for each name -----

  function Types(lines: seq<Line>, name: Bytes): nat {
    if lines == [] then 0
    else (if lines[0].Type? && lines[0].name == name then 1 else 0) + Types(lines[1..], name)
  }

  ghost predicate Named(rows: seq<Row>, name: Bytes) {
    exists i :: 0 <= i < |rows| && rows[i].name == name
  }

  predicate SortedByName(rows: seq<Row>) {
    forall i, j :: 0 <= i < j < |rows| ==> !Below(rows[j].name, rows[i].name)
  }

  lemma {:induction false} TypesInTurn(x: seq<Line>, y: seq<Line>, name: Bytes)
    ensures Types(x + y, name) == Types(x, name) + Types(y, name)
  {
    if x == [] {
      assert x + y == y;
    } else {
      assert (x + y)[1..] == x[1..] + y;
      TypesInTurn(x[1..], y, name);
    }
  }

  lemma {:induction false} TypesOfRow(row: Row, last: Bytes, name: Bytes)
    ensures Types(RowLines(row, last), name) == if row.name == name && name != last then 1 else 0
  {
    TypesOne(Sampled(row), name);
    if row.name != last {
      var help := if row.description == [] then [] else [Help(row.name, row.description)];
      TypesOne(Help(row.name, row.description), name);
      TypesOne(Type(row.name, row.kind), name);
      TypesInTurn(help, [Type(row.name, row.kind)], name);
      TypesInTurn(help + [Type(row.name, row.kind)], [Sampled(row)], name);
    } else {
      TypesInTurn([], [Sampled(row)], name);
    }
  }

  lemma {:induction false} TypesOne(line: Line, name: Bytes)
    ensures Types([line], name) == if line.Type? && line.name == name then 1 else 0
  {
    assert [line][1..] == [];
  }

  lemma {:induction false} InOrderByName(rows: seq<Row>)
    requires InOrder(rows)
    ensures SortedByName(rows)
  {
    hide Below, SortKey;
    forall i, j | 0 <= i < j < |rows|
      ensures !Below(rows[j].name, rows[i].name)
    {
      NotBelowBoth(rows[i].name, rows[i].name);
      assert !ByName(rows[j], rows[i]);
    }
  }

  lemma {:induction false} NamedIn(rows: seq<Row>, name: Bytes)
    requires rows != []
    ensures Named(rows, name) <==> rows[0].name == name || Named(rows[1..], name)
  {
    if Named(rows[1..], name) {
      var i :| 0 <= i < |rows[1..]| && rows[1..][i].name == name;
      assert rows[i + 1].name == name;
    }
    if Named(rows, name) && rows[0].name != name {
      var i :| 0 <= i < |rows| && rows[i].name == name;
      assert rows[1..][i - 1].name == name;
    }
  }

  // The rows of a name stand together: a name that has its row first and again later fills the space.
  lemma {:induction false} FirstAgain(rows: seq<Row>, name: Bytes)
    requires SortedByName(rows) && |rows| > 1 && rows[0].name == name && Named(rows[1..], name)
    ensures rows[1].name == name
  {
    hide Below;
    var i :| 0 <= i < |rows[1..]| && rows[1..][i].name == name;
    if i > 0 {
      assert !Below(rows[1].name, rows[0].name) && !Below(rows[i + 1].name, rows[1].name);
      BelowTotal(rows[1].name, name);
    }
  }

  // A sorted section behind a row named `last`: one TYPE line for each of its names, except for a first
  // name that carries on the last one.
  lemma {:induction false} TypedAfter(rows: seq<Row>, last: Bytes, name: Bytes)
    requires SortedByName(rows)
    ensures Types(Lines(rows, last), name) ==
            if Named(rows, name) && !(rows[0].name == name && name == last) then 1 else 0
  {
    hide Below, RowLines;
    if rows != [] {
      var row, later := rows[0], rows[1..];
      TypesInTurn(RowLines(row, last), Lines(later, row.name), name);
      TypesOfRow(row, last, name);
      TypedAfter(later, row.name, name);
      NamedIn(rows, name);
      if row.name == name && Named(later, name) {
        FirstAgain(rows, name);
      }
    }
  }

  lemma {:induction false} EmptyNameFirst(rows: seq<Row>)
    requires SortedByName(rows) && Named(rows, NO_NAME)
    ensures rows[0].name == NO_NAME
  {
    var i :| 0 <= i < |rows| && rows[i].name == NO_NAME;
    if i > 0 {
      assert !Below(rows[i].name, rows[0].name);
    }
  }

  // In the first section each name has one TYPE line, and only the empty name has none.
  lemma {:induction false} TypedOnce(rows: seq<Row>, name: Bytes)
    requires SortedByName(rows)
    ensures Types(Lines(rows, NO_NAME), name) == if Named(rows, name) && name != NO_NAME then 1 else 0
  {
    TypedAfter(rows, NO_NAME, name);
    if Named(rows, NO_NAME) {
      EmptyNameFirst(rows);
    }
  }

  function LastName(rows: seq<Row>, last: Bytes): Bytes {
    if rows == [] then last else rows[|rows| - 1].name
  }

  lemma {:induction false} LinesInTurn(x: seq<Row>, y: seq<Row>, last: Bytes)
    ensures Lines(x + y, last) == Lines(x, last) + Lines(y, LastName(x, last))
  {
    hide RowLines;
    if x == [] {
      assert x + y == y;
    } else {
      assert (x + y)[1..] == x[1..] + y;
      LinesInTurn(x[1..], y, x[0].name);
      LinesAssociate(RowLines(x[0], last), Lines(x[1..], x[0].name), Lines(y, LastName(x, last)));
    }
  }

  lemma LinesAssociate(x: seq<Line>, y: seq<Line>, z: seq<Line>)
    ensures (x + y) + z == x + (y + z)
  {
  }

  // In the whole text a name has a TYPE line for each section it is in, but for the empty name of the
  // counters, and for the gauges' first name where it is the counters' last.
  lemma {:induction false} TypedInBoth(counters: seq<Row>, gauges: seq<Row>, name: Bytes)
    requires InOrder(counters) && InOrder(gauges)
    ensures Types(Exposition(counters, gauges), name) ==
            (if Named(counters, name) && name != NO_NAME then 1 else 0)
            + (if Named(gauges, name) && !(gauges[0].name == name && name == LastName(counters, NO_NAME)) then 1 else 0)
  {
    InOrderByName(counters);
    InOrderByName(gauges);
    hide InOrder, SortedByName;
    LinesInTurn(counters, gauges, NO_NAME);
    TypesInTurn(Lines(counters, NO_NAME), Lines(gauges, LastName(counters, NO_NAME)), name);
    TypedOnce(counters, name);
    TypedAfter(gauges, LastName(counters, NO_NAME), name);
  }

  // ----- Headers that print alike -----

  ghost predicate HeaderOf(lines: seq<Line>, i: int, name: Bytes) {
    0 <= i < |lines| && lines[i].Type? && lines[i].name == name
  }

  lemma {:induction false} TypeFound(lines: seq<Line>, name: Bytes)
    ensures Types(lines, name) > 0 <==> exists i :: HeaderOf(lines, i, name)
  {
    if lines != [] {
      TypeFound(lines[1..], name);
      if i :| HeaderOf(lines[1..], i, name) {
        assert HeaderOf(lines, i + 1, name);
      }
      if i :| HeaderOf(lines, i, name) {
        if i > 0 {
          assert HeaderOf(lines[1..], i - 1, name);
        }
      }
      if lines[0].Type? && lines[0].name == name {
        assert HeaderOf(lines, 0, name);
      }
    }
  }

  lemma {:induction false} TypesTwice(lines: seq<Line>, i: int, j: int, name: Bytes)
    requires HeaderOf(lines, i, name) && HeaderOf(lines, j, name) && i < j
    ensures Types(lines, name) > 1
    decreases |lines|
  {
    if i > 0 {
      TypesTwice(lines[1..], i - 1, j - 1, name);
    } else {
      assert HeaderOf(lines[1..], j - 1, name);
      TypeFound(lines[1..], name);
    }
  }

  ghost predicate PrintAlike(lines: seq<Line>, i: int, j: int) {
    && 0 <= i < j < |lines| && lines[i].Type? && lines[j].Type?
    && Underscored(lines[i].name) == Underscored(lines[j].name)
  }

  lemma {:induction false} TwoTypes(lines: seq<Line>, name: Bytes) returns (i: int, j: int)
    requires Types(lines, name) > 1
    ensures i < j && HeaderOf(lines, i, name) && HeaderOf(lines, j, name)
    decreases |lines|
  {
    if lines[0].Type? && lines[0].name == name {
      TypeFound(lines[1..], name);
      var k :| HeaderOf(lines[1..], k, name);
      i, j := 0, k + 1;
    } else {
      i, j := TwoTypes(lines[1..], name);
      i, j := i + 1, j + 1;
    }
  }

  // Two names that print alike have a TYPE line each.
  ghost predicate BothTyped(lines: seq<Line>, a: Bytes, b: Bytes) {
    a != b && Types(lines, a) > 0 && Types(lines, b) > 0 && Underscored(a) == Underscored(b)
  }

  lemma {:induction false} AlikeTyped(lines: seq<Line>, i: int, j: int)
    requires PrintAlike(lines, i, j)
    ensures Types(lines, lines[i].name) > 1 || BothTyped(lines, lines[i].name, lines[j].name)
  {
    var a, b := lines[i].name, lines[j].name;
    assert HeaderOf(lines, i, a) && HeaderOf(lines, j, b);
    TypeFound(lines, a);
    TypeFound(lines, b);
    if a == b {
      TypesTwice(lines, i, j, a);
    }
  }

  lemma {:induction false} TypedAlike(lines: seq<Line>, a: Bytes, b: Bytes) returns (i: int, j: int)
    requires BothTyped(lines, a, b)
    ensures PrintAlike(lines, i, j)
  {
    TypeFound(lines, a);
    TypeFound(lines, b);
    i :| HeaderOf(lines, i, a);
    j :| HeaderOf(lines, j, b);
    i, j := if i < j then i else j, if i < j then j else i;
  }

  ghost predicate Clash(rows: seq<Row>, a: Bytes, b: Bytes) {
    && a != b && a != NO_NAME && b != NO_NAME && Named(rows, a) && Named(rows, b)
    && Underscored(a) == Underscored(b)
  }

  // Two TYPE lines of a sorted section name the same metric if and only if two of its names differ in
  // dots and underscores only.
  lemma {:induction false} HeadersClashExactly(rows: seq<Row>)
    requires SortedByName(rows)
    ensures (exists i, j :: PrintAlike(Lines(rows, NO_NAME), i, j)) <==> exists a, b :: Clash(rows, a, b)
  {
    var lines := Lines(rows, NO_NAME);
    hide SortedByName, Lines, Underscored, Types;
    if i, j :| PrintAlike(lines, i, j) {
      var a, b := lines[i].name, lines[j].name;
      AlikeTyped(lines, i, j);
      TypedOnce(rows, a);
      TypedOnce(rows, b);
      assert Clash(rows, a, b);
    }
    if a, b :| Clash(rows, a, b) {
      TypedOnce(rows, a);
      TypedOnce(rows, b);
      var i, j := TypedAlike(lines, a, b);
    }
  }

  // The name has a TYPE line among the counters; among the gauges.
  ghost predicate HeadsCounters(counters: seq<Row>, name: Bytes) {
    Named(counters, name) && name != NO_NAME
  }

  ghost predicate HeadsGauges(counters: seq<Row>, gauges: seq<Row>, name: Bytes) {
    Named(gauges, name) && !(gauges[0].name == name && name == LastName(counters, NO_NAME))
  }

  ghost predicate Heads(counters: seq<Row>, gauges: seq<Row>, name: Bytes) {
    HeadsCounters(counters, name) || HeadsGauges(counters, gauges, name)
  }

  ghost predicate HeadsBoth(counters: seq<Row>, gauges: seq<Row>, name: Bytes) {
    HeadsCounters(counters, name) && HeadsGauges(counters, gauges, name)
  }

  ghost predicate HeadsAlike(counters: seq<Row>, gauges: seq<Row>, a: Bytes, b: Bytes) {
    a != b && Heads(counters, gauges, a) && Heads(counters, gauges, b) && Underscored(a) == Underscored(b)
  }

  lemma {:induction false} HeadsTyped(counters: seq<Row>, gauges: seq<Row>, name: Bytes)
    requires InOrder(counters) && InOrder(gauges)
    ensures Types(Exposition(counters, gauges), name) > 1 <==> HeadsBoth(counters, gauges, name)
    ensures Types(Exposition(counters, gauges), name) > 0 <==> Heads(counters, gauges, name)
  {
    TypedInBoth(counters, gauges, name);
  }

  // In the whole text, two TYPE lines print the same metric if and only if a name heads both sections, or
  // two names that head a section differ in dots and underscores only.
  lemma {:induction false} TextClashesExactly(counters: seq<Row>, gauges: seq<Row>)
    requires InOrder(counters) && InOrder(gauges)
    ensures (exists i, j :: PrintAlike(Exposition(counters, gauges), i, j)) <==>
            (exists a :: HeadsBoth(counters, gauges, a)) || exists a, b :: HeadsAlike(counters, gauges, a, b)
  {
    var lines := Exposition(counters, gauges);
    hide Types, HeadsBoth, Heads, Underscored, Exposition, InOrder;
    if i, j :| PrintAlike(lines, i, j) {
      var a, b := lines[i].name, lines[j].name;
      AlikeTyped(lines, i, j);
      HeadsTyped(counters, gauges, a);
      HeadsTyped(counters, gauges, b);
      assert HeadsBoth(counters, gauges, a) || HeadsAlike(counters, gauges, a, b);
    }
    if a :| HeadsBoth(counters, gauges, a) {
      HeadsTyped(counters, gauges, a);
      var i, j := TwoTypes(lines, a);
      assert PrintAlike(lines, i, j);
    }
    if a, b :| HeadsAlike(counters, gauges, a, b) {
      HeadsTyped(counters, gauges, a);
      HeadsTyped(counters, gauges, b);
      var i, j := TypedAlike(lines, a, b);
    }
  }
}
