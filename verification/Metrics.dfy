/**
  The keyed metrics of `hooks/ext_hooks.hpp`: counters behind a string key, gauges behind a search,
  both standing for a table keyed by the pair of a name and its attributes.
 */
module Metrics {
  import opened Bytes
  import opened Decimals
  import opened Ordered
  import opened Wrappers

  type Attributes = seq<(Bytes, Bytes)>
  datatype Pair = Pair(name: Bytes, attributes: Attributes)

  // ----- AttributesKey -----

  const COLON: byte := 58

  function Prefixed(s: Bytes): Bytes {
    Decimal(|s|) + [COLON] + s
  }

  function KeyOf(attributes: Attributes): Bytes {
    if attributes == [] then []
    else (Prefixed(attributes[0].0) + Prefixed(attributes[0].1)) + KeyOf(attributes[1..])
  }

  function FullKey(pair: Pair): Bytes {
    KeyOf([(pair.name, [])]) + KeyOf(pair.attributes)
  }

  method AttributesKey(attributes: Attributes) returns (key: Bytes)
    ensures key == KeyOf(attributes)
  {
    hide Decimal;
    key := [];
    for i := 0 to |attributes|
      invariant key + KeyOf(attributes[i..]) == KeyOf(attributes)
    {
      ghost var x, y := Prefixed(attributes[i].0), Prefixed(attributes[i].1);
      ghost var rest := KeyOf(attributes[i + 1..]);
      assert attributes[i..][1..] == attributes[i + 1..];
      Associate(key, x + y, rest);
      Associate(key, x, y);
      key := key + (Decimal(|attributes[i].0|) + [COLON] + attributes[i].0);
      key := key + (Decimal(|attributes[i].1|) + [COLON] + attributes[i].1);
    }
  }

  lemma {:induction false} NoColon(n: nat)
    ensures COLON !in Decimal(n)
  {
    DecimalReads(n);
    hide Decimal, Number;
  }

  // A length-prefixed text can be told from what follows it.
  lemma {:induction false} PrefixDecides(s: Bytes, x: Bytes, t: Bytes, y: Bytes)
    requires Prefixed(s) + x == Prefixed(t) + y
    ensures s == t && x == y
  {
    NoColon(|s|);
    NoColon(|t|);
    DecimalReads(|s|);
    DecimalReads(|t|);
    PrefixedCut(s, x);
    PrefixedCut(t, y);
    hide Decimal, Prefixed, Number, AllDigits;
    SplitUnique(COLON, Decimal(|s|), [COLON] + (s + x), Decimal(|t|), [COLON] + (t + y));
    SameSizeCut([COLON], s + x, [COLON], t + y);
    SameSizeCut(s, x, t, y);
  }

  lemma PrefixedCut(s: Bytes, x: Bytes)
    ensures Prefixed(s) + x == Decimal(|s|) + ([COLON] + (s + x))
  {
    hide Decimal;
    Associate(Decimal(|s|) + [COLON], s, x);
    Associate(Decimal(|s|), [COLON], s + x);
  }

  lemma {:induction false} KeyDecides(a: Attributes, b: Attributes)
    requires KeyOf(a) == KeyOf(b)
    ensures a == b
  {
    hide Prefixed;
    PrefixedNonempty(if a == [] then [] else a[0].0);
    PrefixedNonempty(if b == [] then [] else b[0].0);
    if a != [] && b != [] {
      FirstDecides(a[0], KeyOf(a[1..]), b[0], KeyOf(b[1..]));
      KeyDecides(a[1..], b[1..]);
      assert a == [a[0]] + a[1..] && b == [b[0]] + b[1..];
    }
  }

  lemma PrefixedNonempty(s: Bytes)
    ensures Prefixed(s) != []
  {
  }

  lemma {:induction false} FirstDecides(a: (Bytes, Bytes), x: Bytes, b: (Bytes, Bytes), y: Bytes)
    requires (Prefixed(a.0) + Prefixed(a.1)) + x == (Prefixed(b.0) + Prefixed(b.1)) + y
    ensures a == b && x == y
  {
    Associate(Prefixed(a.0), Prefixed(a.1), x);
    Associate(Prefixed(b.0), Prefixed(b.1), y);
    hide Prefixed;
    PrefixDecides(a.0, Prefixed(a.1) + x, b.0, Prefixed(b.1) + y);
    PrefixDecides(a.1, x, b.1, y);
  }

  // No two pairs share a key.
  lemma {:induction false} FullKeyDecides(p: Pair, q: Pair)
    requires FullKey(p) == FullKey(q)
    ensures p == q
  {
    KeyOfOne(p.name);
    KeyOfOne(q.name);
    hide KeyOf, Prefixed;
    FirstDecides((p.name, []), KeyOf(p.attributes), (q.name, []), KeyOf(q.attributes));
    KeyDecides(p.attributes, q.attributes);
  }

  lemma {:induction false} KeyOfOne(name: Bytes)
    ensures KeyOf([(name, [])]) == Prefixed(name) + Prefixed([])
  {
    hide Prefixed;
    var one: Attributes := [(name, [])];
    assert one[1..] == [];
    assert KeyOf(one) == (Prefixed(name) + Prefixed([])) + KeyOf(one[1..]);
  }

  // The key of one attribute, "a" with the value "bc", is "1:a2:bc".
  lemma {:induction false} KeyExample()
    ensures Spells(KeyOf([([97], [98, 99])]), "1:a2:bc")
  {
    var name: Bytes, value: Bytes := [97], [98, 99];
    var one: Attributes := [(name, value)];
    assert one[1..] == [];
    assert Decimal(1) == [49] && Decimal(2) == [50] by {
      assert Digit(1) == 49 && Digit(2) == 50;
    }
    assert KeyOf(one) == [49, COLON, 97, 50, COLON, 98, 99];
  }

  // ----- Counters -----

  datatype Kind = Counter | Gauge

  datatype Metric = Metric(name: Bytes, kind: Kind, attributes: Attributes, value: int, unit: Bytes, description: Bytes)

  const ONE: Bytes := [49]

  // The table the counters stand for.
  type Table = map<Pair, int>

  function Total(table: Table, pair: Pair): int {
    if pair in table then table[pair] else 0
  }

  function Recorded(table: Table, pair: Pair, delta: int): Table {
    table[pair := Total(table, pair) + delta]
  }

  // A row for each pair of the table, and no other.
  ghost predicate RowsOf(rows: seq<Metric>, table: Table) {
    && |rows| == |table|
    && (forall i :: 0 <= i < |rows| ==> PairOf(rows[i]) in table)
    && (forall i :: 0 <= i < |rows| ==> rows[i] == Row(PairOf(rows[i]), Total(table, PairOf(rows[i]))))
    && forall i, j :: 0 <= i < j < |rows| ==> Below(FullKey(PairOf(rows[i])), FullKey(PairOf(rows[j])))
  }

  function Row(pair: Pair, value: int): Metric {
    Metric(pair.name, Counter, pair.attributes, value, ONE, [])
  }

  // A counter's row, by fields: its unit is "1" and it has no description.
  lemma RowIsCounter(pair: Pair, value: int)
    ensures var row := Row(pair, value);
            && row.name == pair.name && row.kind == Counter && row.attributes == pair.attributes
            && row.value == value && row.description == [] && Spells(row.unit, "1")
  {
  }

  function PairOf(row: Metric): Pair {
    Pair(row.name, row.attributes)
  }

  // The row of a key.
  predicate RowIs(row: Metric, key: Bytes, table: Table) {
    PairOf(row) in table && FullKey(PairOf(row)) == key && row == Row(PairOf(row), Total(table, PairOf(row)))
  }

  lemma RowsInOrder(rows: seq<Metric>, order: seq<Bytes>, table: Table)
    requires |rows| == |order| == |table| && Ascending(order)
    requires forall j :: 0 <= j < |rows| ==> RowIs(rows[j], order[j], table)
    ensures RowsOf(rows, table)
  {
    hide FullKey, Below, Total, Row;
  }

  ghost function Image(pairs: set<Pair>): set<Bytes> {
    set p | p in pairs :: FullKey(p)
  }

  lemma {:induction false} ImageSize(pairs: set<Pair>)
    ensures |Image(pairs)| == |pairs|
    decreases |pairs|
  {
    hide FullKey;
    if pairs != {} {
      var p :| p in pairs;
      ImageSize(pairs - {p});
      if FullKey(p) in Image(pairs - {p}) {
        var q :| q in pairs - {p} && FullKey(q) == FullKey(p);
        FullKeyDecides(p, q);
      }
      assert Image(pairs) == Image(pairs - {p}) + {FullKey(p)};
    }
  }

  // The two maps of a Counters hold a table.
  ghost predicate Holds(values: map<Bytes, int>, keys: map<Bytes, Pair>, table: Table) {
    && keys.Keys == values.Keys
    && (forall p :: p in table ==> FullKey(p) in values && values[FullKey(p)] == table[p])
    && forall k :: k in keys ==> keys[k] in table && FullKey(keys[k]) == k
  }

  // The key is there exactly when the pair is.
  lemma Found(values: map<Bytes, int>, keys: map<Bytes, Pair>, table: Table, pair: Pair)
    requires Holds(values, keys, table)
    ensures FullKey(pair) in values <==> pair in table
  {
    hide FullKey;
    if FullKey(pair) in values {
      FullKeyDecides(keys[FullKey(pair)], pair);
    }
  }

  lemma HoldsAfter(values: map<Bytes, int>, keys: map<Bytes, Pair>, table: Table, pair: Pair, delta: int)
    requires Holds(values, keys, table)
    ensures var key := FullKey(pair);
            if key in values then
              Holds(values[key := values[key] + delta], keys, Recorded(table, pair, delta))
            else
              Holds(values[key := delta], keys[key := pair], Recorded(table, pair, delta))
  {
    hide FullKey;
    Found(values, keys, table, pair);
    forall p | p in table && FullKey(p) == FullKey(pair)
      ensures p == pair
    {
      FullKeyDecides(p, pair);
    }
  }

  class Counters {
    var values: map<Bytes, int>
    var keys: map<Bytes, Pair>
    ghost var table: Table

    ghost predicate Valid()
      reads this
    {
      Holds(values, keys, table)
    }

    constructor ()
      ensures Valid() && table == map[]
    {
      values := map[];
      keys := map[];
      table := map[];
    }

    method Add(name: Bytes, attributes: Attributes, delta: int)
      requires Valid()
      modifies this
      ensures Valid() && table == Recorded(old(table), Pair(name, attributes), delta)
    {
      hide KeyOf;
      var prefix := AttributesKey([(name, [])]);
      var suffix := AttributesKey(attributes);
      var key := prefix + suffix;
      HoldsAfter(values, keys, table, Pair(name, attributes), delta);
      assert key == FullKey(Pair(name, attributes));
      hide Holds, FullKey;
      if key !in values {
        values := values[key := delta];
        keys := keys[key := Pair(name, attributes)];
      } else {
        values := values[key := values[key] + delta];
      }
      table := Recorded(table, Pair(name, attributes), delta);
    }

    method Get(name: Bytes, attributes: Attributes) returns (total: int)
      requires Valid()
      ensures total == Total(table, Pair(name, attributes))
    {
      hide KeyOf;
      var prefix := AttributesKey([(name, [])]);
      var suffix := AttributesKey(attributes);
      var key := prefix + suffix;
      Found(values, keys, table, Pair(name, attributes));
      total := if key in values then values[key] else 0;
    }

    // A std::map is walked in the order of its keys.
    method Snapshot() returns (rows: seq<Metric>)
      requires Valid()
      ensures RowsOf(rows, table)
    {
      hide FullKey, Below, Total, Row;
      rows := [];
      var order := Walk(values.Keys);
      for i := 0 to |order|
        invariant |rows| == i
        invariant forall j :: 0 <= j < i ==> RowIs(rows[j], order[j], table)
      {
        var k := order[i];
        assert k in values;
        KeyRow(k);
        var named := keys[k];
        rows := rows + [Metric(named.name, Counter, named.attributes, values[k], ONE, [])];
      }
      SameSize();
      RowsInOrder(rows, order, table);
    }

    lemma KeyRow(k: Bytes)
      requires Valid() && k in values
      ensures k in keys && RowIs(Metric(keys[k].name, Counter, keys[k].attributes, values[k], ONE, []), k, table)
    {
      hide FullKey;
    }

    lemma SameSize()
      requires Valid()
      ensures |values| == |table|
    {
      hide FullKey;
      ImageSize(table.Keys);
      assert values.Keys == Image(table.Keys);
    }
  }

  // ----- Counters over a history -----

  datatype Addition = Addition(pair: Pair, delta: int)

  function Replayed(additions: seq<Addition>): Table {
    if additions == [] then map[]
    else
      var last := additions[|additions| - 1];
      Recorded(Replayed(additions[..|additions| - 1]), last.pair, last.delta)
  }

  function SumFor(additions: seq<Addition>, pair: Pair): int {
    if additions == [] then 0
    else (if additions[0].pair == pair then additions[0].delta else 0) + SumFor(additions[1..], pair)
  }

  lemma {:induction false} SumForLast(additions: seq<Addition>, last: Addition, pair: Pair)
    ensures SumFor(additions + [last], pair) ==
            SumFor(additions, pair) + if last.pair == pair then last.delta else 0
  {
    if additions == [] {
      assert [last][1..] == [];
      assert additions + [last] == [last];
    } else {
      assert (additions + [last])[1..] == additions[1..] + [last];
      SumForLast(additions[1..], last, pair);
    }
  }

  // A counter is the sum of exactly its pair's additions, and there is one for each pair ever added to.
  lemma {:induction false} CountersAreSums(additions: seq<Addition>, pair: Pair)
    ensures Total(Replayed(additions), pair) == SumFor(additions, pair)
    ensures pair in Replayed(additions) <==> exists i :: 0 <= i < |additions| && additions[i].pair == pair
  {
    if additions != [] {
      var n := |additions| - 1;
      var before, last := additions[..n], additions[n];
      CountersAreSums(before, pair);
      SumForLast(before, last, pair);
      assert additions == before + [last];
      if pair in Replayed(before) {
        var i :| 0 <= i < |before| && before[i].pair == pair;
        assert additions[i].pair == pair;
      }
    }
  }

  // ----- Gauges -----

  // A reader is an opaque token; what it answers, or that it throws, is read from an oracle.
  type Reader = int

  datatype Entry = Entry(name: Bytes, attributes: Attributes, unit: Bytes, description: Bytes, reader: Reader)

  function Names(entry: Entry): Pair {
    Pair(entry.name, entry.attributes)
  }

  ghost predicate Distinct(entries: seq<Entry>) {
    forall i, j :: 0 <= i < j < |entries| ==> Names(entries[i]) != Names(entries[j])
  }

  // The place of a pair's entry, or the length.
  function Place(entries: seq<Entry>, pair: Pair): (at: nat)
    ensures at <= |entries| && (at < |entries| ==> Names(entries[at]) == pair)
    ensures forall i :: 0 <= i < at ==> Names(entries[i]) != pair
  {
    if entries == [] || Names(entries[0]) == pair then 0
    else
      var at := Place(entries[1..], pair);
      assert forall i :: 1 <= i < at + 1 ==> entries[i] == entries[1..][i - 1];
      at + 1
  }

  // In the place of its pair's entry, or at the end.
  function With(entries: seq<Entry>, entry: Entry): seq<Entry> {
    var at := Place(entries, Names(entry));
    if at < |entries| then entries[at := entry] else entries + [entry]
  }

  function Without(entries: seq<Entry>, pair: Pair): seq<Entry> {
    if entries == [] then []
    else (if Names(entries[0]) == pair then [] else [entries[0]]) + Without(entries[1..], pair)
  }

  function Rows(entries: seq<Entry>, answer: Reader -> Option<int>): seq<Metric> {
    if entries == [] then []
    else GaugeRow(entries[0], answer(entries[0].reader)) + Rows(entries[1..], answer)
  }

  // One row, or none when the reader throws.
  function GaugeRow(entry: Entry, answer: Option<int>): seq<Metric> {
    match answer
    case None => []
    case Some(value) => [RowFor(entry, value)]
  }

  class Gauges {
    var entries: seq<Entry>

    constructor ()
      ensures entries == []
    {
      entries := [];
    }

    method Register(name: Bytes, attributes: Attributes, unit: Bytes, description: Bytes, reader: Reader)
      requires Distinct(entries)
      modifies this
      ensures Distinct(entries)
      ensures entries == With(old(entries), Entry(name, attributes, unit, description, reader))
    {
      ghost var pair := Pair(name, attributes);
      ghost var at := Place(entries, pair);
      for i := 0 to |entries|
        invariant i <= at
        invariant entries == old(entries)
      {
        if entries[i].name == name && entries[i].attributes == attributes {
          entries := entries[i := entries[i].(unit := unit, description := description, reader := reader)];
          return;
        }
      }
      entries := entries + [Entry(name, attributes, unit, description, reader)];
    }

    method Remove(name: Bytes, attributes: Attributes)
      modifies this
      ensures entries == Without(old(entries), Pair(name, attributes))
    {
      ghost var pair := Pair(name, attributes);
      var i := 0;
      while i < |entries|
        invariant i <= |entries|
        invariant entries[..i] + Without(entries[i..], pair) == Without(old(entries), pair)
        decreases |entries| - i
      {
        ghost var before, rest := entries[..i], entries[i..];
        assert rest[1..] == entries[i + 1..];
        if entries[i].name == name && entries[i].attributes == attributes {
          entries := entries[..i] + entries[i + 1..];
          assert entries[..i] == before && entries[i..] == rest[1..];
        } else {
          assert entries[..i + 1] == before + [rest[0]];
          assert before + ([rest[0]] + Without(rest[1..], pair)) == (before + [rest[0]]) + Without(rest[1..], pair);
          i := i + 1;
        }
      }
      assert entries[..i] == entries && entries[i..] == [];
    }

    method Snapshot(answer: Reader -> Option<int>) returns (rows: seq<Metric>)
      ensures rows == Rows(entries, answer)
    {
      rows := [];
      for i := 0 to |entries|
        invariant rows + Rows(entries[i..], answer) == Rows(entries, answer)
      {
        ghost var before, later := rows, Rows(entries[i + 1..], answer);
        ghost var row := GaugeRow(entries[i], answer(entries[i].reader));
        assert entries[i..][1..] == entries[i + 1..];
        assert (before + row) + later == before + (row + later);
        match answer(entries[i].reader) {
          case None =>
            assert row == [] && before + row == before;
          case Some(value) =>
            var entry := entries[i];
            rows := rows + [Metric(entry.name, Gauge, entry.attributes, value, entry.unit, entry.description)];
        }
      }
    }
  }

  // ----- Gauges as a table -----

  // What is registered for a pair.
  function Registered(entries: seq<Entry>, pair: Pair): Option<Entry> {
    var at := Place(entries, pair);
    if at < |entries| then Some(entries[at]) else None
  }

  lemma {:induction false} RegisteredAt(entries: seq<Entry>, i: nat)
    requires Distinct(entries) && i < |entries|
    ensures Registered(entries, Names(entries[i])) == Some(entries[i])
  {
  }

  lemma {:induction false} RegisteredSome(entries: seq<Entry>, entry: Entry)
    requires Distinct(entries)
    ensures Registered(entries, Names(entry)) == Some(entry) <==> entry in entries
  {
    if entry in entries {
      var i :| 0 <= i < |entries| && entries[i] == entry;
      RegisteredAt(entries, i);
    }
  }

  // Register sets the pair's entry and no other.
  lemma {:induction false} RegisterSets(entries: seq<Entry>, entry: Entry, pair: Pair)
    requires Distinct(entries)
    ensures Distinct(With(entries, entry))
    ensures Registered(With(entries, entry), pair) ==
            if pair == Names(entry) then Some(entry) else Registered(entries, pair)
  {
    var after, at := With(entries, entry), Place(entries, Names(entry));
    assert after[at] == entry;
    RegisteredAt(after, at);
    if pair != Names(entry) {
      var i, j := Place(entries, pair), Place(after, pair);
      assert i < |entries| ==> i != at && after[i] == entries[i];
      assert j < |after| ==> j != at && after[j] == entries[j];
    }
  }

  lemma {:induction false} WithoutKeeps(entries: seq<Entry>, pair: Pair, entry: Entry)
    ensures entry in Without(entries, pair) <==> entry in entries && Names(entry) != pair
  {
    if entries != [] {
      WithoutKeeps(entries[1..], pair, entry);
    }
  }

  lemma {:induction false} WithoutDistinct(entries: seq<Entry>, pair: Pair)
    requires Distinct(entries)
    ensures Distinct(Without(entries, pair))
  {
    if entries != [] {
      var later := Without(entries[1..], pair);
      WithoutDistinct(entries[1..], pair);
      forall i | 0 <= i < |later|
        ensures Names(later[i]) != Names(entries[0])
      {
        WithoutKeeps(entries[1..], pair, later[i]);
        assert later[i] in later;
      }
    }
  }

  // Remove deletes the pair's entry and no other.
  lemma {:induction false} RemoveDeletes(entries: seq<Entry>, pair: Pair, other: Pair)
    requires Distinct(entries)
    ensures Distinct(Without(entries, pair))
    ensures Registered(Without(entries, pair), other) == if other == pair then None else Registered(entries, other)
  {
    var after := Without(entries, pair);
    WithoutDistinct(entries, pair);
    var before, now := Registered(entries, other), Registered(after, other);
    if now.Some? {
      WithoutKeeps(entries, pair, now.value);
      RegisteredSome(entries, now.value);
    }
    if before.Some? {
      WithoutKeeps(entries, pair, before.value);
      RegisteredSome(after, before.value);
    }
  }

  // A snapshot's rows are the answers of the registered readers that do not throw.
  lemma {:induction false} RowsAre(entries: seq<Entry>, answer: Reader -> Option<int>, row: Metric)
    requires Distinct(entries)
    ensures row in Rows(entries, answer) <==>
            var entry := Registered(entries, PairOf(row));
            entry.Some? && answer(entry.value.reader) == Some(row.value) && row == RowFor(entry.value, row.value)
  {
    var entry := Registered(entries, PairOf(row));
    if row in Rows(entries, answer) {
      var e := RowFrom(entries, answer, row);
      RegisteredSome(entries, e);
    }
    if entry.Some? && answer(entry.value.reader) == Some(row.value) && row == RowFor(entry.value, row.value) {
      RegisteredSome(entries, entry.value);
      RowThere(entries, answer, entry.value);
    }
  }

  function RowFor(entry: Entry, value: int): Metric {
    Metric(entry.name, Gauge, entry.attributes, value, entry.unit, entry.description)
  }

  // A gauge that is registered and answers has this row.
  lemma {:induction false} RowOfGauge(entries: seq<Entry>, answer: Reader -> Option<int>, i: nat, value: int)
    requires i < |entries| && answer(entries[i].reader) == Some(value)
    ensures Metric(entries[i].name, Gauge, entries[i].attributes, value, entries[i].unit, entries[i].description)
            in Rows(entries, answer)
  {
    RowThere(entries, answer, entries[i]);
  }

  lemma {:induction false} RowFrom(entries: seq<Entry>, answer: Reader -> Option<int>, row: Metric) returns (e: Entry)
    requires row in Rows(entries, answer)
    ensures e in entries && answer(e.reader) == Some(row.value) && row == RowFor(e, row.value)
  {
    if row in GaugeRow(entries[0], answer(entries[0].reader)) {
      e := entries[0];
    } else {
      e := RowFrom(entries[1..], answer, row);
    }
  }

  lemma {:induction false} RowThere(entries: seq<Entry>, answer: Reader -> Option<int>, e: Entry)
    requires e in entries && answer(e.reader).Some?
    ensures RowFor(e, answer(e.reader).value) in Rows(entries, answer)
  {
    if e == entries[0] {
      assert RowFor(e, answer(e.reader).value) in GaugeRow(e, answer(e.reader));
    } else {
      RowThere(entries[1..], answer, e);
    }
  }

  // And no pair has two rows.
  lemma {:induction false} RowsDistinct(entries: seq<Entry>, answer: Reader -> Option<int>)
    requires Distinct(entries)
    ensures forall i, j :: 0 <= i < j < |Rows(entries, answer)| ==>
              PairOf(Rows(entries, answer)[i]) != PairOf(Rows(entries, answer)[j])
  {
    if entries != [] {
      RowsDistinct(entries[1..], answer);
      var later := Rows(entries[1..], answer);
      forall j | 0 <= j < |later|
        ensures PairOf(later[j]) != Names(entries[0])
      {
        var e := RowFrom(entries[1..], answer, later[j]);
      }
    }
  }
}
