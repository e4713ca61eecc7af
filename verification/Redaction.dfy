/**
  The redaction of `oidc/src/oidc_core.cpp`: `Redact` and `HideIn` replace each occurrence of a
  presented value by a fixed mark, searching on from the mark itself.

  The mark has bytes of its own, so two questions are not settled by reading the loop: does it end,
  and is the value gone when it does? Both are answered exactly, for every text and every value.
  The loop's own lemmas hold for any mark; `MARK` comes in where its bytes matter.
 */
module Redaction {
  import opened Bytes

  const LT: byte := 60
  const GT: byte := 62

  // "redacted"
  const WORD: Bytes := [114, 101, 100, 97, 99, 116, 101, 100]

  // "<redacted>"
  const MARK: Bytes := [60, 114, 101, 100, 97, 99, 116, 101, 100, 62]

  // A value shorter than this is left alone.
  const SHORTEST := 8

  lemma SpelledMark()
    ensures Spells(MARK, "<redacted>") && Spells(WORD, "redacted")
  {
  }

  function Replaced(text: Bytes, s: Bytes, mark: Bytes, p: nat): Bytes
    requires OccursAt(s, text, p)
  {
    text[..p] + mark + text[p + |s|..]
  }

  // ----- The loop as a machine: does it end? -----

  // The loop ends within n replacements, from a search at `from`.
  predicate EndsWithin(text: Bytes, s: Bytes, mark: Bytes, from: nat, n: nat)
    decreases n
  {
    var p := Find(text, s, from);
    FindsFirst(text, s, from);
    p == NPOS || (n > 0 && EndsWithin(Replaced(text, s, mark, p), s, mark, p, n - 1))
  }

  ghost predicate LoopEnds(text: Bytes, s: Bytes, mark: Bytes) {
    exists n :: EndsWithin(text, s, mark, 0, n)
  }

  lemma {:induction false} MarkPlaced(text: Bytes, s: Bytes, mark: Bytes, p: nat)
    requires OccursAt(s, text, p)
    ensures OccursAt(mark, Replaced(text, s, mark, p), p)
  {
  }

  // A value found inside the mark is found again in every mark it is replaced by.
  lemma {:induction false} NeverEnds(text: Bytes, s: Bytes, mark: Bytes, from: nat, n: nat)
    requires OccursAt(mark, text, from) && Occurs(s, mark)
    ensures !EndsWithin(text, s, mark, from, n)
    decreases n
  {
    var k :| OccursAt(s, mark, k);
    assert forall i :: 0 <= i < |s| ==> text[from + k + i] == mark[k + i] == s[i];
    assert OccursAt(s, text, from + k);
    var p := Find(text, s, from);
    FindsFirst(text, s, from);
    if n > 0 {
      MarkPlaced(text, s, mark, p);
      NeverEnds(Replaced(text, s, mark, p), s, mark, p, n - 1);
    }
  }

  // An occurrence that starts inside the mark ends beyond it, when the value is no part of the mark.
  lemma {:induction false} PastTheMark(text: Bytes, s: Bytes, mark: Bytes, at: nat, p: nat)
    requires OccursAt(mark, text, at) && OccursAt(s, text, p) && at <= p
    requires !Occurs(s, mark)
    ensures p + |s| > at + |mark|
  {
    if p + |s| <= at + |mark| {
      assert forall i :: 0 <= i < |s| ==> mark[p - at + i] == text[p + i] == s[i];
      var within := OccursAt(s, mark, p - at);
    }
  }

  // Each turn takes at least one byte from the text right of the last mark.
  lemma {:induction false} EndsFromMark(text: Bytes, s: Bytes, mark: Bytes, from: nat, n: nat)
    requires OccursAt(mark, text, from) && !Occurs(s, mark)
    requires |text| - from - |mark| <= n
    ensures EndsWithin(text, s, mark, from, n)
    decreases n
  {
    var p := Find(text, s, from);
    FindsFirst(text, s, from);
    if p != NPOS {
      PastTheMark(text, s, mark, from, p);
      MarkPlaced(text, s, mark, p);
      EndsFromMark(Replaced(text, s, mark, p), s, mark, p, n - 1);
    }
  }

  // The loop ends exactly when the value is not in the text, or is no part of the mark.
  lemma {:induction false} LoopEndsExactly(text: Bytes, s: Bytes, mark: Bytes)
    ensures LoopEnds(text, s, mark) <==> !Occurs(s, text) || !Occurs(s, mark)
  {
    var p := Find(text, s, 0);
    FindsFirst(text, s, 0);
    if p == NPOS {
      assert EndsWithin(text, s, mark, 0, 0);
    } else {
      var next := Replaced(text, s, mark, p);
      MarkPlaced(text, s, mark, p);
      if Occurs(s, mark) {
        forall n: nat
          ensures !EndsWithin(text, s, mark, 0, n)
        {
          if n > 0 {
            NeverEnds(next, s, mark, p, n - 1);
          }
        }
      } else {
        EndsFromMark(next, s, mark, p, |next|);
        assert EndsWithin(text, s, mark, 0, |next| + 1);
      }
    }
  }

  // ----- What the loop computes -----

  // What becomes of a mark and the text right of it.
  function Tail(s: Bytes, mark: Bytes, rest: Bytes): Bytes
    requires !Occurs(s, mark)
    decreases |rest|
  {
    var p := Find(mark + rest, s, 0);
    if p == NPOS then mark + rest
    else
      FindsFirst(mark + rest, s, 0);
      PastTheMark(mark + rest, s, mark, 0, p);
      (mark + rest)[..p] + Tail(s, mark, (mark + rest)[p + |s|..])
  }

  function Scrubbed(text: Bytes, s: Bytes, mark: Bytes): Bytes
    requires LoopEnds(text, s, mark)
  {
    var p := Find(text, s, 0);
    if p == NPOS then text
    else
      FindsFirst(text, s, 0);
      LoopEndsExactly(text, s, mark);
      text[..p] + Tail(s, mark, text[p + |s|..])
  }

  lemma {:induction false} FindShift(text: Bytes, a: Bytes, b: Bytes, s: Bytes)
    requires text == a + b
    ensures var q := Find(b, s, 0);
            if q == NPOS then Find(text, s, |a|) == NPOS
            else 0 <= q <= |b| - |s| && Find(text, s, |a|) == |a| + q
  {
    var p := Find(text, s, |a|);
    var q := Find(b, s, 0);
    FindsFirst(text, s, |a|);
    FindsFirst(b, s, 0);
    if p != NPOS {
      OccursRight(s, text, a, b, p);
    }
    if q != NPOS {
      OccursRight(s, text, a, b, |a| + q);
    }
  }

  lemma {:induction false} TailUnfolds(shown: Bytes, rest: Bytes, s: Bytes, mark: Bytes, q: int)
    requires !Occurs(s, mark) && shown == mark + rest && q == Find(shown, s, 0)
    ensures q == NPOS ==> Tail(s, mark, rest) == shown
    ensures q != NPOS ==> 0 <= q && |shown| - |rest| < q + |s| <= |shown|
                          && Tail(s, mark, rest) == shown[..q] + Tail(s, mark, shown[q + |s|..])
  {
    if q != NPOS {
      FindsFirst(shown, s, 0);
      PastTheMark(shown, s, mark, 0, q);
    }
  }

  // One turn of the loop, seen from the text it has: `before`, then the mark and the rest.
  lemma {:induction false} TailTurn(text: Bytes, before: Bytes, rest: Bytes, s: Bytes, mark: Bytes)
    requires !Occurs(s, mark) && text == before + (mark + rest)
    ensures var p := Find(text, s, |before|);
            && (p == NPOS ==> before + Tail(s, mark, rest) == text)
            && (p != NPOS ==> |text| - p - |s| < |rest|
                              && before + Tail(s, mark, rest) == text[..p] + Tail(s, mark, text[p + |s|..]))
  {
    hide Tail, OccursAt;
    var shown := mark + rest;
    var q := Find(shown, s, 0);
    FindShift(text, before, shown, s);
    TailUnfolds(shown, rest, s, mark, q);
    if q != NPOS {
      Splice(text, before, shown, q, |s|, Tail(s, mark, rest), Tail(s, mark, shown[q + |s|..]));
    }
  }

  // What the loop still has to do comes to `goal`: from an occurrence at `at`, or from none.
  predicate Heading(text: Bytes, s: Bytes, mark: Bytes, at: int, goal: Bytes)
    requires !Occurs(s, mark)
  {
    if at == NPOS then goal == text
    else OccursAt(s, text, at) && goal == text[..at] + Tail(s, mark, text[at + |s|..])
  }

  lemma {:induction false} KeepsHeading(text: Bytes, s: Bytes, mark: Bytes, at: nat, goal: Bytes)
    requires !Occurs(s, mark) && Heading(text, s, mark, at, goal)
    ensures var next := Replaced(text, s, mark, at);
            var p := Find(next, s, at);
            Heading(next, s, mark, p, goal) && (p != NPOS ==> |next| - p - |s| < |text| - at - |s|)
  {
    var before, rest := text[..at], text[at + |s|..];
    var next := Replaced(text, s, mark, at);
    Associate(before, mark, rest);
    TailTurn(next, before, rest, s, mark);
    FindsFirst(next, s, at);
  }

  // The search-and-replace loop.
  method Scrub(text: Bytes, s: Bytes, mark: Bytes) returns (out: Bytes)
    requires LoopEnds(text, s, mark)
    ensures out == Scrubbed(text, s, mark)
  {
    out := text;
    LoopEndsExactly(text, s, mark);
    FindsFirst(out, s, 0);
    var at := Find(out, s, 0);
    while at != NPOS
      invariant at != NPOS ==> !Occurs(s, mark) && Heading(out, s, mark, at, Scrubbed(text, s, mark))
      invariant at == NPOS ==> out == Scrubbed(text, s, mark)
      decreases if at == NPOS then 0 else 1 + |out| - at - |s|
    {
      KeepsHeading(out, s, mark, at, Scrubbed(text, s, mark));
      out := out[..at] + mark + out[at + |s|..];
      at := Find(out, s, at);
    }
  }

  // ----- Is the value gone? One value, every text -----

  // The value from j on agrees with the mark, as far as both go.
  predicate Agrees(s: Bytes, mark: Bytes, j: nat)
    requires j <= |s|
  {
    forall i :: 0 <= i < |mark| && j + i < |s| ==> s[j + i] == mark[i]
  }

  // The value from j on is also how it begins.
  predicate Border(s: Bytes, j: nat)
    requires j <= |s|
  {
    forall i :: 0 <= i < |s| - j ==> s[j + i] == s[i]
  }

  // No part of the mark, and its end never agrees with the mark's beginning but where it agrees with
  // its own.
  ghost predicate Safe(s: Bytes, mark: Bytes) {
    !Occurs(s, mark) && forall j :: 0 < j < |s| && Agrees(s, mark, j) ==> Border(s, j)
  }

  lemma {:induction false} ReplacedAt(text: Bytes, s: Bytes, mark: Bytes, p: nat)
    requires OccursAt(s, text, p)
    ensures p + |mark| <= |Replaced(text, s, mark, p)|
    ensures forall i :: 0 <= i < p ==> Replaced(text, s, mark, p)[i] == text[i]
    ensures forall i :: p <= i < p + |mark| ==> Replaced(text, s, mark, p)[i] == mark[i - p]
  {
  }

  lemma {:induction false} AgreesThere(text: Bytes, s: Bytes, mark: Bytes, p: nat, q: nat)
    requires OccursAt(s, text, p) && q < p < q + |s|
    requires OccursAt(s, Replaced(text, s, mark, p), q)
    ensures Agrees(s, mark, p - q)
  {
    ReplacedAt(text, s, mark, p);
    var next, j := Replaced(text, s, mark, p), p - q;
    hide Replaced;
    assert forall i :: 0 <= i < |mark| && j + i < |s| ==> s[j + i] == next[q + (j + i)] == mark[i];
  }

  // An occurrence before the replaced one was there before.
  lemma {:induction false} WasThere(text: Bytes, s: Bytes, mark: Bytes, p: nat, q: nat)
    requires Safe(s, mark) && OccursAt(s, text, p) && q < p
    requires OccursAt(s, Replaced(text, s, mark, p), q)
    ensures OccursAt(s, text, q)
  {
    var next, j := Replaced(text, s, mark, p), p - q;
    ReplacedAt(text, s, mark, p);
    if j < |s| {
      AgreesThere(text, s, mark, p, q);
      assert Border(s, j);
    }
    hide Replaced, Safe, Agrees;
    forall i | 0 <= i < |s|
      ensures text[q + i] == s[i]
    {
      if i < j {
        assert text[q + i] == next[q + i];
      } else {
        assert text[p + (i - j)] == s[i - j] == s[j + (i - j)];
      }
    }
  }

  // Replacing the first occurrence makes none before it.
  lemma {:induction false} NoneBefore(text: Bytes, s: Bytes, mark: Bytes, p: nat, q: nat)
    requires Safe(s, mark) && OccursAt(s, text, p) && q < p
    requires !OccursAt(s, text, q)
    ensures !OccursAt(s, Replaced(text, s, mark, p), q)
  {
    if OccursAt(s, Replaced(text, s, mark, p), q) {
      WasThere(text, s, mark, p, q);
    }
  }

  lemma {:induction false} GoneFromTail(text: Bytes, before: Bytes, rest: Bytes, s: Bytes, mark: Bytes)
    requires Safe(s, mark) && text == before + (mark + rest)
    requires forall q :: q < |before| ==> !OccursAt(s, text, q)
    ensures !Occurs(s, before + Tail(s, mark, rest))
    decreases |rest|
  {
    hide Tail;
    var p := Find(text, s, |before|);
    FindsFirst(text, s, |before|);
    TailTurn(text, before, rest, s, mark);
    if p != NPOS {
      var next := Replaced(text, s, mark, p);
      forall q | q < p
        ensures !OccursAt(s, next, q)
      {
        if 0 <= q {
          NoneBefore(text, s, mark, p, q);
        }
      }
      Associate(text[..p], mark, text[p + |s|..]);
      GoneFromTail(next, text[..p], text[p + |s|..], s, mark);
    }
  }

  lemma {:induction false} GoneWhenSafe(text: Bytes, s: Bytes, mark: Bytes)
    requires Safe(s, mark)
    ensures LoopEnds(text, s, mark) && !Occurs(s, Scrubbed(text, s, mark))
  {
    LoopEndsExactly(text, s, mark);
    var p := Find(text, s, 0);
    FindsFirst(text, s, 0);
    if p != NPOS {
      var next := Replaced(text, s, mark, p);
      forall q | q < p
        ensures !OccursAt(s, next, q)
      {
        if 0 <= q {
          NoneBefore(text, s, mark, p, q);
        }
      }
      Associate(text[..p], mark, text[p + |s|..]);
      GoneFromTail(next, text[..p], text[p + |s|..], s, mark);
    }
  }

  // An occurrence of s across the seam of s[..j] + s makes the value from j on a border.
  lemma {:induction false} SeamShift(s: Bytes, j: nat, q: nat, i: nat)
    requires q < j < |s|
    requires OccursAt(s, s[..j] + s, q)
    requires q + i < |s|
    ensures s[q + i] == s[i]
    decreases i
  {
    var text := s[..j] + s;
    assert text[q + i] == s[i];
    if q + i < j {
      assert text[q + i] == s[q + i];
    } else {
      SeamShift(s, j, q, i - (j - q));
      assert text[q + (i + (j - q))] == s[q + i];
    }
  }

  lemma {:induction false} SeamBorder(s: Bytes, j: nat, q: nat)
    requires q < j < |s| && OccursAt(s, s[..j] + s, q)
    ensures Border(s, j)
  {
    var text := s[..j] + s;
    forall i | 0 <= i < |s| - j
      ensures s[j + i] == s[i]
    {
      assert text[q + (i + (j - q))] == s[i + (j - q)];
      SeamShift(s, j, q, i + (j - q));
    }
  }

  // A text that shows the value again: its own beginning, the value, and what the mark leaves of it.
  function Trap(s: Bytes, mark: Bytes, j: nat): Bytes
    requires j <= |s|
  {
    s[..j] + s + (if j + |mark| < |s| then s[j + |mark|..] else [])
  }

  // No occurrence before the one after the value's own beginning, unless that beginning is a border.
  lemma {:induction false} TrapNotBefore(s: Bytes, text: Bytes, j: nat, end: Bytes, q: nat)
    requires q < j < |s| && !Border(s, j) && text == (s[..j] + s) + end
    ensures !OccursAt(s, text, q)
  {
    OccursLeft(s, text, s[..j] + s, end, q);
    hide Border;
    if OccursAt(s, text, q) {
      SeamBorder(s, j, q);
    }
  }

  lemma {:induction false} TrapFound(s: Bytes, mark: Bytes, j: nat)
    requires 0 < j < |s| && !Border(s, j)
    ensures Find(Trap(s, mark, j), s, 0) == j
  {
    hide OccursAt, Border;
    var text, end := Trap(s, mark, j), if j + |mark| < |s| then s[j + |mark|..] else [];
    OccursMiddle(text, s[..j], s, end);
    FindsFirst(text, s, 0);
    var p := Find(text, s, 0);
    if p < j {
      TrapNotBefore(s, text, j, end, p);
    }
  }

  lemma {:induction false} Leaks(s: Bytes, mark: Bytes, j: nat)
    requires !Occurs(s, mark) && 0 < j < |s| && Agrees(s, mark, j) && !Border(s, j)
    ensures LoopEnds(Trap(s, mark, j), s, mark)
    ensures Occurs(s, Scrubbed(Trap(s, mark, j), s, mark))
  {
    var text := Trap(s, mark, j);
    LoopEndsExactly(text, s, mark);
    TrapFound(s, mark, j);
    var rest := if j + |mark| < |s| then s[j + |mark|..] else [];
    assert text[..j] == s[..j] && text[j + |s|..] == rest;
    var shown := mark + rest;
    FindsFirst(shown, s, 0);
    if rest == [] {
      assert shown == mark;
    }
    assert Find(shown, s, 0) == NPOS;
    assert Tail(s, mark, rest) == shown;
    assert OccursAt(s, s[..j] + shown, 0);
  }

  // Every text loses the value exactly when the value is safe, or the loop does not end on some text.
  lemma {:induction false} GoneExactly(s: Bytes, mark: Bytes)
    requires !Occurs(s, mark)
    ensures (forall text :: LoopEnds(text, s, mark) ==> !Occurs(s, Scrubbed(text, s, mark))) <==> Safe(s, mark)
  {
    if Safe(s, mark) {
      forall text | LoopEnds(text, s, mark)
        ensures !Occurs(s, Scrubbed(text, s, mark))
      {
        GoneWhenSafe(text, s, mark);
      }
    } else {
      var j :| 0 < j < |s| && Agrees(s, mark, j) && !Border(s, j);
      Leaks(s, mark, j);
    }
  }

  // One byte of bracket is enough: "aaaaaaa<" shows in what is left of "aaaaaaaaaaaaaa<".
  lemma {:induction false} LeakOnABracket()
    ensures var s: Bytes := [97, 97, 97, 97, 97, 97, 97, 60];
            LoopEnds(s[..7] + s, s, MARK) && Occurs(s, Scrubbed(s[..7] + s, s, MARK))
  {
    var s: Bytes := [97, 97, 97, 97, 97, 97, 97, 60];
    forall q
      ensures !OccursAt(s, MARK, q)
    {
      if 0 <= q <= 2 {
        assert MARK[q + 1] != s[1];
      }
    }
    assert s[7 + 0] != s[0];
    Leaks(s, MARK, 7);
    assert Trap(s, MARK, 7) == s[..7] + s;
  }

  // ----- Several values, one after the other -----

  // The value and the mark agree where they overlap, at some shift of the value against the mark.
  ghost predicate Touches(v: Bytes, mark: Bytes) {
    exists k :: TouchesAt(v, mark, k)
  }

  predicate TouchesAt(v: Bytes, mark: Bytes, k: int) {
    -|v| < k < |mark| && forall i :: 0 <= i < |v| && 0 <= i + k < |mark| ==> v[i] == mark[i + k]
  }

  lemma {:induction false} MadeByTouching(v: Bytes, mark: Bytes, a: Bytes, x: Bytes, b: Bytes, q: int)
    requires OccursAt(v, a + (mark + b), q)
    ensures Touches(v, mark) || Occurs(v, a + x + b)
  {
    var was := a + x + b;
    var next := a + (mark + b);
    var k := q - |a|;
    if k >= |mark| {
      assert forall i :: 0 <= i < |v| ==> was[q - |mark| + |x| + i] == next[q + i] == v[i];
      assert OccursAt(v, was, q - |mark| + |x|);
    } else if k <= -|v| {
      assert forall i :: 0 <= i < |v| ==> was[q + i] == next[q + i] == v[i];
      assert OccursAt(v, was, q);
    } else {
      assert forall i :: 0 <= i < |v| && 0 <= i + k < |mark| ==> v[i] == next[q + i] == mark[i + k];
      assert TouchesAt(v, mark, k);
    }
  }

  // A value that does not touch the mark is not made by putting a mark in a text.
  lemma {:induction false} NoneMade(v: Bytes, mark: Bytes, a: Bytes, x: Bytes, b: Bytes)
    requires !Touches(v, mark) && !Occurs(v, a + x + b)
    ensures !Occurs(v, a + (mark + b))
  {
    if q :| OccursAt(v, a + (mark + b), q) {
      MadeByTouching(v, mark, a, x, b, q);
    }
  }

  lemma {:induction false} CutAround(text: Bytes, s: Bytes, p: nat)
    requires OccursAt(s, text, p)
    ensures text == text[..p] + s + text[p + |s|..]
  {
    OccursAtSlice(s, text, p);
  }

  lemma {:induction false} TailMakesNone(v: Bytes, text: Bytes, before: Bytes, rest: Bytes, s: Bytes, mark: Bytes)
    requires !Touches(v, mark) && !Occurs(s, mark)
    requires text == before + (mark + rest) && !Occurs(v, text)
    ensures !Occurs(v, before + Tail(s, mark, rest))
    decreases |rest|
  {
    hide Tail, OccursAt;
    var p := Find(text, s, |before|);
    TailTurn(text, before, rest, s, mark);
    if p != NPOS {
      var a, b := text[..p], text[p + |s|..];
      FindsFirst(text, s, |before|);
      CutAround(text, s, p);
      NoneMade(v, mark, a, s, b);
      TailMakesNone(v, a + (mark + b), a, b, s, mark);
    }
  }

  lemma {:induction false} ScrubMakesNone(v: Bytes, text: Bytes, s: Bytes, mark: Bytes)
    requires !Touches(v, mark) && LoopEnds(text, s, mark) && !Occurs(v, text)
    ensures !Occurs(v, Scrubbed(text, s, mark))
  {
    LoopEndsExactly(text, s, mark);
    var p := Find(text, s, 0);
    if p != NPOS {
      var a, b := text[..p], text[p + |s|..];
      FindsFirst(text, s, 0);
      CutAround(text, s, p);
      NoneMade(v, mark, a, s, b);
      TailMakesNone(v, a + (mark + b), a, b, s, mark);
    }
  }

  lemma {:induction false} PartTouches(v: Bytes, mark: Bytes, p: int)
    requires |v| > 0 && OccursAt(v, mark, p)
    ensures Touches(v, mark)
  {
    assert TouchesAt(v, mark, p);
  }

  lemma {:induction false} AgreementTouches(v: Bytes, mark: Bytes, j: nat)
    requires |mark| > 0 && 0 < j < |v| && Agrees(v, mark, j)
    ensures Touches(v, mark)
  {
    forall i | 0 <= i < |v| && 0 <= i - j < |mark|
      ensures v[i] == mark[i - j]
    {
      assert v[j + (i - j)] == mark[i - j];
    }
    assert TouchesAt(v, mark, 0 - j);
  }

  lemma {:induction false} UntouchedIsSafe(v: Bytes, mark: Bytes)
    requires !Touches(v, mark) && |v| > 0 && |mark| > 0
    ensures Safe(v, mark)
  {
    if p :| OccursAt(v, mark, p) {
      PartTouches(v, mark, p);
    }
    if j :| 0 < j < |v| && Agrees(v, mark, j) {
      AgreementTouches(v, mark, j);
    }
  }

  // ----- What is left of the text -----

  // The value begins somewhere in the mark, as far as the mark goes.
  ghost predicate StartsIn(s: Bytes, mark: Bytes) {
    exists k :: 0 <= k && TouchesAt(s, mark, k)
  }

  // Every occurrence, found from left to right and not overlapping, replaced; the rest kept.
  function ReplacedEach(text: Bytes, s: Bytes, mark: Bytes): Bytes
    requires s != []
    decreases |text|
  {
    var p := Find(text, s, 0);
    if p == NPOS then text else text[..p] + (mark + ReplacedEach(text[p + |s|..], s, mark))
  }

  lemma {:induction false} PastStart(s: Bytes, mark: Bytes, rest: Bytes, p: nat)
    requires !StartsIn(s, mark) && s != [] && OccursAt(s, mark + rest, p)
    ensures p >= |mark|
  {
    if p < |mark| {
      assert forall i :: 0 <= i < |s| && 0 <= i + p < |mark| ==> s[i] == (mark + rest)[p + i] == mark[i + p];
      var touching := TouchesAt(s, mark, p);
    }
  }

  lemma {:induction false} NoPartThen(s: Bytes, mark: Bytes)
    requires !StartsIn(s, mark) && s != []
    ensures !Occurs(s, mark)
  {
    if p :| OccursAt(s, mark, p) {
      assert mark + [] == mark;
      PastStart(s, mark, [], p);
    }
  }

  // The first occurrence right of the mark's beginning is the first in what follows the mark.
  lemma {:induction false} FoundPast(s: Bytes, mark: Bytes, rest: Bytes)
    requires !StartsIn(s, mark) && s != []
    ensures var q, p := Find(mark + rest, s, 0), Find(rest, s, 0);
            if p == NPOS then q == NPOS else q == |mark| + p
  {
    hide StartsIn, OccursAt;
    var shown := mark + rest;
    FindShift(shown, mark, rest, s);
    FindsFirst(shown, s, 0);
    FindsFirst(shown, s, |mark|);
    var q := Find(shown, s, 0);
    if q != NPOS {
      PastStart(s, mark, rest, q);
    }
  }

  lemma {:induction false} TailReplaces(s: Bytes, mark: Bytes, rest: Bytes)
    requires !StartsIn(s, mark) && s != [] && !Occurs(s, mark)
    ensures Tail(s, mark, rest) == mark + ReplacedEach(rest, s, mark)
    decreases |rest|
  {
    FoundPast(s, mark, rest);
    var shown := mark + rest;
    var q, p := Find(shown, s, 0), Find(rest, s, 0);
    TailUnfolds(shown, rest, s, mark, q);
    hide OccursAt, StartsIn, Occurs, Tail;
    if p != NPOS {
      CutInside(mark, rest, p, |s|);
      TailReplaces(s, mark, rest[p + |s|..]);
      Associate(mark, rest[..p], mark + ReplacedEach(rest[p + |s|..], s, mark));
    }
  }

  lemma CutInside(a: Bytes, b: Bytes, at: nat, n: nat)
    requires at + n <= |b|
    ensures (a + b)[..|a| + at] == a + b[..at] && (a + b)[|a| + at + n..] == b[at + n..]
  {
  }

  lemma {:induction false} ScrubbedUnfolds(text: Bytes, s: Bytes, mark: Bytes, p: int)
    requires LoopEnds(text, s, mark) && !Occurs(s, mark) && p == Find(text, s, 0)
    ensures Scrubbed(text, s, mark) == if p == NPOS then text else text[..p] + Tail(s, mark, text[p + |s|..])
  {
    hide Tail;
  }

  // A value that does not begin in the mark: the loop replaces its occurrences, and nothing else.
  lemma {:induction false} OnlyOccurrencesReplaced(text: Bytes, s: Bytes, mark: Bytes)
    requires !StartsIn(s, mark) && s != []
    ensures LoopEnds(text, s, mark) && Scrubbed(text, s, mark) == ReplacedEach(text, s, mark)
  {
    hide Scrubbed, LoopEnds, OccursAt, Occurs, StartsIn, Tail;
    NoPartThen(s, mark);
    LoopEndsExactly(text, s, mark);
    var p := Find(text, s, 0);
    ScrubbedUnfolds(text, s, mark, p);
    if p != NPOS {
      TailReplaces(s, mark, text[p + |s|..]);
    }
  }

  // ----- Redact and HideIn -----

  ghost predicate Ends(text: Bytes, s: Bytes) {
    |s| < SHORTEST || LoopEnds(text, s, MARK)
  }

  function Redacted(text: Bytes, s: Bytes): Bytes
    requires Ends(text, s)
  {
    if |s| < SHORTEST then text else Scrubbed(text, s, MARK)
  }

  ghost predicate AllEnd(body: Bytes, values: seq<Bytes>)
    decreases |values|
  {
    values == [] || (Ends(body, values[0]) && AllEnd(Redacted(body, values[0]), values[1..]))
  }

  function Hidden(body: Bytes, values: seq<Bytes>): Bytes
    requires AllEnd(body, values)
    decreases |values|
  {
    if values == [] then body else Hidden(Redacted(body, values[0]), values[1..])
  }

  lemma {:induction false} HiddenInTurn(body: Bytes, first: seq<Bytes>, later: seq<Bytes>)
    ensures AllEnd(body, first + later) <==> AllEnd(body, first) && AllEnd(Hidden(body, first), later)
    ensures AllEnd(body, first + later) ==> Hidden(body, first + later) == Hidden(Hidden(body, first), later)
    decreases |first|
  {
    if first == [] {
      assert first + later == later;
    } else {
      assert (first + later)[1..] == first[1..] + later;
      if Ends(body, first[0]) {
        HiddenInTurn(Redacted(body, first[0]), first[1..], later);
      }
    }
  }

  // A value presented by the caller, taken out of an error text.
  method Redact(error: Bytes, presented: Bytes) returns (out: Bytes)
    requires Ends(error, presented)
    ensures out == Redacted(error, presented)
  {
    if |presented| < SHORTEST {
      return error;
    }
    out := Scrub(error, presented, MARK);
  }

  // Every presented value, taken out of an answer's body.
  method HideIn(body: Bytes, values: seq<Bytes>) returns (out: Bytes)
    requires AllEnd(body, values)
    ensures out == Hidden(body, values)
  {
    out := body;
    for i := 0 to |values|
      invariant AllEnd(out, values[i..]) && Hidden(out, values[i..]) == Hidden(body, values)
    {
      assert values[i..][1..] == values[i + 1..];
      out := Redact(out, values[i]);
    }
  }

  lemma {:induction false} AbsentStays(body: Bytes, s: Bytes)
    requires !Occurs(s, body)
    ensures Ends(body, s) && Redacted(body, s) == body
  {
    LoopEndsExactly(body, s, MARK);
    FindsFirst(body, s, 0);
    hide MARK;
  }

  // No value of eight bytes or more is part of the mark: then every loop ends, on every body.
  lemma {:induction false} AllEndSimply(body: Bytes, values: seq<Bytes>)
    requires forall s :: s in values && |s| >= SHORTEST ==> !Occurs(s, MARK)
    ensures AllEnd(body, values)
    decreases |values|
  {
    if values != [] {
      LoopEndsExactly(body, values[0], MARK);
      AllEndSimply(Redacted(body, values[0]), values[1..]);
    }
  }

  // On the mark itself nothing is replaced before the first value that is part of it, and that one has no end.
  lemma {:induction false} EndlessOnTheMark(values: seq<Bytes>, s: Bytes)
    requires s in values && |s| >= SHORTEST && Occurs(s, MARK)
    ensures !AllEnd(MARK, values)
    decreases |values|
  {
    hide MARK;
    var first := values[0];
    EndsExactly(MARK, first);
    if Ends(MARK, first) {
      if |first| >= SHORTEST {
        AbsentStays(MARK, first);
      }
      EndlessOnTheMark(values[1..], s);
    }
  }

  // Every loop of a list ends, on every body, if and only if no listed value of eight bytes or more is part
  // of the mark.
  lemma {:induction false} AllEndExactly(values: seq<Bytes>)
    ensures (forall body :: AllEnd(body, values)) <==>
            forall s :: s in values && |s| >= SHORTEST ==> !Occurs(s, MARK)
  {
    hide MARK, AllEnd, Occurs;
    if forall s :: s in values && |s| >= SHORTEST ==> !Occurs(s, MARK) {
      forall body
        ensures AllEnd(body, values)
      {
        AllEndSimply(body, values);
      }
    } else {
      var s :| s in values && |s| >= SHORTEST && Occurs(s, MARK);
      EndlessOnTheMark(values, s);
    }
  }

  // The loop of a single value ends exactly when the value is short, absent, or no part of the mark.
  lemma {:induction false} EndsExactly(text: Bytes, s: Bytes)
    ensures Ends(text, s) <==> |s| < SHORTEST || !Occurs(s, text) || !Occurs(s, MARK)
  {
    LoopEndsExactly(text, s, MARK);
  }

  lemma {:induction false} WordInMark()
    ensures |WORD| == SHORTEST && Occurs(WORD, MARK)
  {
    assert OccursAt(WORD, MARK, 1);
  }

  // The endless case is real: the word inside the mark is a value of eight bytes.
  lemma {:induction false} EndlessOnTheWord()
    ensures !Ends(WORD, WORD)
  {
    hide WORD, MARK;
    WordInMark();
    assert OccursAt(WORD, WORD, 0);
    EndsExactly(WORD, WORD);
  }

  lemma {:induction false} AgreementShowsBracket(s: Bytes, j: nat)
    requires j < |s| && Agrees(s, MARK, j)
    ensures LT in s
  {
    assert s[j + 0] == MARK[0];
  }

  // A value of eight bytes or more without '<', and no part of the mark, is gone from every text.
  lemma {:induction false} GoneWithoutBracket(text: Bytes, s: Bytes)
    requires |s| >= SHORTEST && LT !in s && !Occurs(s, MARK)
    ensures Ends(text, s) && !Occurs(s, Redacted(text, s))
  {
    if j :| 0 < j < |s| && Agrees(s, MARK, j) {
      AgreementShowsBracket(s, j);
    }
    GoneWhenSafe(text, s, MARK);
  }

  lemma {:induction false} StaysHidden(v: Bytes, body: Bytes, values: seq<Bytes>)
    requires !Touches(v, MARK) && !Occurs(v, body) && AllEnd(body, values)
    ensures !Occurs(v, Hidden(body, values))
    decreases |values|
  {
    if values != [] {
      if |values[0]| >= SHORTEST {
        ScrubMakesNone(v, body, values[0], MARK);
      }
      StaysHidden(v, Redacted(body, values[0]), values[1..]);
    }
  }

  // A listed value that does not touch the mark is gone at the end, whatever else is listed, in
  // whatever order, and however the values overlap.
  lemma {:induction false} HiddenForGood(v: Bytes, body: Bytes, values: seq<Bytes>)
    requires |v| >= SHORTEST && !Touches(v, MARK) && v in values && AllEnd(body, values)
    ensures !Occurs(v, Hidden(body, values))
    decreases |values|
  {
    if values[0] == v {
      UntouchedIsSafe(v, MARK);
      GoneWhenSafe(body, v, MARK);
      StaysHidden(v, Redacted(body, v), values[1..]);
    } else {
      HiddenForGood(v, Redacted(body, values[0]), values[1..]);
    }
  }

  // What touches the mark has one of its brackets, or is the word between them.
  lemma {:induction false} TouchingHasBracket(v: Bytes)
    requires |v| >= SHORTEST && Touches(v, MARK)
    ensures LT in v || GT in v || v == WORD
  {
    var k :| TouchesAt(v, MARK, k);
    if k <= 0 {
      assert v[0 - k] == MARK[0 - k + k];
    } else if k + |v| >= 10 {
      assert v[9 - k] == MARK[9 - k + k];
    } else {
      assert k == 1 && |v| == 8;
      forall i | 0 <= i < 8
        ensures v[i] == WORD[i]
      {
        assert v[i] == MARK[i + 1];
      }
    }
  }

  // ----- What touches the mark can be made again by another value -----

  // The parts of v that stand out of the mark, left and right, at a shift where they agree.
  function Before(v: Bytes, k: int): Bytes
    requires -|v| < k
  {
    if k < 0 then v[..-k] else []
  }

  function After(v: Bytes, mark: Bytes, k: int): Bytes
    requires -|v| < k < |mark|
  {
    if k + |v| > |mark| then v[|mark| - k..] else []
  }

  // Another value: one byte, n times.
  function Filler(n: nat, c: byte): Bytes {
    seq(n, _ => c)
  }

  predicate Fresh(v: Bytes, mark: Bytes, k: int, c: byte)
    requires |v| > 0 && -|v| < k
  {
    c !in mark && c != v[0] && c != v[|v| - 1] && (k < 0 ==> c != v[-k - 1])
  }

  lemma {:induction false} ShownByMark(v: Bytes, mark: Bytes, k: int)
    requires TouchesAt(v, mark, k)
    ensures Occurs(v, Before(v, k) + (mark + After(v, mark, k)))
  {
    var text := Before(v, k) + (mark + After(v, mark, k));
    var p := if k < 0 then 0 else k;
    forall i | 0 <= i < |v|
      ensures text[p + i] == v[i]
    {
      if i + k < 0 {
      } else if i + k < |mark| {
        assert text[p + i] == mark[i + k];
      } else {
        assert text[p + i] == v[|mark| - k..][i + k - |mark|];
      }
    }
    assert OccursAt(v, text, p);
  }

  // A filler longer than s, and less than s on either side of it, do not show s.
  lemma {:induction false} NotShownByFiller(s: Bytes, a: Bytes, n: nat, c: byte, b: Bytes, q: int)
    requires |a| < |s| && |b| < |s| < n && s[0] != c && s[|s| - 1] != c
    ensures !OccursAt(s, a + Filler(n, c) + b, q)
  {
    var text := a + Filler(n, c) + b;
    if 0 <= q && q + |s| <= |text| {
      var last := q + |s| - 1;
      if last < |a| + n {
        assert text[last] == c && text[q + (|s| - 1)] != s[|s| - 1];
      } else {
        assert text[q] == c && text[q + 0] != s[0];
      }
    }
  }

  lemma {:induction false} NoFillerInMark(x: Bytes, mark: Bytes, b: Bytes, q: int)
    requires |x| > |b| && x[0] !in mark
    ensures !OccursAt(x, mark, q) && !OccursAt(x, mark + b, q)
  {
    if 0 <= q < |mark| {
      assert mark[q + 0] != x[0] && (mark + b)[q + 0] == mark[q];
    }
  }

  lemma {:induction false} NoFillerBefore(text: Bytes, a: Bytes, x: Bytes, b: Bytes, q: nat)
    requires text == a + x + b && q < |a| <= |x|
    requires forall i :: 0 <= i < |x| ==> x[i] != a[|a| - 1]
    ensures !OccursAt(x, text, q)
  {
    assert text[q + (|a| - 1 - q)] == a[|a| - 1] != x[|a| - 1 - q];
  }

  lemma {:induction false} FillerFound(text: Bytes, a: Bytes, x: Bytes, b: Bytes)
    requires text == a + x + b && |a| <= |x|
    requires a != [] ==> forall i :: 0 <= i < |x| ==> x[i] != a[|a| - 1]
    ensures Find(text, x, 0) == |a|
  {
    hide OccursAt;
    FindsFirst(text, x, 0);
    OccursMiddle(text, a, x, b);
    var p := Find(text, x, 0);
    if p < |a| {
      NoFillerBefore(text, a, x, b, p);
    }
  }

  lemma {:induction false} FillerReplaced(v: Bytes, mark: Bytes, k: int, n: nat, c: byte)
    requires |v| > 0 && -|v| < k < |mark| && |v| < n && Fresh(v, mark, k, c)
    ensures var text := Before(v, k) + Filler(n, c) + After(v, mark, k);
            LoopEnds(text, Filler(n, c), mark)
            && Scrubbed(text, Filler(n, c), mark) == Before(v, k) + (mark + After(v, mark, k))
  {
    var a, x, b := Before(v, k), Filler(n, c), After(v, mark, k);
    var text := a + x + b;
    forall q
      ensures !OccursAt(x, mark, q) && !OccursAt(x, mark + b, q)
    {
      NoFillerInMark(x, mark, b, q);
    }
    LoopEndsExactly(text, x, mark);
    FindsFirst(mark + b, x, 0);
    FillerFound(text, a, x, b);
    assert text[..|a|] == a && text[|a| + |x|..] == b;
  }

  // A digit that is fresh for v and is at neither end of w.
  lemma {:induction false} SomeFresh(v: Bytes, w: Bytes, k: int) returns (c: byte)
    requires -|v| < k && |v| > 0 && |w| > 0
    ensures Fresh(v, MARK, k, c) && c != w[0] && c != w[|w| - 1] && 48 <= c <= 53
  {
    c := NotAmong(v[0], v[|v| - 1], if k < 0 then v[-k - 1] else v[0], w[0], w[|w| - 1]);
    NoDigitInMark(c);
  }

  lemma NotAmong(p: byte, q: byte, r: byte, s: byte, t: byte) returns (c: byte)
    ensures c != p && c != q && c != r && c != s && c != t && 48 <= c <= 53
  {
    var used := {p, q, r, s, t};
    c := if 48 !in used then 48 else if 49 !in used then 49 else if 50 !in used then 50
         else if 51 !in used then 51 else if 52 !in used then 52 else 53;
  }

  lemma NoDigitInMark(c: byte)
    requires 48 <= c <= 53
    ensures c !in MARK
  {
  }

  // The value is on the list, every loop ends, and it shows in what comes out.
  ghost predicate Shows(v: Bytes, body: Bytes, values: seq<Bytes>) {
    v in values && AllEnd(body, values) && Occurs(v, Hidden(body, values))
  }

  // Two values, the second of which puts the first back.
  lemma {:induction false} Remade(v: Bytes) returns (body: Bytes, values: seq<Bytes>)
    requires |v| >= SHORTEST && Touches(v, MARK)
    ensures Shows(v, body, values)
  {
    var k :| TouchesAt(v, MARK, k);
    var c := SomeFresh(v, v, k);
    var n := |v| + SHORTEST;
    var x := Filler(n, c);
    body := Before(v, k) + x + After(v, MARK, k);
    values := [v, x];
    forall q
      ensures !OccursAt(v, body, q)
    {
      NotShownByFiller(v, Before(v, k), n, c, After(v, MARK, k), q);
    }
    LoopEndsExactly(body, v, MARK);
    FindsFirst(body, v, 0);
    assert Redacted(body, v) == body;
    FillerReplaced(v, MARK, k, n, c);
    assert values[1..] == [x] && [x][1..] == [];
    var out := Redacted(body, x);
    assert AllEnd(out, []) && AllEnd(body, [x]) && Hidden(body, [x]) == out;
    ShownByMark(v, MARK, k);
  }

  // The exact condition, over every body and every list: a listed value of eight bytes or more can
  // show at the end if and only if it touches the mark.
  lemma {:induction false} HiddenExactly(v: Bytes)
    requires |v| >= SHORTEST
    ensures (exists body, values :: Shows(v, body, values)) <==> Touches(v, MARK)
  {
    if Touches(v, MARK) {
      var body, values := Remade(v);
    } else if body, values :| Shows(v, body, values) {
      HiddenForGood(v, body, values);
    }
  }
}
