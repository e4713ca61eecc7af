/** Byte strings: what `std::string` is to the code modelled here. */
module Bytes {

  type byte = bv8
  type Bytes = seq<byte>

  // The bytes of an ASCII text.
  predicate Spells(bytes: Bytes, text: string) {
    |bytes| == |text| && forall i :: 0 <= i < |text| ==> bytes[i] as int == text[i] as int
  }

  predicate OccursAt(s: Bytes, text: Bytes, p: int) {
    0 <= p && p + |s| <= |text| && forall i :: 0 <= i < |s| ==> text[p + i] == s[i]
  }

  ghost predicate Occurs(s: Bytes, text: Bytes) {
    exists p :: OccursAt(s, text, p)
  }

  const NPOS := -1

  // std::string::find, from a position on.
  function Find(text: Bytes, s: Bytes, from: nat): (p: int)
    ensures p == NPOS || from <= p <= |text| - |s|
    decreases |text| - from
  {
    if from > |text| then NPOS
    else if OccursAt(s, text, from) then from
    else Find(text, s, from + 1)
  }

  // It is the first occurrence that starts there or later, if there is one.
  lemma {:induction false} FindsFirst(text: Bytes, s: Bytes, from: nat)
    ensures var p := Find(text, s, from);
            && (p == NPOS ==> forall q :: from <= q ==> !OccursAt(s, text, q))
            && (p != NPOS ==> OccursAt(s, text, p) && forall q :: from <= q < p ==> !OccursAt(s, text, q))
    decreases |text| - from
  {
    if from <= |text| && !OccursAt(s, text, from) {
      FindsFirst(text, s, from + 1);
    }
  }

  lemma {:induction false} OccursAtSlice(s: Bytes, text: Bytes, p: int)
    ensures OccursAt(s, text, p) <==> 0 <= p && p + |s| <= |text| && text[p..p + |s|] == s
  {
    if 0 <= p && p + |s| <= |text| && text[p..p + |s|] == s {
      forall i | 0 <= i < |s|
        ensures text[p + i] == s[i]
      {
        assert text[p..p + |s|][i] == s[i];
      }
    }
  }

  lemma OccursByte(c: byte, text: Bytes, p: int)
    ensures OccursAt([c], text, p) <==> 0 <= p < |text| && text[p] == c
  {
    if OccursAt([c], text, p) {
      assert text[p + 0] == [c][0];
    }
  }

  // Find, for a single byte.
  lemma {:induction false} NoByte(text: Bytes, c: byte)
    ensures Find(text, [c], 0) == NPOS <==> c !in text
  {
    FindsFirst(text, [c], 0);
    var p := Find(text, [c], 0);
    OccursByte(c, text, p);
    if c in text {
      var i :| 0 <= i < |text| && text[i] == c;
      OccursByte(c, text, i);
    }
  }

  lemma {:induction false} FirstByte(text: Bytes, a: Bytes, c: byte, b: Bytes)
    requires c !in a && text == a + [c] + b
    ensures Find(text, [c], 0) == |a|
  {
    FindsFirst(text, [c], 0);
    OccursByte(c, text, |a|);
    assert forall i :: 0 <= i < |a| ==> text[i] == a[i];
    OccursByte(c, text, Find(text, [c], 0));
  }

  lemma {:induction false} SplitAtByte(text: Bytes, c: byte)
    ensures var p := Find(text, [c], 0);
            p != NPOS ==> 0 <= p < |text| && c !in text[..p] && text[p] == c && text == text[..p] + [c] + text[p + 1..]
  {
    FindsFirst(text, [c], 0);
    var p := Find(text, [c], 0);
    OccursByte(c, text, p);
    if p != NPOS && c in text[..p] {
      var i :| 0 <= i < p && text[..p][i] == c;
      OccursByte(c, text, i);
    }
  }

  // An occurrence right of a cut is one in the right part.
  lemma {:induction false} OccursRight(s: Bytes, text: Bytes, a: Bytes, b: Bytes, p: int)
    requires text == a + b && |a| <= p
    ensures OccursAt(s, text, p) <==> OccursAt(s, b, p - |a|)
  {
    if OccursAt(s, text, p) {
      assert forall i :: 0 <= i < |s| ==> b[p - |a| + i] == text[p + i] == s[i];
    }
    if OccursAt(s, b, p - |a|) {
      assert forall i :: 0 <= i < |s| ==> text[p + i] == b[p - |a| + i] == s[i];
    }
  }

  lemma OccursLeft(s: Bytes, text: Bytes, a: Bytes, b: Bytes, p: int)
    requires text == a + b && p + |s| <= |a|
    ensures OccursAt(s, text, p) <==> OccursAt(s, a, p)
  {
    if 0 <= p {
      assert forall i :: 0 <= i < |s| ==> (text[p + i] == s[i] <==> a[p + i] == s[i]);
    }
  }

  lemma OccursMiddle(text: Bytes, a: Bytes, s: Bytes, b: Bytes)
    requires text == a + s + b
    ensures OccursAt(s, text, |a|)
  {
  }

  // A text cut inside its second part, when what that part comes to is cut there too.
  lemma {:induction false} Splice(text: Bytes, a: Bytes, b: Bytes, at: nat, n: nat, t: Bytes, u: Bytes)
    requires text == a + b && at + n <= |b|
    requires t == b[..at] + u
    ensures a + t == text[..|a| + at] + u
    ensures text[|a| + at + n..] == b[at + n..]
  {
  }

  lemma Associate(a: Bytes, b: Bytes, c: Bytes)
    ensures (a + b) + c == a + (b + c)
  {
  }

  // ----- Texts that can be cut in one way only -----

  lemma CutBefore(text: Bytes, c: byte, a: Bytes, x: Bytes)
    requires text == a + x && c !in a
    ensures forall i :: 0 <= i < |a| ==> text[i] != c
    ensures x != [] ==> text[|a|] == x[0]
    ensures a == text[..|a|] && x == text[|a|..]
  {
    assert forall i :: 0 <= i < |a| ==> text[i] == a[i];
  }

  lemma CutAfter(text: Bytes, c: byte, a: Bytes, x: Bytes)
    requires text == a + [c] + x && c !in x
    ensures text[|a|] == c && forall i :: |a| < i < |text| ==> text[i] != c
    ensures a == text[..|a|] && x == text[|a| + 1..]
  {
    assert forall i :: |a| < i < |text| ==> text[i] == x[i - |a| - 1];
  }

  lemma {:induction false} SplitUnique(c: byte, a: Bytes, x: Bytes, b: Bytes, y: Bytes)
    requires a + x == b + y && c !in a && c !in b
    requires (x == [] || x[0] == c) && (y == [] || y[0] == c)
    ensures a == b && x == y
  {
    CutBefore(a + x, c, a, x);
    CutBefore(a + x, c, b, y);
    assert |a| == |b|;
  }

  lemma {:induction false} LastUnique(c: byte, a: Bytes, x: Bytes, b: Bytes, y: Bytes)
    requires a + [c] + x == b + [c] + y && c !in x && c !in y
    ensures a == b && x == y
  {
    CutAfter(a + [c] + x, c, a, x);
    CutAfter(a + [c] + x, c, b, y);
    assert |a| == |b|;
  }

  lemma SameSizeCut(s: Bytes, x: Bytes, t: Bytes, y: Bytes)
    requires s + x == t + y && |s| == |t|
    ensures s == t && x == y
  {
    assert s == (s + x)[..|s|] && t == (t + y)[..|t|];
    assert x == (s + x)[|s|..] && y == (t + y)[|t|..];
  }
}
