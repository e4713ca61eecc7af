/**
  What is left of a request in an error once `HideRequest` (`oidc/src/oidc_core.cpp`) is through: for
  a form's values exactly, and for an Authorization header and a raw body.
 */
module FormLeaks {
  import opened Bytes
  import opened Forms
  import opened Ordered
  import opened Redaction

  // ----- A form's value -----

  // An entry's value; every loop over the request's secrets ends, and the value shows in what comes out.
  ghost predicate ShowsInForm(v: Bytes, error: Bytes, headers: seq<Entry>, entries: seq<Entry>) {
    && OfMap(entries) && (exists i :: 0 <= i < |entries| && entries[i].1 == v)
    && AllEnd(error, Secrets(headers, Form(entries), true))
    && Occurs(v, Hidden(error, Secrets(headers, Form(entries), true)))
  }

  // A second entry of the form: its value, a digit again and again, puts the first one's value back.
  function Second(n: nat, c: byte): Entry {
    ([97], Filler(n, c))
  }

  lemma {:induction false} FillerPlain(n: nat, c: byte)
    requires 48 <= c <= 53
    ensures Encoded(Filler(n, c)) == Filler(n, c)
  {
    PlainIsItself(Filler(n, c));
  }

  lemma {:induction false} TwoSecrets(v: Bytes, n: nat, c: byte)
    requires 48 <= c <= 53
    ensures Secrets([], Form([([], v), Second(n, c)]), true) == [Encoded(v), v, Filler(n, c), Filler(n, c)]
  {
    FillerPlain(n, c);
    hide Encoded, Filler, Pieces, PairSecrets;
    var entries := [([], v), Second(n, c)];
    SecretsOfForm(entries);
    assert entries[1..] == [Second(n, c)] && entries[1..][1..] == [];
    assert EntriesSecrets(entries[1..]) == EntrySecrets(Second(n, c)) + EntriesSecrets([]);
    assert EntriesSecrets(entries) == EntrySecrets(entries[0]) + EntriesSecrets(entries[1..]);
  }

  lemma {:induction false} TwoOfMap(v: Bytes, n: nat, c: byte)
    ensures OfMap([([], v), Second(n, c)])
  {
    hide Filler;
    assert Below([], Second(n, c).0);
  }

  // With its ends around a filler, v is put back where the filler was, and no filler is left.
  lemma {:induction false} Between(v: Bytes, k: int, n: nat, c: byte)
    requires |v| >= SHORTEST && TouchesAt(v, MARK, k) && Fresh(v, MARK, k, c) && |v| < n
    ensures var a, x, b := Before(v, k), Filler(n, c), After(v, MARK, k);
            && |x| >= SHORTEST && Ends(a + x + b, x) && Redacted(a + x + b, x) == a + (MARK + b)
            && Occurs(v, a + (MARK + b)) && !Occurs(x, a + (MARK + b))
  {
    FillerReplaced(v, MARK, k, n, c);
    ShownByMark(v, MARK, k);
    forall q
      ensures !OccursAt(Filler(n, c), Before(v, k) + (MARK + After(v, MARK, k)), q)
    {
      NoFillerLeft(Before(v, k), After(v, MARK, k), n, c, q);
    }
    hide MARK, Scrubbed, LoopEnds;
  }

  // Four values, of which only the third is in the text.
  lemma {:induction false} ThirdOnly(body: Bytes, x: Bytes, y: Bytes, z: Bytes)
    requires !Occurs(x, body) && !Occurs(y, body) && Ends(body, z) && !Occurs(z, Redacted(body, z))
    ensures AllEnd(body, [x, y, z, z]) && Hidden(body, [x, y, z, z]) == Redacted(body, z)
  {
    var out := Redacted(body, z);
    AbsentStays(body, x);
    AbsentStays(body, y);
    AbsentStays(out, z);
    hide Ends, Redacted, Occurs;
    assert [z][1..] == [] && [z, z][1..] == [z] && [y, z, z][1..] == [z, z] && [x, y, z, z][1..] == [y, z, z];
    assert AllEnd(out, []) && Hidden(out, []) == out;
    assert AllEnd(out, [z]) && Hidden(out, [z]) == out;
    assert AllEnd(body, [z, z]) && Hidden(body, [z, z]) == out;
    assert AllEnd(body, [y, z, z]) && Hidden(body, [y, z, z]) == out;
  }

  // No filler of that length fits beside the mark.
  lemma {:induction false} NoFillerLeft(a: Bytes, b: Bytes, n: nat, c: byte, q: int)
    requires |a| < n && |b| < n && n > 0 && c !in MARK
    ensures !OccursAt(Filler(n, c), a + (MARK + b), q)
  {
    var x, text := Filler(n, c), a + (MARK + b);
    if 0 <= q && q + n <= |text| {
      var at := if q < |a| then |a| else q;
      assert q <= at < q + n && |a| <= at < |a| + |MARK|;
      assert text[at] == MARK[at - |a|];
      assert text[q + (at - q)] != x[at - q];
    }
  }

  // The request that leaks v: an error with v's ends around the filler, where v agrees with the mark.
  lemma {:induction false} RemadeInForm(v: Bytes) returns (error: Bytes, entries: seq<Entry>)
    requires |v| >= SHORTEST && Touches(v, MARK)
    ensures ShowsInForm(v, error, [], entries)
  {
    var k :| TouchesAt(v, MARK, k);
    var w := Encoded(v);
    EncodedPlain(v);
    var c := SomeFresh(v, w, k);
    var n := |w| + SHORTEST;
    var a, x, b := Before(v, k), Filler(n, c), After(v, MARK, k);
    error := a + x + b;
    entries := [([], v), Second(n, c)];
    forall q
      ensures !OccursAt(v, error, q) && !OccursAt(w, error, q)
    {
      NotShownByFiller(v, a, n, c, b, q);
      NotShownByFiller(w, a, n, c, b, q);
    }
    Between(v, k, n, c);
    TwoSecrets(v, n, c);
    TwoOfMap(v, n, c);
    hide OccursAt, MARK, Before, After, Filler, Encoded, Redacted, Ends, Secrets, Form, Second, OfMap;
    ThirdOnly(error, w, v, x);
    assert entries[0].1 == v;
  }

  // Some error and some form show a value of eight bytes or more if and only if it overlaps the mark.
  lemma {:induction false} FormLeaksExactly(v: Bytes)
    requires |v| >= SHORTEST
    ensures (exists error, headers, entries :: ShowsInForm(v, error, headers, entries)) <==> Touches(v, MARK)
  {
    if Touches(v, MARK) {
      var error, entries := RemadeInForm(v);
    } else if error, headers, entries: seq<Entry> :| ShowsInForm(v, error, headers, entries) {
      var i :| 0 <= i < |entries| && entries[i].1 == v;
      FormValuesHidden(error, headers, entries, i);
    }
  }

  // A value as it was sent, in the same way.
  ghost predicate EncodedShows(v: Bytes, error: Bytes, headers: seq<Entry>, entries: seq<Entry>) {
    && OfMap(entries) && (exists i :: 0 <= i < |entries| && entries[i].1 == v)
    && AllEnd(error, Secrets(headers, Form(entries), true))
    && Occurs(Encoded(v), Hidden(error, Secrets(headers, Form(entries), true)))
  }

  // As it was sent, only the word inside the mark ever shows.
  lemma {:induction false} EncodedLeaksExactly(v: Bytes)
    requires |v| >= SHORTEST
    ensures (exists error, headers, entries :: EncodedShows(v, error, headers, entries)) <==> v == WORD
  {
    if v == WORD {
      WordInMark();
      WordPlain();
      PlainIsItself(WORD);
      var p :| OccursAt(WORD, MARK, p);
      PartTouches(WORD, MARK, p);
      hide WORD, MARK;
      var error, entries := RemadeInForm(v);
      assert EncodedShows(v, error, [], entries);
    } else if error, headers, entries: seq<Entry> :| EncodedShows(v, error, headers, entries) {
      var i :| 0 <= i < |entries| && entries[i].1 == v;
      FormValuesHidden(error, headers, entries, i);
    }
  }

  // ----- An Authorization header -----

  lemma {:induction false} HeaderListed(headers: seq<Entry>, i: nat, s: Bytes)
    requires i < |headers| && s in HeaderSecrets(headers[i])
    ensures s in HeadersSecrets(headers)
    decreases i
  {
    hide HeaderSecrets;
    if i > 0 {
      HeaderListed(headers[1..], i - 1, s);
    }
  }

  predicate Authorizes(header: Entry) {
    Lowered(header.0) == AUTHORIZATION
  }

  // That is: the name is "authorization", each of its letters small or capital.
  lemma {:induction false} AuthorizesExactly(header: Entry)
    ensures Authorizes(header) <==>
            && |header.0| == |AUTHORIZATION|
            && forall i :: 0 <= i < |AUTHORIZATION| ==>
                 header.0[i] == AUTHORIZATION[i] || header.0[i] == AUTHORIZATION[i] - 32
  {
    var name := header.0;
    AllSmall();
    hide AUTHORIZATION;
    if |name| == |AUTHORIZATION| {
      forall i | 0 <= i < |name|
        ensures Lowered(name)[i] == AUTHORIZATION[i] <==>
                name[i] == AUTHORIZATION[i] || name[i] == AUTHORIZATION[i] - 32
      {
        LowersTo(name[i], AUTHORIZATION[i]);
      }
    }
  }

  lemma AllSmall()
    ensures forall i :: 0 <= i < |AUTHORIZATION| ==> Lower(AUTHORIZATION[i])
  {
  }

  lemma LowersTo(c: byte, small: byte)
    requires Lower(small)
    ensures (if Upper(c) then c + 32 else c) == small <==> c == small || c == small - 32
  {
  }

  // Of an Authorization header, neither its value nor what follows its first space is left in the error,
  // if it has eight bytes or more and does not overlap the mark; whatever else the request carried. The
  // value is not left where such a token is not.
  lemma {:induction false} HeaderHidden(error: Bytes, headers: seq<Entry>, body: Bytes, isForm: bool, i: nat)
    requires i < |headers| && Authorizes(headers[i])
    requires AllEnd(error, Secrets(headers, body, isForm))
    ensures var out, value := Hidden(error, Secrets(headers, body, isForm)), headers[i].1;
            var p := Find(value, [SPACE], 0);
            && (|value| >= SHORTEST && !Touches(value, MARK) ==> !Occurs(value, out))
            && (p != NPOS && |value| - p - 1 >= SHORTEST && !Touches(value[p + 1..], MARK) ==>
                  !Occurs(value[p + 1..], out) && !Occurs(value, out))
  {
    var value := headers[i].1;
    var p := Find(value, [SPACE], 0);
    var all := Secrets(headers, body, isForm);
    HeaderListed(headers, i, value);
    assert value in all;
    if |value| >= SHORTEST && !Touches(value, MARK) {
      HiddenForGood(value, error, all);
    }
    if p != NPOS {
      var token := value[p + 1..];
      assert token == HeaderSecrets(headers[i])[1];
      HeaderListed(headers, i, token);
      assert token in all;
      if |token| >= SHORTEST && !Touches(token, MARK) {
        HiddenForGood(token, error, all);
        if Occurs(value, Hidden(error, all)) {
          PartShows(value, p + 1, Hidden(error, all));
        }
      }
    }
  }

  lemma {:induction false} PartShows(value: Bytes, from: nat, text: Bytes)
    requires from <= |value| && Occurs(value, text)
    ensures Occurs(value[from..], text)
  {
    var q :| OccursAt(value, text, q);
    assert forall i :: 0 <= i < |value| - from ==> text[q + from + i] == value[from + i] == value[from..][i];
    assert OccursAt(value[from..], text, q + from);
  }

  // A request with this token, whose loops end and whose token shows in what comes out.
  ghost predicate TokenShows(token: Bytes, error: Bytes, headers: seq<Entry>, body: Bytes, isForm: bool) {
    && (exists i :: 0 <= i < |headers| && Carries(headers[i], token))
    && AllEnd(error, Secrets(headers, body, isForm))
    && Occurs(token, Hidden(error, Secrets(headers, body, isForm)))
  }

  predicate Carries(header: Entry, token: Bytes) {
    var p := Find(header.1, [SPACE], 0);
    Authorizes(header) && p != NPOS && header.1[p + 1..] == token
  }

  // A header of one letter, a space and the token.
  function Bearer(token: Bytes): Entry {
    (AUTHORIZATION, [66] + [SPACE] + token)
  }

  lemma {:induction false} BearerCarries(token: Bytes)
    ensures Carries(Bearer(token), token)
    ensures HeaderSecrets(Bearer(token)) == [Bearer(token).1, token]
  {
    FirstByte(Bearer(token).1, [66], SPACE, token);
    assert Bearer(token).1[2..] == token;
    assert Lowered(AUTHORIZATION) == AUTHORIZATION;
  }

  lemma {:induction false} BearerSecrets(token: Bytes, x: Bytes)
    ensures Secrets([Bearer(token)], x, false) == [Bearer(token).1, token, x]
  {
    BearerCarries(token);
    hide HeaderSecrets, Bearer;
    var headers := [Bearer(token)];
    assert headers[1..] == [];
    assert HeadersSecrets(headers) == HeaderSecrets(headers[0]) + HeadersSecrets([]);
  }

  lemma {:induction false} LastOnly(text: Bytes, x: Bytes, y: Bytes, z: Bytes)
    requires !Occurs(x, text) && !Occurs(y, text) && Ends(text, z)
    ensures AllEnd(text, [x, y, z]) && Hidden(text, [x, y, z]) == Redacted(text, z)
  {
    var out := Redacted(text, z);
    AbsentStays(text, x);
    AbsentStays(text, y);
    hide Ends, Redacted, Occurs;
    assert [z][1..] == [] && [y, z][1..] == [z] && [x, y, z][1..] == [y, z];
    assert AllEnd(out, []) && Hidden(out, []) == out;
    assert AllEnd(text, [z]) && Hidden(text, [z]) == out;
    assert AllEnd(text, [y, z]) && Hidden(text, [y, z]) == out;
  }

  // A raw body puts the header's token back.
  lemma {:induction false} TokenRemade(token: Bytes) returns (error: Bytes, headers: seq<Entry>, body: Bytes)
    requires |token| >= SHORTEST && Touches(token, MARK)
    ensures TokenShows(token, error, headers, body, false)
  {
    var k :| TouchesAt(token, MARK, k);
    var value := Bearer(token).1;
    var c := SomeFresh(token, value, k);
    var n := |value| + SHORTEST;
    var a, b := Before(token, k), After(token, MARK, k);
    body := Filler(n, c);
    error := a + body + b;
    headers := [Bearer(token)];
    forall q
      ensures !OccursAt(token, error, q) && !OccursAt(value, error, q)
    {
      NotShownByFiller(token, a, n, c, b, q);
      NotShownByFiller(value, a, n, c, b, q);
    }
    Between(token, k, n, c);
    BearerSecrets(token, body);
    BearerCarries(token);
    hide OccursAt, MARK, Before, After, Filler, Redacted, Ends, Secrets, Bearer, Carries;
    LastOnly(error, value, token, body);
    assert Carries(headers[0], token);
  }

  // Some request shows an Authorization header's token of eight bytes or more if and only if the token
  // overlaps the mark.
  lemma {:induction false} TokenLeaksExactly(token: Bytes)
    requires |token| >= SHORTEST
    ensures (exists error, headers, body, isForm :: TokenShows(token, error, headers, body, isForm))
            <==> Touches(token, MARK)
  {
    if Touches(token, MARK) {
      var error, headers, body := TokenRemade(token);
    } else if error, headers: seq<Entry>, body, isForm :| TokenShows(token, error, headers, body, isForm) {
      var i :| 0 <= i < |headers| && Carries(headers[i], token);
      HeaderHidden(error, headers, body, isForm, i);
    }
  }

  // A request with this Authorization value, whose loops end and whose value shows in what comes out.
  ghost predicate HeaderShows(value: Bytes, error: Bytes, headers: seq<Entry>, body: Bytes, isForm: bool) {
    && (exists i :: 0 <= i < |headers| && Authorizes(headers[i]) && headers[i].1 == value)
    && AllEnd(error, Secrets(headers, body, isForm))
    && Occurs(value, Hidden(error, Secrets(headers, body, isForm)))
  }

  // Nothing follows the value's first space that would be hidden on its own.
  predicate NoToken(value: Bytes) {
    var p := Find(value, [SPACE], 0);
    p == NPOS || |value| - p - 1 < SHORTEST
  }

  // One header with such a value, and a raw body: hiding them is hiding the value and then the body.
  lemma {:induction false} HeaderThenBody(value: Bytes, x: Bytes, error: Bytes)
    requires NoToken(value) && !Occurs(value, error) && Ends(error, x)
    ensures var all := Secrets([(AUTHORIZATION, value)], x, false);
            AllEnd(error, all) && Hidden(error, all) == Redacted(error, x)
  {
    var headers := [(AUTHORIZATION, value)];
    assert headers[1..] == [] && Lowered(AUTHORIZATION) == AUTHORIZATION;
    assert HeadersSecrets(headers) == HeaderSecrets(headers[0]) + HeadersSecrets([]);
    var p := Find(value, [SPACE], 0);
    AbsentStays(error, value);
    var out := Redacted(error, x);
    assert [x][1..] == [] && [value, x][1..] == [x];
    assert AllEnd(out, []) && Hidden(out, []) == out;
    assert AllEnd(error, [x]) && Hidden(error, [x]) == out;
    if p == NPOS {
      assert Secrets(headers, x, false) == [value, x];
    } else {
      var token := value[p + 1..];
      assert Secrets(headers, x, false) == [value, token, x];
      assert [token, x][1..] == [x] && [value, token, x][1..] == [token, x];
      assert AllEnd(error, [token, x]) && Hidden(error, [token, x]) == out;
    }
  }

  lemma {:induction false} HeaderRemade(value: Bytes) returns (error: Bytes, headers: seq<Entry>, body: Bytes)
    requires |value| >= SHORTEST && Touches(value, MARK) && NoToken(value)
    ensures HeaderShows(value, error, headers, body, false)
  {
    var k :| TouchesAt(value, MARK, k);
    var c := SomeFresh(value, value, k);
    var n := |value| + SHORTEST;
    var a, b := Before(value, k), After(value, MARK, k);
    assert |a| < |value| && |b| < |value|;
    Between(value, k, n, c);
    AuthorizationAuthorizes();
    hide OccursAt, MARK, AUTHORIZATION, Before, After, Filler, Redacted, Ends, Secrets, NoToken, Authorizes;
    body := Filler(n, c);
    error := a + body + b;
    headers := [(AUTHORIZATION, value)];
    forall q
      ensures !OccursAt(value, error, q)
    {
      NotShownByFiller(value, a, n, c, b, q);
    }
    HeaderThenBody(value, body, error);
    assert Authorizes(headers[0]) && headers[0].1 == value;
  }

  lemma {:induction false} AuthorizationAuthorizes()
    ensures forall value: Bytes :: Authorizes((AUTHORIZATION, value))
  {
    assert Lowered(AUTHORIZATION) == AUTHORIZATION;
  }

  // Some request shows an Authorization value of eight bytes or more, without a token that is hidden on
  // its own, if and only if the value overlaps the mark.
  lemma {:induction false} HeaderLeaksExactly(value: Bytes)
    requires |value| >= SHORTEST && NoToken(value)
    ensures (exists error, headers, body, isForm :: HeaderShows(value, error, headers, body, isForm))
            <==> Touches(value, MARK)
  {
    if Touches(value, MARK) {
      var error, headers, body := HeaderRemade(value);
    } else if error, headers: seq<Entry>, body, isForm :| HeaderShows(value, error, headers, body, isForm) {
      var i :| 0 <= i < |headers| && Authorizes(headers[i]) && headers[i].1 == value;
      HeaderHidden(error, headers, body, isForm, i);
    }
  }

  // ----- A raw body -----

  ghost predicate BodyShows(body: Bytes, error: Bytes, headers: seq<Entry>) {
    && AllEnd(error, Secrets(headers, body, false))
    && Occurs(body, Hidden(error, Secrets(headers, body, false)))
  }

  lemma {:induction false} BodyLast(error: Bytes, headers: seq<Entry>, body: Bytes)
    requires AllEnd(error, Secrets(headers, body, false))
    ensures AllEnd(error, HeadersSecrets(headers))
    ensures var text := Hidden(error, HeadersSecrets(headers));
            Ends(text, body) && Hidden(error, Secrets(headers, body, false)) == Redacted(text, body)
  {
    HiddenInTurn(error, HeadersSecrets(headers), [body]);
    JustOne(Hidden(error, HeadersSecrets(headers)), body);
  }

  // A body that is no form goes last: some error shows one of eight bytes or more if and only if it is no
  // part of the mark and not one of the values that are always gone.
  lemma {:induction false} BodyLeaksExactly(body: Bytes)
    requires |body| >= SHORTEST
    ensures (exists error, headers :: BodyShows(body, error, headers)) <==> !Occurs(body, MARK) && !Safe(body, MARK)
  {
    if error, headers: seq<Entry> :| BodyShows(body, error, headers) {
      BodyLast(error, headers, body);
      var text := Hidden(error, HeadersSecrets(headers));
      EndsExactly(text, body);
      if Occurs(body, MARK) {
        AbsentStays(text, body);
      }
      if Safe(body, MARK) {
        GoneWhenSafe(text, body, MARK);
      }
    }
    if !Occurs(body, MARK) && !Safe(body, MARK) {
      GoneExactly(body, MARK);
      var error :| LoopEnds(error, body, MARK) && Occurs(body, Scrubbed(error, body, MARK));
      OnlyBody(error, body);
    }
  }

  lemma {:induction false} OnlyBody(error: Bytes, body: Bytes)
    requires |body| >= SHORTEST && LoopEnds(error, body, MARK) && Occurs(body, Scrubbed(error, body, MARK))
    ensures BodyShows(body, error, [])
  {
    hide LoopEnds, Scrubbed, Occurs, MARK;
    var out := Redacted(error, body);
    assert Secrets([], body, false) == [body];
    assert [body][1..] == [];
    assert AllEnd(out, []) && Hidden(out, []) == out;
  }
}
