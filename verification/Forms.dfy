/**
  Forms and what is hidden of a request (`oidc/src/oidc_core.cpp`): the percent-encoder, the form
  encoder, and `HideRequest`, which takes a form apart again to hide each of its values.
 */
module Forms {
  import opened Bytes
  import opened Ordered
  import opened Redaction
  import Decimals

  const AMP: byte := 38     // '&'
  const EQUALS: byte := 61  // '='
  const PERCENT: byte := 37 // '%'
  const PLUS: byte := 43    // '+'
  const SPACE: byte := 32

  // "authorization"
  const AUTHORIZATION: Bytes := [97, 117, 116, 104, 111, 114, 105, 122, 97, 116, 105, 111, 110]

  // "application/x-www-form-urlencoded"
  const FORM_TYPE: Bytes := APPLICATION + X_WWW + FORM_URLENCODED

  const APPLICATION: Bytes := [97, 112, 112, 108, 105, 99, 97, 116, 105, 111, 110]
  const X_WWW: Bytes := [47, 120, 45, 119, 119, 119, 45, 102, 111, 114, 109, 45]
  const FORM_URLENCODED: Bytes := [117, 114, 108, 101, 110, 99, 111, 100, 101, 100]

  type Entry = (Bytes, Bytes)

  // The constants are the texts they stand for.
  lemma SpelledNames()
    ensures Spells(AUTHORIZATION, "authorization")
    ensures Spells([AMP, EQUALS, PERCENT, PLUS, SPACE], "&=%+ ")
  {
  }

  lemma SpelledType()
    ensures FORM_TYPE == APPLICATION + X_WWW + FORM_URLENCODED
    ensures Spells(APPLICATION, "application")
    ensures Spells(X_WWW, "/x-www-form-")
    ensures Spells(FORM_URLENCODED, "urlencoded")
  {
    SpelledStart();
    SpelledMiddle();
    SpelledEnd();
    hide APPLICATION, X_WWW, FORM_URLENCODED, Spells;
  }

  lemma SpelledStart()
    ensures Spells(APPLICATION, "application")
  {
  }

  lemma SpelledMiddle()
    ensures Spells(X_WWW, "/x-www-form-")
  {
  }

  lemma SpelledEnd()
    ensures Spells(FORM_URLENCODED, "urlencoded")
  {
  }

  // ----- Percent-encoding -----

  predicate Upper(c: byte) {
    65 <= c <= 90
  }

  predicate Lower(c: byte) {
    97 <= c <= 122
  }

  predicate Unreserved(c: byte) {
    Decimals.IsDigit(c) || Upper(c) || Lower(c) || c == 45 || c == 95 || c == 46 || c == 126
  }

  function HexDigit(n: byte): byte
    requires n < 16
  {
    if n < 10 then 48 + n else 55 + n
  }

  predicate IsHex(c: byte) {
    Decimals.IsDigit(c) || 65 <= c <= 70 || 97 <= c <= 102
  }

  function HexValue(c: byte): byte
    requires IsHex(c)
  {
    if Decimals.IsDigit(c) then c - 48 else if Upper(c) then c - 55 else c - 87
  }

  function Escaped(c: byte): Bytes {
    if Unreserved(c) then [c] else [PERCENT, HexDigit(c >> 4), HexDigit(c & 15)]
  }

  function Encoded(value: Bytes): Bytes {
    if value == [] then [] else Escaped(value[0]) + Encoded(value[1..])
  }

  method UrlEncode(value: Bytes) returns (out: Bytes)
    ensures out == Encoded(value)
  {
    out := [];
    for i := 0 to |value|
      invariant out + Encoded(value[i..]) == Encoded(value)
    {
      var c := value[i];
      assert value[i..][1..] == value[i + 1..];
      Associate(out, Escaped(c), Encoded(value[i + 1..]));
      if Unreserved(c) {
        out := out + [c];
      } else {
        out := out + [PERCENT, HexDigit(c >> 4), HexDigit(c & 15)];
      }
    }
  }

  // What is left as it is: letters, digits and "-_.~".
  lemma UnreservedAre(c: byte)
    ensures Unreserved(c) <==>
            var n := c as int;
            || 'A' as int <= n <= 'Z' as int || 'a' as int <= n <= 'z' as int || '0' as int <= n <= '9' as int
            || n == '-' as int || n == '_' as int || n == '.' as int || n == '~' as int
  {
  }

  // An escape is a percent sign and two digits, the high one first, in capitals.
  lemma EscapeIs(n: byte)
    requires n < 16
    ensures HexDigit(n) as int == "0123456789ABCDEF"[n as int] as int
  {
  }

  // The decoder HideRequest carries: '+' is a space, a '%' without two hex digits stands for itself.
  function Decoded(text: Bytes): Bytes {
    if text == [] then []
    else if text[0] == PERCENT && |text| > 2 && IsHex(text[1]) && IsHex(text[2]) then
      [(HexValue(text[1]) << 4) | HexValue(text[2])] + Decoded(text[3..])
    else
      [if text[0] == PLUS then SPACE else text[0]] + Decoded(text[1..])
  }

  method Decode(encoded: Bytes) returns (decoded: Bytes)
    ensures decoded == Decoded(encoded)
  {
    decoded := [];
    var i := 0;
    while i < |encoded|
      invariant 0 <= i <= |encoded|
      invariant decoded + Decoded(encoded[i..]) == Decoded(encoded)
    {
      var rest := encoded[i..];
      if encoded[i] == PERCENT && i + 2 < |encoded| && IsHex(encoded[i + 1]) && IsHex(encoded[i + 2]) {
        var c := (HexValue(encoded[i + 1]) << 4) | HexValue(encoded[i + 2]);
        assert rest[3..] == encoded[i + 3..];
        Associate(decoded, [c], Decoded(encoded[i + 3..]));
        decoded := decoded + [c];
        i := i + 2;
      } else {
        var c := if encoded[i] == PLUS then SPACE else encoded[i];
        assert rest[1..] == encoded[i + 1..];
        Associate(decoded, [c], Decoded(encoded[i + 1..]));
        decoded := decoded + [c];
      }
      i := i + 1;
    }
  }

  lemma EscapeDecodes(c: byte)
    ensures !Unreserved(c) ==>
            IsHex(HexDigit(c >> 4)) && IsHex(HexDigit(c & 15))
            && (HexValue(HexDigit(c >> 4)) << 4) | HexValue(HexDigit(c & 15)) == c
  {
  }

  // Read back, a digit has its value in capitals and in small letters.
  lemma HexReads(n: byte)
    requires n < 16
    ensures IsHex(HexDigit(n)) && HexValue(HexDigit(n)) == n
    ensures n >= 10 ==> IsHex(HexDigit(n) + 32) && HexValue(HexDigit(n) + 32) == n
  {
  }

  // A plus is a space; an escape is its byte; any other byte is itself, a percent sign without two digits
  // included.
  lemma {:induction false} DecodesByByte(text: Bytes)
    requires text != []
    ensures text[0] == PLUS ==> Decoded(text) == [SPACE] + Decoded(text[1..])
    ensures text[0] == PERCENT && |text| > 2 && IsHex(text[1]) && IsHex(text[2]) ==>
              Decoded(text) == [16 * HexValue(text[1]) + HexValue(text[2])] + Decoded(text[3..])
    ensures text[0] != PLUS && !(text[0] == PERCENT && |text| > 2 && IsHex(text[1]) && IsHex(text[2])) ==>
              Decoded(text) == [text[0]] + Decoded(text[1..])
  {
    if text[0] == PERCENT && |text| > 2 && IsHex(text[1]) && IsHex(text[2]) {
      HexBelow(text[1]);
      HexBelow(text[2]);
      HexSum(HexValue(text[1]), HexValue(text[2]));
      hide HexValue;
    }
  }

  lemma HexBelow(c: byte)
    requires IsHex(c)
    ensures HexValue(c) < 16
  {
  }

  lemma HexSum(h: byte, l: byte)
    requires h < 16 && l < 16
    ensures (h << 4) | l == 16 * h + l
  {
  }

  // The decoder inverts the encoder, on every byte string.
  lemma {:induction false} DecodesEncoded(value: Bytes)
    ensures Decoded(Encoded(value)) == value
  {
    if value != [] {
      var c, rest := value[0], Encoded(value[1..]);
      EscapeDecodes(c);
      var all := Escaped(c) + rest;
      assert all[|Escaped(c)|..] == rest;
      DecodesEncoded(value[1..]);
      assert value == [c] + value[1..];
    }
  }

  predicate PlainText(text: Bytes) {
    forall i :: 0 <= i < |text| ==> Unreserved(text[i]) || text[i] == PERCENT
  }

  // An encoded value has no byte the form's grammar or the mark's brackets use, and is no shorter.
  lemma {:induction false} EncodedPlain(value: Bytes)
    ensures PlainText(Encoded(value)) && |value| <= |Encoded(value)|
  {
    if value != [] {
      EncodedPlain(value[1..]);
      var c := value[0];
      if !Unreserved(c) {
        assert Unreserved(HexDigit(c >> 4)) && Unreserved(HexDigit(c & 15));
      }
    }
  }

  // ----- Forms -----

  // The entries of a std::map: in the order of their names, each name once.
  predicate OfMap(entries: seq<Entry>) {
    forall i, j :: 0 <= i < j < |entries| ==> Below(entries[i].0, entries[j].0)
  }

  function Pair(entry: Entry): Bytes {
    Encoded(entry.0) + [EQUALS] + Encoded(entry.1)
  }

  // The entries of a std::map, in its order, joined by '&'.
  function Form(entries: seq<Entry>): Bytes {
    if entries == [] then [] else Pair(entries[0]) + Rest(entries[1..])
  }

  function Rest(entries: seq<Entry>): Bytes {
    if entries == [] then [] else ([AMP] + Pair(entries[0])) + Rest(entries[1..])
  }

  lemma {:induction false} RestTurn(entries: seq<Entry>, i: nat, before: Bytes)
    requires i < |entries|
    ensures before + Rest(entries[i..]) == (before + [AMP] + Pair(entries[i])) + Rest(entries[i + 1..])
  {
    hide Pair;
    assert entries[i..][1..] == entries[i + 1..];
    Associate(before, [AMP], Pair(entries[i]));
    Associate(before, [AMP] + Pair(entries[i]), Rest(entries[i + 1..]));
  }

  method FormEncode(entries: seq<Entry>) returns (body: Bytes)
    ensures body == Form(entries)
  {
    hide Encoded;
    body := [];
    for i := 0 to |entries|
      invariant if i == 0 then body == [] else body != [] && body + Rest(entries[i..]) == Form(entries)
    {
      ghost var before := body;
      RestTurn(entries, i, before);
      if body != [] {
        body := body + [AMP];
      }
      var name := UrlEncode(entries[i].0);
      var value := UrlEncode(entries[i].1);
      body := body + (name + [EQUALS] + value);
      assert i == 0 ==> body == Pair(entries[0]);
      assert i > 0 ==> body == before + [AMP] + Pair(entries[i]);
    }
  }

  // The pieces of a body between its '&'s.
  function Pieces(body: Bytes): seq<Bytes>
    decreases |body|
  {
    var p := Find(body, [AMP], 0);
    if p == NPOS then [body] else [body[..p]] + Pieces(body[p + 1..])
  }

  lemma {:induction false} PiecesTurn(text: Bytes)
    ensures var p := Find(text, [AMP], 0);
            Pieces(text) == if p == NPOS then [text] else [text[..p]] + Pieces(text[p + 1..])
  {
  }

  lemma {:induction false} PairPlain(entry: Entry)
    ensures AMP !in Pair(entry) && EQUALS !in Encoded(entry.0)
  {
    EncodedPlain(entry.0);
    EncodedPlain(entry.1);
  }

  lemma {:induction false} FormTurn(entries: seq<Entry>)
    requires |entries| > 1
    ensures Form(entries) == Pair(entries[0]) + [AMP] + Form(entries[1..])
  {
    var first, later := entries[0], entries[1..];
    Associate([AMP], Pair(later[0]), Rest(later[1..]));
    Associate(Pair(first), [AMP], Form(later));
  }

  lemma {:induction false} PiecesJoined(text: Bytes, first: Bytes, later: Bytes)
    requires AMP !in first && text == first + [AMP] + later
    ensures Pieces(text) == [first] + Pieces(later)
  {
    FirstByte(text, first, AMP, later);
    assert text[..|first|] == first && text[|first| + 1..] == later;
  }

  // The splitter finds the encoder's pairs again.
  lemma {:induction false} PiecesOfForm(entries: seq<Entry>)
    requires entries != []
    ensures |Pieces(Form(entries))| == |entries|
    ensures forall i :: 0 <= i < |entries| ==> Pieces(Form(entries))[i] == Pair(entries[i])
  {
    hide Pair, Pieces;
    PairPlain(entries[0]);
    if |entries| == 1 {
      assert Form(entries) == Pair(entries[0]) by {
        assert Pair(entries[0]) + [] == Pair(entries[0]);
      }
      PiecesTurn(Form(entries));
      NoByte(Form(entries), AMP);
    } else {
      FormTurn(entries);
      PiecesJoined(Form(entries), Pair(entries[0]), Form(entries[1..]));
      PiecesOfForm(entries[1..]);
    }
  }

  // ----- What HideRequest hides, as a list -----

  // A pair's value as it was sent, then as it was meant.
  function PairSecrets(pair: Bytes): seq<Bytes> {
    var p := Find(pair, [EQUALS], 0);
    if p == NPOS then [] else [pair[p + 1..], Decoded(pair[p + 1..])]
  }

  function PiecesSecrets(pieces: seq<Bytes>): seq<Bytes> {
    if pieces == [] then [] else PairSecrets(pieces[0]) + PiecesSecrets(pieces[1..])
  }

  function Lowered(name: Bytes): Bytes {
    seq(|name|, i requires 0 <= i < |name| => if Upper(name[i]) then name[i] + 32 else name[i])
  }

  // An Authorization header's value, and what follows its first space.
  function HeaderSecrets(header: Entry): seq<Bytes> {
    if Lowered(header.0) != AUTHORIZATION then []
    else
      var p := Find(header.1, [SPACE], 0);
      if p == NPOS then [header.1] else [header.1, header.1[p + 1..]]
  }

  function HeadersSecrets(headers: seq<Entry>): seq<Bytes> {
    if headers == [] then [] else HeaderSecrets(headers[0]) + HeadersSecrets(headers[1..])
  }

  function BodySecrets(body: Bytes, isForm: bool): seq<Bytes> {
    if isForm then PiecesSecrets(Pieces(body)) else [body]
  }

  function Secrets(headers: seq<Entry>, body: Bytes, isForm: bool): seq<Bytes> {
    HeadersSecrets(headers) + BodySecrets(body, isForm)
  }

  lemma {:induction false} OneAfterAnother(error: Bytes, x: Bytes, y: Bytes)
    requires AllEnd(error, [x, y])
    ensures Ends(error, x) && Ends(Redacted(error, x), y)
    ensures Hidden(error, [x, y]) == Redacted(Redacted(error, x), y)
  {
    assert [x, y][1..] == [y] && [y][1..] == [];
    assert AllEnd(Redacted(error, x), [y]);
    assert Hidden(Redacted(Redacted(error, x), y), []) == Redacted(Redacted(error, x), y);
    assert Hidden(Redacted(error, x), [y]) == Hidden(Redacted(Redacted(error, x), y), []);
  }

  lemma {:induction false} JustOne(error: Bytes, x: Bytes)
    requires AllEnd(error, [x])
    ensures Ends(error, x) && Hidden(error, [x]) == Redacted(error, x)
  {
    assert [x][1..] == [];
  }

  method HideHeader(error: Bytes, header: Entry) returns (out: Bytes)
    requires AllEnd(error, HeaderSecrets(header))
    ensures out == Hidden(error, HeaderSecrets(header))
  {
    out := error;
    if Lowered(header.0) == AUTHORIZATION {
      var space := Find(header.1, [SPACE], 0);
      if space == NPOS {
        JustOne(error, header.1);
        out := Redact(out, header.1);
      } else {
        OneAfterAnother(error, header.1, header.1[space + 1..]);
        out := Redact(out, header.1);
        out := Redact(out, header.1[space + 1..]);
      }
    }
  }

  method HidePair(error: Bytes, pair: Bytes) returns (out: Bytes)
    requires AllEnd(error, PairSecrets(pair))
    ensures out == Hidden(error, PairSecrets(pair))
  {
    out := error;
    var equals := Find(pair, [EQUALS], 0);
    if equals != NPOS {
      var encoded := pair[equals + 1..];
      OneAfterAnother(error, encoded, Decoded(encoded));
      out := Redact(out, encoded);
      var decoded := Decode(encoded);
      out := Redact(out, decoded);
    }
  }

  lemma {:induction false} PiecesFrom(body: Bytes, start: nat)
    requires start <= |body|
    ensures var end := Find(body, [AMP], start);
            if end == NPOS then Pieces(body[start..]) == [body[start..]]
            else start <= end < |body| && Pieces(body[start..]) == [body[start..end]] + Pieces(body[end + 1..])
  {
    var text := body[start..];
    PiecesTurn(text);
    hide Pieces;
    FindShift(body, body[..start], text, [AMP]);
    var p := Find(text, [AMP], 0);
    if p != NPOS {
      CutAgain(body, start, p);
    }
  }

  lemma CutAgain(body: Bytes, start: nat, p: nat)
    requires start <= |body| && p < |body| - start
    ensures body[start..][..p] == body[start..start + p]
    ensures body[start..][p + 1..] == body[start + p + 1..]
  {
  }

  // HideRequest's loop over the headers.
  method HideHeaders(error: Bytes, headers: seq<Entry>) returns (out: Bytes)
    requires AllEnd(error, HeadersSecrets(headers))
    ensures out == Hidden(error, HeadersSecrets(headers))
  {
    out := error;
    for i := 0 to |headers|
      invariant AllEnd(out, HeadersSecrets(headers[i..]))
      invariant Hidden(out, HeadersSecrets(headers[i..])) == Hidden(error, HeadersSecrets(headers))
    {
      assert headers[i..][1..] == headers[i + 1..];
      HiddenInTurn(out, HeaderSecrets(headers[i]), HeadersSecrets(headers[i + 1..]));
      out := HideHeader(out, headers[i]);
    }
  }

  // The values still to hide when the loop stands at `start`.
  function SecretsFrom(body: Bytes, start: nat): seq<Bytes>
    requires start <= |body|
  {
    PiecesSecrets(Pieces(body[start..]))
  }

  lemma {:induction false} FirstPiece(body: Bytes, start: nat)
    requires start <= |body|
    ensures var end := Find(body, [AMP], start);
            if end == NPOS then SecretsFrom(body, start) == PairSecrets(body[start..])
            else start <= end < |body|
                 && SecretsFrom(body, start) == PairSecrets(body[start..end]) + SecretsFrom(body, end + 1)
  {
    hide Pieces, PairSecrets;
    PiecesFrom(body, start);
    var end := Find(body, [AMP], start);
    if end == NPOS {
      var pair := body[start..];
      assert PiecesSecrets([pair]) == PairSecrets(pair) + PiecesSecrets([pair][1..]);
      assert PairSecrets(pair) + [] == PairSecrets(pair);
    } else {
      var pair, later := body[start..end], Pieces(body[end + 1..]);
      assert ([pair] + later)[1..] == later;
      assert PiecesSecrets([pair] + later) == PairSecrets(pair) + PiecesSecrets(later);
    }
  }

  // HideRequest's loop over a form's pieces.
  method HideForm(error: Bytes, body: Bytes) returns (out: Bytes)
    requires AllEnd(error, SecretsFrom(body, 0))
    ensures out == Hidden(error, SecretsFrom(body, 0))
  {
    hide SecretsFrom;
    out := error;
    var start := 0;
    while start <= |body|
      invariant start <= |body|
      invariant AllEnd(out, SecretsFrom(body, start))
      invariant Hidden(out, SecretsFrom(body, start)) == Hidden(error, SecretsFrom(body, 0))
    {
      var end := Find(body, [AMP], start);
      FirstPiece(body, start);
      var pair := if end == NPOS then body[start..] else body[start..end];
      if end == NPOS {
        out := HidePair(out, pair);
        return;
      }
      HiddenInTurn(out, PairSecrets(pair), SecretsFrom(body, end + 1));
      out := HidePair(out, pair);
      start := end + 1;
    }
  }

  // A consumer's error text may quote the request: hide what it carried.
  method HideRequest(error: Bytes, headers: seq<Entry>, body: Bytes, contentType: Bytes) returns (out: Bytes)
    requires AllEnd(error, Secrets(headers, body, contentType == FORM_TYPE))
    ensures out == Hidden(error, Secrets(headers, body, contentType == FORM_TYPE))
  {
    hide FORM_TYPE;
    HiddenInTurn(error, HeadersSecrets(headers), BodySecrets(body, contentType == FORM_TYPE));
    out := HideHeaders(error, headers);
    if contentType == FORM_TYPE {
      assert body[0..] == body;
      out := HideForm(out, body);
    } else {
      JustOne(out, body);
      out := Redact(out, body);
    }
  }

  // ----- End to end -----

  function EntrySecrets(entry: Entry): seq<Bytes> {
    [Encoded(entry.1), entry.1]
  }

  lemma {:induction false} SecretsOfPair(entry: Entry)
    ensures PairSecrets(Pair(entry)) == EntrySecrets(entry)
  {
    var name, value := Encoded(entry.0), Encoded(entry.1);
    PairPlain(entry);
    FirstByte(Pair(entry), name, EQUALS, value);
    assert Pair(entry)[|name| + 1..] == value;
    DecodesEncoded(entry.1);
  }

  function EntriesSecrets(entries: seq<Entry>): seq<Bytes> {
    if entries == [] then [] else EntrySecrets(entries[0]) + EntriesSecrets(entries[1..])
  }

  // What is hidden of an encoded form: each value as sent and as meant, in order, and nothing else.
  lemma {:induction false} SecretsOfForm(entries: seq<Entry>)
    ensures PiecesSecrets(Pieces(Form(entries))) == EntriesSecrets(entries)
  {
    if entries == [] {
      NoByte([], AMP);
      NoByte([], EQUALS);
      assert Pieces([]) == [[]];
      assert PiecesSecrets([[]]) == PairSecrets([]) + PiecesSecrets([[]][1..]);
    } else {
      PiecesOfForm(entries);
      SecretsOfPairs(entries, Pieces(Form(entries)));
    }
  }

  lemma {:induction false} SecretsOfPairs(entries: seq<Entry>, pieces: seq<Bytes>)
    requires |pieces| == |entries| && forall i :: 0 <= i < |entries| ==> pieces[i] == Pair(entries[i])
    ensures PiecesSecrets(pieces) == EntriesSecrets(entries)
  {
    if entries != [] {
      SecretsOfPair(entries[0]);
      SecretsOfPairs(entries[1..], pieces[1..]);
    }
  }

  lemma {:induction false} ValuesListed(entries: seq<Entry>, i: nat)
    requires i < |entries|
    ensures entries[i].1 in EntriesSecrets(entries) && Encoded(entries[i].1) in EntriesSecrets(entries)
  {
    if i == 0 {
      assert entries[0].1 == EntrySecrets(entries[0])[1] && Encoded(entries[0].1) == EntrySecrets(entries[0])[0];
    } else {
      ValuesListed(entries[1..], i - 1);
    }
  }

  // An unescaped text is its own encoding.
  lemma {:induction false} PlainIsItself(text: Bytes)
    requires forall i :: 0 <= i < |text| ==> Unreserved(text[i])
    ensures Encoded(text) == text
  {
    if text != [] {
      PlainIsItself(text[1..]);
      assert text == [text[0]] + text[1..];
    }
  }

  lemma {:induction false} EncodedOnlyByItself(value: Bytes, text: Bytes)
    requires forall i :: 0 <= i < |text| ==> Unreserved(text[i])
    requires Encoded(value) == text
    ensures value == text
  {
    PlainIsItself(text);
    DecodesEncoded(text);
    DecodesEncoded(value);
  }

  lemma {:induction false} WordPlain()
    ensures forall i :: 0 <= i < |WORD| ==> Unreserved(WORD[i])
  {
  }

  // An encoded value touches the mark only when it is the word inside it.
  lemma {:induction false} EncodedTouches(value: Bytes)
    requires |Encoded(value)| >= SHORTEST && Touches(Encoded(value), MARK)
    ensures value == WORD
  {
    hide WORD, MARK;
    TouchingHasBracket(Encoded(value));
    EncodedPlain(value);
    WordPlain();
    if Encoded(value) == WORD {
      EncodedOnlyByItself(value, WORD);
    }
  }

  lemma {:induction false} SecretIsNoPart(value: Bytes, s: Bytes)
    requires s == value || s == Encoded(value)
    requires |s| >= SHORTEST && Occurs(s, MARK)
    ensures |value| >= SHORTEST && Occurs(value, MARK)
  {
    hide WORD, MARK, Encoded;
    WordInMark();
    if s != value {
      var p :| OccursAt(s, MARK, p);
      PartTouches(s, MARK, p);
      EncodedTouches(value);
    }
  }

  // Hiding a request whose body is an encoded form ends on every error if and only if neither its headers'
  // secrets nor the form's values hold a part of the mark of eight bytes or more.
  lemma {:induction false} FormEndsExactly(headers: seq<Entry>, entries: seq<Entry>)
    ensures (forall error :: AllEnd(error, Secrets(headers, Form(entries), true))) <==>
            && (forall s :: s in HeadersSecrets(headers) && |s| >= SHORTEST ==> !Occurs(s, MARK))
            && forall i :: 0 <= i < |entries| && |entries[i].1| >= SHORTEST ==> !Occurs(entries[i].1, MARK)
  {
    SecretsOfForm(entries);
    var values, all := EntriesSecrets(entries), Secrets(headers, Form(entries), true);
    assert all == HeadersSecrets(headers) + values;
    AllEndExactly(all);
    forall i | 0 <= i < |entries|
      ensures entries[i].1 in values
    {
      ValuesListed(entries, i);
    }
    hide AllEnd, MARK, Secrets, Form;
    if forall i :: 0 <= i < |entries| && |entries[i].1| >= SHORTEST ==> !Occurs(entries[i].1, MARK) {
      forall s | s in values && |s| >= SHORTEST
        ensures !Occurs(s, MARK)
      {
        SecretIsValue(entries, s);
        var i :| 0 <= i < |entries| && (s == entries[i].1 || s == Encoded(entries[i].1));
        if Occurs(s, MARK) {
          SecretIsNoPart(entries[i].1, s);
        }
      }
    }
  }

  lemma {:induction false} SecretIsValue(entries: seq<Entry>, s: Bytes)
    requires s in EntriesSecrets(entries)
    ensures exists i :: 0 <= i < |entries| && (s == entries[i].1 || s == Encoded(entries[i].1))
  {
    if s in EntrySecrets(entries[0]) {
      assert s == entries[0].1 || s == Encoded(entries[0].1);
    } else {
      SecretIsValue(entries[1..], s);
      var i :| 0 <= i < |entries[1..]| && (s == entries[1..][i].1 || s == Encoded(entries[1..][i].1));
      assert entries[1..][i] == entries[i + 1];
    }
  }

  // End to end: of a request whose body is an encoded form, no value of eight bytes or more is left in
  // the error, as it was meant or as it was sent, unless it touches the mark.
  lemma {:induction false} FormValuesHidden(error: Bytes, headers: seq<Entry>, entries: seq<Entry>, i: nat)
    requires i < |entries| && |entries[i].1| >= SHORTEST
    requires AllEnd(error, Secrets(headers, Form(entries), true))
    ensures var out := Hidden(error, Secrets(headers, Form(entries), true));
            && (!Touches(entries[i].1, MARK) ==> !Occurs(entries[i].1, out))
            && (entries[i].1 != WORD ==> !Occurs(Encoded(entries[i].1), out))
  {
    var v, all := entries[i].1, Secrets(headers, Form(entries), true);
    SecretsOfForm(entries);
    ValuesListed(entries, i);
    assert v in all && Encoded(v) in all;
    EncodedPlain(v);
    if !Touches(v, MARK) {
      HiddenForGood(v, error, all);
    }
    if v != WORD {
      if Touches(Encoded(v), MARK) {
        EncodedTouches(v);
      }
      HiddenForGood(Encoded(v), error, all);
    }
  }

  // ----- Reading a form back -----

  function Read(pair: Bytes): seq<Entry> {
    var p := Find(pair, [EQUALS], 0);
    if p == NPOS then [] else [(Decoded(pair[..p]), Decoded(pair[p + 1..]))]
  }

  function ReadPieces(pieces: seq<Bytes>): seq<Entry> {
    if pieces == [] then [] else Read(pieces[0]) + ReadPieces(pieces[1..])
  }

  // What a server reads out of a form body.
  function ReadForm(body: Bytes): seq<Entry> {
    ReadPieces(Pieces(body))
  }

  lemma {:induction false} ReadsPair(entry: Entry)
    ensures Read(Pair(entry)) == [entry]
  {
    var name, value := Encoded(entry.0), Encoded(entry.1);
    PairPlain(entry);
    FirstByte(Pair(entry), name, EQUALS, value);
    assert Pair(entry)[..|name|] == name && Pair(entry)[|name| + 1..] == value;
    DecodesEncoded(entry.0);
    DecodesEncoded(entry.1);
  }

  lemma {:induction false} ReadsPairs(entries: seq<Entry>, pieces: seq<Bytes>)
    requires |pieces| == |entries| && forall i :: 0 <= i < |entries| ==> pieces[i] == Pair(entries[i])
    ensures ReadPieces(pieces) == entries
  {
    if entries != [] {
      ReadsPair(entries[0]);
      ReadsPairs(entries[1..], pieces[1..]);
    }
  }

  // The form decodes back to its entries, in their order, whatever bytes they hold.
  lemma {:induction false} ReadsForm(entries: seq<Entry>)
    ensures ReadForm(Form(entries)) == entries
  {
    if entries == [] {
      NoByte([], AMP);
      NoByte([], EQUALS);
      assert Pieces([]) == [[]];
      assert ReadPieces([[]]) == Read([]) + ReadPieces([[]][1..]);
    } else {
      PiecesOfForm(entries);
      ReadsPairs(entries, Pieces(Form(entries)));
    }
  }

  lemma JoinedFirst(first: Bytes, amp: Bytes, later: Bytes, b: Bytes)
    ensures (first + amp + later) + amp + b == first + amp + (later + amp + b)
  {
  }

  lemma SeqAssociate(x: seq<Bytes>, y: seq<Bytes>, z: seq<Bytes>)
    ensures (x + y) + z == x + (y + z)
  {
  }

  lemma {:induction false} PiecesAppended(a: Bytes, b: Bytes)
    ensures Pieces(a + [AMP] + b) == Pieces(a) + Pieces(b)
    decreases |a|
  {
    hide Pieces, Find, OccursAt;
    PiecesTurn(a);
    NoByte(a, AMP);
    SplitAtByte(a, AMP);
    var p := Find(a, [AMP], 0);
    if p == NPOS {
      PiecesJoined(a + [AMP] + b, a, b);
    } else {
      var first, later := a[..p], a[p + 1..];
      PiecesAppended(later, b);
      JoinedFirst(first, [AMP], later, b);
      PiecesJoined(a + [AMP] + b, first, later + [AMP] + b);
      SeqAssociate([first], Pieces(later), Pieces(b));
    }
  }

  lemma {:induction false} ReadPiecesAppended(x: seq<Bytes>, y: seq<Bytes>)
    ensures ReadPieces(x + y) == ReadPieces(x) + ReadPieces(y)
  {
    if x == [] {
      assert x + y == y;
    } else {
      assert (x + y)[1..] == x[1..] + y;
      ReadPiecesAppended(x[1..], y);
    }
  }

  // Two forms joined by '&' read as one after the other.
  lemma {:induction false} ReadsJoined(a: Bytes, b: Bytes)
    ensures ReadForm(a + [AMP] + b) == ReadForm(a) + ReadForm(b)
  {
    PiecesAppended(a, b);
    ReadPiecesAppended(Pieces(a), Pieces(b));
  }
}
