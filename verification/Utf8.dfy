/**
  The names a keychain keys by (`keychain/src/keychain.cpp`): `ValidUtf8` accepts exactly the UTF-8
  encodings of sections 3 and 4 of RFC 3629, and a service and an account joined by '/' determine both.
 */
module Utf8 {
  import opened Bytes

  // ----- What RFC 3629 says -----

  // A Unicode scalar value.
  predicate IsScalar(cp: bv32) {
    cp <= 0x10FFFF && !(0xD800 <= cp <= 0xDFFF)
  }

  // The k-th group of six bits of the code point, in an octet of the form 10xxxxxx.
  function Trail(cp: bv32, k: nat): byte {
    if k == 0 then (0x80 | (cp & 0x3F)) as bv8
    else if k == 1 then (0x80 | ((cp >> 6) & 0x3F)) as bv8
    else (0x80 | ((cp >> 12) & 0x3F)) as bv8
  }

  // The first octet of a sequence of n.
  function Leading(cp: bv32, n: nat): byte
    requires Fits(cp, n)
  {
    if n == 1 then cp as bv8
    else if n == 2 then (0xC0 | (cp >> 6)) as bv8
    else if n == 3 then (0xE0 | (cp >> 12)) as bv8
    else (0xF0 | (cp >> 18)) as bv8
  }

  // The ranges of the table of section 3.
  predicate Fits(cp: bv32, n: nat) {
    match n
    case 1 => cp < 0x80
    case 2 => 0x80 <= cp < 0x800
    case 3 => 0x800 <= cp < 0x10000
    case 4 => 0x10000 <= cp <= 0x10FFFF
    case _ => false
  }

  // The table of section 3.
  function Encode1(cp: bv32): Bytes
    requires IsScalar(cp)
  {
    if Fits(cp, 1) then [Leading(cp, 1)]
    else if Fits(cp, 2) then [Leading(cp, 2), Trail(cp, 0)]
    else if Fits(cp, 3) then [Leading(cp, 3), Trail(cp, 1), Trail(cp, 0)]
    else [Leading(cp, 4), Trail(cp, 2), Trail(cp, 1), Trail(cp, 0)]
  }

  predicate Scalars(text: seq<bv32>) {
    forall i :: 0 <= i < |text| ==> IsScalar(text[i])
  }

  function Encode(text: seq<bv32>): Bytes
    requires Scalars(text)
  {
    if text == [] then [] else Encode1(text[0]) + Encode(text[1..])
  }

  // ----- What the code does with one sequence -----

  // How many octets follow the first; 4 when it starts no sequence.
  function Extra(c: byte): nat {
    if c < 0x80 then 0
    else if c & 0xE0 == 0xC0 then 1
    else if c & 0xF0 == 0xE0 then 2
    else if c & 0xF8 == 0xF0 then 3
    else 4
  }

  function Lead(c: byte): bv32 {
    if c < 0x80 then c as bv32
    else if c & 0xE0 == 0xC0 then (c & 0x1F) as bv32
    else if c & 0xF0 == 0xE0 then (c & 0x0F) as bv32
    else (c & 0x07) as bv32
  }

  // Six more bits.
  function Shifted(cp: bv32, next: byte): bv32 {
    (cp << 6) | ((next & 0x3F) as bv32)
  }

  // The code point after k of the octets that follow.
  function Gathered(text: Bytes, k: nat): bv32
    requires k < |text|
  {
    if k == 0 then Lead(text[0]) else Shifted(Gathered(text, k - 1), text[k])
  }

  predicate Continues(c: byte) {
    c & 0xC0 == 0x80
  }

  predicate Trailing(text: Bytes, k: nat)
    requires k < |text|
  {
    forall j :: 1 <= j <= k ==> Continues(text[j])
  }

  // Not overlong, not too large, no surrogate.
  predicate InRange(cp: bv32, extra: nat) {
    !((extra == 1 && cp < 0x80) || (extra == 2 && cp < 0x800) || (extra == 3 && cp < 0x10000)
      || cp > 0x10FFFF || (cp >= 0xD800 && cp <= 0xDFFF))
  }

  predicate WellFormedHead(text: Bytes) {
    text != [] &&
    var extra := Extra(text[0]);
    extra < 4 && extra < |text| && Trailing(text, extra) && InRange(Gathered(text, extra), extra)
  }

  predicate Valid(text: Bytes)
    decreases |text|
  {
    text == [] || (WellFormedHead(text) && Valid(text[Extra(text[0]) + 1..]))
  }

  // The body of the reader's loop past the ASCII case: the length of a sequence, 0 to refuse it.
  method ReadSequence(text: Bytes) returns (n: nat)
    requires text != [] && Extra(text[0]) > 0
    ensures n == if WellFormedHead(text) then Extra(text[0]) + 1 else 0
  {
    var c := text[0];
    var extra, cp: bv32 := 0, 0;
    if c & 0xE0 == 0xC0 {
      extra, cp := 1, (c & 0x1F) as bv32;
    } else if c & 0xF0 == 0xE0 {
      extra, cp := 2, (c & 0x0F) as bv32;
    } else if c & 0xF8 == 0xF0 {
      extra, cp := 3, (c & 0x07) as bv32;
    } else {
      return 0;
    }
    if extra >= |text| {
      return 0; // truncated
    }
    assert extra == Extra(c) && cp == Gathered(text, 0);
    for k := 1 to extra + 1
      invariant cp == Gathered(text, k - 1) && Trailing(text, k - 1)
    {
      var next := text[k];
      if next & 0xC0 != 0x80 {
        assert !Continues(text[k]);
        return 0;
      }
      cp := (cp << 6) | ((next & 0x3F) as bv32);
    }
    if (extra == 1 && cp < 0x80) || (extra == 2 && cp < 0x800) || (extra == 3 && cp < 0x10000)
       || cp > 0x10FFFF || (cp >= 0xD800 && cp <= 0xDFFF) {
      return 0;
    }
    return extra + 1;
  }

  lemma {:induction false} AsciiHead(text: Bytes)
    requires text != [] && text[0] < 0x80
    ensures WellFormedHead(text) && Extra(text[0]) == 0
  {
    assert Gathered(text, 0) == Lead(text[0]);
  }

  lemma {:induction false} NotAscii(c: byte)
    ensures c < 0x80 <==> Extra(c) == 0
  {
  }

  // The reader's loop.
  method ValidUtf8(text: Bytes) returns (ok: bool)
    ensures ok == Valid(text)
  {
    hide WellFormedHead, Extra;
    var i := 0;
    assert text[0..] == text;
    while i < |text|
      invariant i <= |text|
      invariant Valid(text) == Valid(text[i..])
    {
      ghost var rest := text[i..];
      NotAscii(text[i]);
      if text[i] < 0x80 {
        AsciiHead(rest);
        assert rest[1..] == text[i + 1..];
        i := i + 1;
      } else {
        var n := ReadSequence(text[i..]);
        if n == 0 {
          return false;
        }
        HeadFits(rest);
        assert rest[n..] == text[i + n..];
        i := i + n;
      }
    }
    return true;
  }

  lemma {:induction false} HeadFits(text: Bytes)
    requires WellFormedHead(text)
    ensures text != [] && Extra(text[0]) + 1 <= |text|
  {
  }

  // ----- One sequence: the reader inverts the table -----

  function Head(text: Bytes): bv32
    requires WellFormedHead(text)
  {
    Gathered(text, Extra(text[0]))
  }

  // The table and the masks, a length at a time: bits only.
  lemma Bits1(cp: bv32)
    requires Fits(cp, 1)
    ensures Extra(Leading(cp, 1)) == 0 && Lead(Leading(cp, 1)) == cp
  {
  }

  lemma Bits2(cp: bv32)
    requires Fits(cp, 2)
    ensures Extra(Leading(cp, 2)) == 1 && Shifted(Lead(Leading(cp, 2)), Trail(cp, 0)) == cp
  {
  }

  lemma Bits3(cp: bv32)
    requires Fits(cp, 3)
    ensures Extra(Leading(cp, 3)) == 2
    ensures Shifted(Shifted(Lead(Leading(cp, 3)), Trail(cp, 1)), Trail(cp, 0)) == cp
  {
  }

  lemma Bits4(cp: bv32)
    requires Fits(cp, 4)
    ensures Extra(Leading(cp, 4)) == 3
    ensures Shifted(Shifted(Shifted(Lead(Leading(cp, 4)), Trail(cp, 2)), Trail(cp, 1)), Trail(cp, 0)) == cp
  {
  }

  lemma BitsTrail(cp: bv32)
    ensures Continues(Trail(cp, 0)) && Continues(Trail(cp, 1)) && Continues(Trail(cp, 2))
  {
  }

  lemma BitsBack1(c: byte)
    requires Extra(c) == 0
    ensures Fits(Lead(c), 1) && Leading(Lead(c), 1) == c
  {
  }

  lemma BitsBack2(c0: byte, c1: byte, cp: bv32)
    requires Extra(c0) == 1 && Continues(c1)
    requires cp == Shifted(Lead(c0), c1) && InRange(cp, 1)
    ensures Fits(cp, 2) && Leading(cp, 2) == c0 && Trail(cp, 0) == c1
  {
  }

  lemma BitsBack3(c0: byte, c1: byte, c2: byte, cp: bv32)
    requires Extra(c0) == 2 && Continues(c1) && Continues(c2)
    requires cp == Shifted(Shifted(Lead(c0), c1), c2) && InRange(cp, 2)
    ensures Fits(cp, 3) && Leading(cp, 3) == c0 && Trail(cp, 1) == c1 && Trail(cp, 0) == c2
  {
  }

  lemma BitsBack4(c0: byte, c1: byte, c2: byte, c3: byte, cp: bv32)
    requires Extra(c0) == 3 && Continues(c1) && Continues(c2) && Continues(c3)
    requires cp == Shifted(Shifted(Shifted(Lead(c0), c1), c2), c3) && Fits(cp, 4)
    ensures Leading(cp, 4) == c0
  {
  }

  lemma BitsBackTrails(c0: byte, c1: byte, c2: byte, c3: byte, cp: bv32)
    requires Continues(c1) && Continues(c2) && Continues(c3)
    requires cp == Shifted(Shifted(Shifted(Lead(c0), c1), c2), c3)
    ensures Trail(cp, 2) == c1 && Trail(cp, 1) == c2 && Trail(cp, 0) == c3
  {
  }

  lemma BitsRange(cp: bv32, extra: nat)
    ensures InRange(cp, extra) ==> IsScalar(cp)
    ensures InRange(cp, 3) ==> Fits(cp, 4)
    ensures IsScalar(cp) ==> Fits(cp, 1) || Fits(cp, 2) || Fits(cp, 3) || Fits(cp, 4)
    ensures forall n, m :: Fits(cp, n) && Fits(cp, m) ==> n == m
    ensures IsScalar(cp) && Fits(cp, extra + 1) ==> InRange(cp, extra)
  {
  }

  lemma {:induction false} GathersEncoded(cp: bv32, rest: Bytes)
    requires IsScalar(cp)
    ensures var text := Encode1(cp) + rest;
            WellFormedHead(text) && Head(text) == cp && Extra(text[0]) + 1 == |Encode1(cp)|
  {
    hide Trail, Lead, Extra, Leading, Shifted, Continues, Fits, IsScalar, InRange;
    var text := Encode1(cp) + rest;
    var n := |Encode1(cp)|;
    BitsRange(cp, n - 1);
    BitsTrail(cp);
    assert Gathered(text, 0) == Lead(text[0]);
    if n == 1 {
      Bits1(cp);
    } else if n == 2 {
      Bits2(cp);
    } else if n == 3 {
      Bits3(cp);
      assert Gathered(text, 1) == Shifted(Lead(text[0]), text[1]);
    } else {
      Bits4(cp);
      assert Gathered(text, 1) == Shifted(Lead(text[0]), text[1]);
      assert Gathered(text, 2) == Shifted(Gathered(text, 1), text[2]);
    }
  }

  lemma {:induction false} EncodesShort(text: Bytes)
    requires WellFormedHead(text) && Extra(text[0]) <= 1
    ensures IsScalar(Head(text)) && Encode1(Head(text)) == text[..Extra(text[0]) + 1]
  {
    hide Trail, Lead, Extra, Leading, Shifted, Continues, Fits, IsScalar, InRange;
    var extra, cp := Extra(text[0]), Head(text);
    BitsRange(cp, extra);
    assert Gathered(text, 0) == Lead(text[0]);
    if extra == 0 {
      BitsBack1(text[0]);
    } else {
      BitsBack2(text[0], text[1], cp);
    }
  }

  lemma {:induction false} EncodesThree(text: Bytes)
    requires WellFormedHead(text) && Extra(text[0]) == 2
    ensures IsScalar(Head(text)) && Encode1(Head(text)) == text[..3]
  {
    hide Trail, Lead, Extra, Leading, Shifted, Continues, Fits, IsScalar, InRange;
    var cp := Head(text);
    BitsRange(cp, 2);
    assert Gathered(text, 0) == Lead(text[0]);
    assert Gathered(text, 1) == Shifted(Lead(text[0]), text[1]);
    BitsBack3(text[0], text[1], text[2], cp);
  }

  lemma {:induction false} EncodesFour(text: Bytes)
    requires WellFormedHead(text) && Extra(text[0]) == 3
    ensures IsScalar(Head(text)) && Encode1(Head(text)) == text[..4]
  {
    hide Trail, Lead, Extra, Leading, Shifted, Continues, Fits, IsScalar, InRange;
    var cp := Head(text);
    BitsRange(cp, 3);
    assert Gathered(text, 0) == Lead(text[0]);
    assert Gathered(text, 1) == Shifted(Lead(text[0]), text[1]);
    assert Gathered(text, 2) == Shifted(Gathered(text, 1), text[2]);
    assert cp == Shifted(Gathered(text, 2), text[3]);
    BitsBack4(text[0], text[1], text[2], text[3], cp);
    BitsBackTrails(text[0], text[1], text[2], text[3], cp);
    assert Encode1(cp) == [text[0], text[1], text[2], text[3]];
  }

  // A head the code accepts is what the table gives for the code point it gathers.
  lemma {:induction false} EncodesGathered(text: Bytes)
    requires WellFormedHead(text)
    ensures IsScalar(Head(text)) && Encode1(Head(text)) == text[..Extra(text[0]) + 1]
  {
    hide Encode1, IsScalar, Gathered, Extra;
    if Extra(text[0]) <= 1 {
      EncodesShort(text);
    } else if Extra(text[0]) == 2 {
      EncodesThree(text);
    } else {
      EncodesFour(text);
    }
  }

  // ----- Every text -----

  // The scalar values a valid text encodes.
  function Decode(text: Bytes): (cps: seq<bv32>)
    requires Valid(text)
    decreases |text|
  {
    if text == [] then [] else [Head(text)] + Decode(text[Extra(text[0]) + 1..])
  }

  lemma {:induction false} EncodeTurn(cp: bv32, cps: seq<bv32>)
    requires IsScalar(cp) && Scalars(cps)
    ensures Scalars([cp] + cps) && Encode([cp] + cps) == Encode1(cp) + Encode(cps)
  {
    hide Encode1, IsScalar;
    assert ([cp] + cps)[1..] == cps;
  }

  lemma {:induction false} EncodesDecoded(text: Bytes)
    requires Valid(text)
    ensures Scalars(Decode(text)) && Encode(Decode(text)) == text
    decreases |text|
  {
    hide Encode1, IsScalar, Gathered, Extra, WellFormedHead, Encode, Scalars, Head;
    if text == [] {
      NothingEncoded();
    } else {
      HeadFits(text);
      var n := Extra(text[0]) + 1;
      EncodesGathered(text);
      EncodesDecoded(text[n..]);
      EncodeTurn(Head(text), Decode(text[n..]));
      assert text == text[..n] + text[n..];
    }
  }

  lemma {:induction false} NothingEncoded()
    ensures Scalars([]) && Encode([]) == []
  {
  }

  lemma {:induction false} DecodesEncoded(cps: seq<bv32>)
    requires Scalars(cps)
    ensures Valid(Encode(cps)) && Decode(Encode(cps)) == cps
  {
    if cps != [] {
      var first, rest := Encode1(cps[0]), Encode(cps[1..]);
      GathersEncoded(cps[0], rest);
      assert (first + rest)[|first|..] == rest;
      DecodesEncoded(cps[1..]);
    }
  }

  ghost predicate Encodes(cps: seq<bv32>, text: Bytes) {
    Scalars(cps) && Encode(cps) == text
  }

  // The code accepts a text exactly when it is the encoding of some scalar values.
  lemma {:induction false} ValidExactly(text: Bytes)
    ensures Valid(text) <==> exists cps :: Encodes(cps, text)
  {
    if Valid(text) {
      EncodesDecoded(text);
      assert Encodes(Decode(text), text);
    }
    if cps :| Encodes(cps, text) {
      DecodesEncoded(cps);
    }
  }

  // No two sequences of scalar values share an encoding.
  lemma {:induction false} EncodingUnique(a: seq<bv32>, b: seq<bv32>, text: Bytes)
    requires Encodes(a, text) && Encodes(b, text)
    ensures a == b
  {
    DecodesEncoded(a);
    DecodesEncoded(b);
  }

  // ----- Names -----

  const SLASH: byte := 47

  datatype Why = Accepted | NotText | HasSlash

  function Refusal(service: Bytes, account: Bytes): Why {
    if service == [] || !Valid(service) || !Valid(account) then NotText
    else if SLASH in service then HasSlash
    else Accepted
  }

  // Accepted are exactly a service and an account that encode scalar values, the service not empty and
  // without a slash.
  lemma {:induction false} AcceptedExactly(service: Bytes, account: Bytes)
    ensures Refusal(service, account).Accepted? <==>
            && service != [] && (forall i :: 0 <= i < |service| ==> service[i] as int != '/' as int)
            && (exists cps :: Encodes(cps, service)) && exists cps :: Encodes(cps, account)
  {
    ValidExactly(service);
    ValidExactly(account);
    hide Valid, Encodes;
    forall i | 0 <= i < |service|
      ensures service[i] == SLASH <==> service[i] as int == '/' as int
    {
      SlashIs(service[i]);
    }
  }

  lemma SlashIs(c: byte)
    ensures c == SLASH <==> c as int == '/' as int
  {
  }

  method NamesOk(service: Bytes, account: Bytes) returns (ok: bool, why: Why)
    ensures why == Refusal(service, account) && ok == why.Accepted?
  {
    var serviceText := ValidUtf8(service);
    var accountText := ValidUtf8(account);
    if service == [] || !serviceText || !accountText {
      return false, NotText;
    }
    NoByte(service, SLASH);
    if Find(service, [SLASH], 0) != NPOS {
      return false, HasSlash;
    }
    return true, Accepted;
  }

  function Target(service: Bytes, account: Bytes): Bytes {
    service + [SLASH] + account
  }

  // Accepted names joined by '/' determine the service and the account.
  lemma {:induction false} TargetDetermines(s1: Bytes, a1: Bytes, s2: Bytes, a2: Bytes)
    requires Refusal(s1, a1).Accepted? && Refusal(s2, a2).Accepted?
    requires Target(s1, a1) == Target(s2, a2)
    ensures s1 == s2 && a1 == a2
  {
    var t := Target(s1, a1);
    FirstByte(t, s1, SLASH, a1);
    FirstByte(t, s2, SLASH, a2);
    assert s1 == t[..|s1|] && s2 == t[..|s2|];
    assert a1 == t[|s1| + 1..] && a2 == t[|s2| + 1..];
  }
}
