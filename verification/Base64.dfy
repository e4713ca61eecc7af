/**
  base64url without padding (`Base64Url`, `Base64UrlDecode` in `oidc/src/oidc_core.cpp`), against
  section 5 of RFC 4648 read as a statement about bits: the letters, six bits each, spell the bytes.
 */
module Base64 {
  import opened Bytes

  // ----- Bits -----

  // The bit of weight 2^k.
  function Bit(b: byte, k: nat): bool
    requires k < 8
  {
    var mask: byte := match k case 0 => 1 case 1 => 2 case 2 => 4 case 3 => 8
                              case 4 => 16 case 5 => 32 case 6 => 64 case 7 => 128;
    b & mask != 0
  }

  function Bits8(b: byte): (bits: seq<bool>)
    ensures |bits| == 8
  {
    [Bit(b, 7), Bit(b, 6), Bit(b, 5), Bit(b, 4), Bit(b, 3), Bit(b, 2), Bit(b, 1), Bit(b, 0)]
  }

  function Bits6(v: byte): (bits: seq<bool>)
    ensures |bits| == 6
  {
    [Bit(v, 5), Bit(v, 4), Bit(v, 3), Bit(v, 2), Bit(v, 1), Bit(v, 0)]
  }

  function BitsOf(bytes: Bytes): seq<bool> {
    if bytes == [] then [] else Bits8(bytes[0]) + BitsOf(bytes[1..])
  }

  // ----- The alphabet -----

  function Letter(v: byte): byte {
    if v < 26 then 65 + v
    else if v < 52 then 71 + v
    else if v < 62 then v - 4
    else if v == 62 then 45
    else 95
  }

  const NONE: byte := 64

  function Value(c: byte): byte {
    if 65 <= c <= 90 then c - 65
    else if 97 <= c <= 122 then c - 71
    else if 48 <= c <= 57 then c + 4
    else if c == 45 then 62
    else if c == 95 then 63
    else NONE
  }

  // The values of the letters a text starts with.
  function Values(text: Bytes): Bytes {
    if text == [] || Value(text[0]) == NONE then [] else [Value(text[0])] + Values(text[1..])
  }

  function Sextets(values: Bytes): seq<bool> {
    if values == [] then [] else Bits6(values[0]) + Sextets(values[1..])
  }

  predicate Spelled(text: Bytes) {
    forall i :: 0 <= i < |text| ==> Value(text[i]) != NONE
  }

  // The letters are those of section 5 of RFC 4648, in its order, and the decoder knows no others.
  lemma Letters0()
    ensures Spells([Letter(0), Letter(1), Letter(2), Letter(3), Letter(4), Letter(5), Letter(6),
                    Letter(7), Letter(8), Letter(9), Letter(10), Letter(11), Letter(12)], "ABCDEFGHIJKLM")
  {
  }

  lemma Letters13()
    ensures Spells([Letter(13), Letter(14), Letter(15), Letter(16), Letter(17), Letter(18), Letter(19),
                    Letter(20), Letter(21), Letter(22), Letter(23), Letter(24), Letter(25)], "NOPQRSTUVWXYZ")
  {
  }

  lemma Letters26()
    ensures Spells([Letter(26), Letter(27), Letter(28), Letter(29), Letter(30), Letter(31), Letter(32),
                    Letter(33), Letter(34), Letter(35), Letter(36), Letter(37), Letter(38)], "abcdefghijklm")
  {
  }

  lemma Letters39()
    ensures Spells([Letter(39), Letter(40), Letter(41), Letter(42), Letter(43), Letter(44), Letter(45),
                    Letter(46), Letter(47), Letter(48), Letter(49), Letter(50), Letter(51)], "nopqrstuvwxyz")
  {
  }

  lemma Letters52()
    ensures Spells([Letter(52), Letter(53), Letter(54), Letter(55), Letter(56), Letter(57), Letter(58),
                    Letter(59), Letter(60), Letter(61), Letter(62), Letter(63)], "0123456789-_")
  {
  }

  lemma LetterOfValue(c: byte)
    requires Value(c) != NONE
    ensures Value(c) < 64 && Letter(Value(c)) == c
  {
  }

  // ----- The encoder -----

  function Three(b0: byte, b1: byte, b2: byte): bv32 {
    ((b0 as bv32) << 16) | ((b1 as bv32) << 8) | (b2 as bv32)
  }

  // The k-th six bits of twenty-four.
  function Six(v: bv32, k: nat): byte {
    if k == 0 then ((v >> 18) & 63) as bv8
    else if k == 1 then ((v >> 12) & 63) as bv8
    else if k == 2 then ((v >> 6) & 63) as bv8
    else (v & 63) as bv8
  }

  // The k-th letter of a group of four.
  function Quarter(v: bv32, k: nat): byte {
    Letter(Six(v, k))
  }

  function Group(bytes: Bytes): Bytes
    requires 1 <= |bytes| <= 3
  {
    if |bytes| == 1 then
      var v := Three(bytes[0], 0, 0);
      [Quarter(v, 0), Quarter(v, 1)]
    else if |bytes| == 2 then
      var v := Three(bytes[0], bytes[1], 0);
      [Quarter(v, 0), Quarter(v, 1), Quarter(v, 2)]
    else
      var v := Three(bytes[0], bytes[1], bytes[2]);
      [Quarter(v, 0), Quarter(v, 1), Quarter(v, 2), Quarter(v, 3)]
  }

  function Encoded(bytes: Bytes): Bytes {
    if bytes == [] then []
    else if |bytes| <= 3 then Group(bytes)
    else Group(bytes[..3]) + Encoded(bytes[3..])
  }

  lemma {:induction false} EncodedTurn(bytes: Bytes)
    requires |bytes| >= 3
    ensures Encoded(bytes) == Group(bytes[..3]) + Encoded(bytes[3..])
  {
    if |bytes| == 3 {
      assert bytes[..3] == bytes;
    }
  }

  method Encode(bytes: Bytes) returns (out: Bytes)
    ensures out == Encoded(bytes)
  {
    hide Three, Quarter;
    out := [];
    var i := 0;
    assert bytes[0..] == bytes;
    while i + 2 < |bytes|
      invariant i <= |bytes|
      invariant out + Encoded(bytes[i..]) == Encoded(bytes)
    {
      var v := Three(bytes[i], bytes[i + 1], bytes[i + 2]);
      var group := [Quarter(v, 0), Quarter(v, 1), Quarter(v, 2), Quarter(v, 3)];
      ghost var rest := bytes[i..];
      EncodedTurn(rest);
      assert rest[..3] == [bytes[i], bytes[i + 1], bytes[i + 2]] && rest[3..] == bytes[i + 3..];
      Associate(out, group, Encoded(bytes[i + 3..]));
      out := out + group;
      i := i + 3;
    }
    if i + 1 == |bytes| {
      var v := Three(bytes[i], 0, 0);
      assert bytes[i..] == [bytes[i]];
      out := out + [Quarter(v, 0), Quarter(v, 1)];
    } else if i + 2 == |bytes| {
      var v := Three(bytes[i], bytes[i + 1], 0);
      assert bytes[i..] == [bytes[i], bytes[i + 1]];
      out := out + [Quarter(v, 0), Quarter(v, 1), Quarter(v, 2)];
    }
  }

  lemma LetterValue(v: byte)
    requires v < 64
    ensures Value(Letter(v)) == v
  {
  }

  lemma ValueBelow(c: byte)
    ensures Value(c) != NONE ==> Value(c) < 64
  {
  }

  lemma SixBelow(v: bv32, k: nat)
    ensures Six(v, k) < 64
  {
  }

  // Twenty-four bits, cut into bytes and into sextets.
  lemma Straddle0(b0: byte, b1: byte, b2: byte)
    ensures var q := Six(Three(b0, b1, b2), 0);
            && Bit(q, 5) == Bit(b0, 7) && Bit(q, 4) == Bit(b0, 6) && Bit(q, 3) == Bit(b0, 5)
            && Bit(q, 2) == Bit(b0, 4) && Bit(q, 1) == Bit(b0, 3) && Bit(q, 0) == Bit(b0, 2)
  {
  }

  lemma Straddle1(b0: byte, b1: byte, b2: byte)
    ensures var q := Six(Three(b0, b1, b2), 1);
            && Bit(q, 5) == Bit(b0, 1) && Bit(q, 4) == Bit(b0, 0) && Bit(q, 3) == Bit(b1, 7)
            && Bit(q, 2) == Bit(b1, 6) && Bit(q, 1) == Bit(b1, 5) && Bit(q, 0) == Bit(b1, 4)
  {
  }

  lemma Straddle2(b0: byte, b1: byte, b2: byte)
    ensures var q := Six(Three(b0, b1, b2), 2);
            && Bit(q, 5) == Bit(b1, 3) && Bit(q, 4) == Bit(b1, 2) && Bit(q, 3) == Bit(b1, 1)
            && Bit(q, 2) == Bit(b1, 0) && Bit(q, 1) == Bit(b2, 7) && Bit(q, 0) == Bit(b2, 6)
  {
  }

  lemma Straddle3(b0: byte, b1: byte, b2: byte)
    ensures var q := Six(Three(b0, b1, b2), 3);
            && Bit(q, 5) == Bit(b2, 5) && Bit(q, 4) == Bit(b2, 4) && Bit(q, 3) == Bit(b2, 3)
            && Bit(q, 2) == Bit(b2, 2) && Bit(q, 1) == Bit(b2, 1) && Bit(q, 0) == Bit(b2, 0)
  {
  }

  lemma SixSlice0(b0: byte, b1: byte, b2: byte)
    ensures Bits6(Six(Three(b0, b1, b2), 0)) == Bits8(b0)[..6]
  {
    Straddle0(b0, b1, b2);
    hide Three, Six, Bit;
  }

  lemma SixSlice1(b0: byte, b1: byte, b2: byte)
    ensures Bits6(Six(Three(b0, b1, b2), 1)) == Bits8(b0)[6..] + Bits8(b1)[..4]
  {
    Straddle1(b0, b1, b2);
    hide Three, Six, Bit;
  }

  lemma SixSlice2(b0: byte, b1: byte, b2: byte)
    ensures Bits6(Six(Three(b0, b1, b2), 2)) == Bits8(b1)[4..] + Bits8(b2)[..2]
  {
    Straddle2(b0, b1, b2);
    hide Three, Six, Bit;
  }

  lemma SixSlice3(b0: byte, b1: byte, b2: byte)
    ensures Bits6(Six(Three(b0, b1, b2), 3)) == Bits8(b2)[2..]
  {
    Straddle3(b0, b1, b2);
    hide Three, Six, Bit;
  }

  lemma QuarterValue(v: bv32, k: nat)
    ensures Value(Quarter(v, k)) == Six(v, k) && Six(v, k) != NONE
  {
    SixBelow(v, k);
    LetterValue(Six(v, k));
  }

  lemma Regroup(x: seq<bool>, y: seq<bool>, z: seq<bool>)
    requires |x| == |y| == |z| == 8
    ensures x[..6] + (x[6..] + y[..4]) + (y[4..] + z[..2]) + z[2..] == x + y + z
  {
  }

  // A group of four letters spells its three bytes.
  lemma GroupBits(b0: byte, b1: byte, b2: byte)
    ensures var v := Three(b0, b1, b2);
            Bits6(Six(v, 0)) + Bits6(Six(v, 1)) + Bits6(Six(v, 2)) + Bits6(Six(v, 3))
            == Bits8(b0) + Bits8(b1) + Bits8(b2)
  {
    SixSlice0(b0, b1, b2);
    SixSlice1(b0, b1, b2);
    SixSlice2(b0, b1, b2);
    SixSlice3(b0, b1, b2);
    LengthBits8(b0, b1, b2);
    hide Three, Six, Bits6, Bits8;
    Regroup(Bits8(b0), Bits8(b1), Bits8(b2));
  }

  lemma LengthBits8(b0: byte, b1: byte, b2: byte)
    ensures |Bits8(b0)| == |Bits8(b1)| == |Bits8(b2)| == 8
  {
  }

  // ----- The encoder spells its input -----

  function Zeros(n: nat): seq<bool> {
    seq(n, _ => false)
  }

  // The zeros that fill the last letter.
  function Fill(n: nat): nat {
    if n % 3 == 0 then 0 else if n % 3 == 1 then 4 else 2
  }

  lemma {:induction false} ValuesAppended(a: Bytes, b: Bytes)
    requires Spelled(a)
    ensures Values(a + b) == Values(a) + Values(b) && |Values(a)| == |a|
  {
    if a == [] {
      assert a + b == b;
    } else {
      assert (a + b)[1..] == a[1..] + b;
      ValuesAppended(a[1..], b);
    }
  }

  lemma {:induction false} SextetsAppended(a: Bytes, b: Bytes)
    ensures Sextets(a + b) == Sextets(a) + Sextets(b)
  {
    if a == [] {
      assert a + b == b;
    } else {
      assert (a + b)[1..] == a[1..] + b;
      SextetsAppended(a[1..], b);
    }
  }

  lemma {:induction false} BitsAppended(a: Bytes, b: Bytes)
    ensures BitsOf(a + b) == BitsOf(a) + BitsOf(b) && |BitsOf(a)| == 8 * |a|
  {
    if a == [] {
      assert a + b == b;
    } else {
      assert (a + b)[1..] == a[1..] + b;
      BitsAppended(a[1..], b);
    }
  }

  // The bits of a text that is all letters.
  function Meant(text: Bytes): seq<bool> {
    Sextets(Values(text))
  }

  lemma {:induction false} MeantLetter(c: byte)
    requires Value(c) != NONE
    ensures Meant([c]) == Bits6(Value(c))
  {
    var value := [Value(c)];
    assert [c][1..] == [] && value[1..] == [];
    assert Values([c]) == value + Values([]);
    assert Sextets(value) == Bits6(Value(c)) + Sextets([]);
  }

  lemma {:induction false} MeantNothing()
    ensures Meant([]) == []
  {
  }

  lemma {:induction false} MeantAppended(a: Bytes, b: Bytes)
    requires Spelled(a)
    ensures Meant(a + b) == Meant(a) + Meant(b)
  {
    ValuesAppended(a, b);
    SextetsAppended(Values(a), Values(b));
  }

  lemma {:induction false} MeantQuarters(v: bv32)
    ensures var q := [Quarter(v, 0), Quarter(v, 1), Quarter(v, 2), Quarter(v, 3)];
            && Spelled(q)
            && Meant(q[..2]) == Bits6(Six(v, 0)) + Bits6(Six(v, 1))
            && Meant(q[..3]) == Bits6(Six(v, 0)) + Bits6(Six(v, 1)) + Bits6(Six(v, 2))
            && Meant(q) == Bits6(Six(v, 0)) + Bits6(Six(v, 1)) + Bits6(Six(v, 2)) + Bits6(Six(v, 3))
  {
    var q := [Quarter(v, 0), Quarter(v, 1), Quarter(v, 2), Quarter(v, 3)];
    QuarterMeans(v, 0);
    QuarterMeans(v, 1);
    QuarterMeans(v, 2);
    QuarterMeans(v, 3);
    hide Quarter, Six, Bits6, Meant, Value;
    assert q[..2] == [q[0]] + [q[1]] && q[..3] == q[..2] + [q[2]] && q == q[..3] + [q[3]];
    MeantAppended([q[0]], [q[1]]);
    MeantAppended(q[..2], [q[2]]);
    MeantAppended(q[..3], [q[3]]);
  }

  lemma {:induction false} QuarterMeans(v: bv32, k: nat)
    ensures Value(Quarter(v, k)) != NONE && Meant([Quarter(v, k)]) == Bits6(Six(v, k))
  {
    QuarterValue(v, k);
    hide Quarter, Six, Bits6, Meant;
    MeantLetter(Quarter(v, k));
  }

  lemma ZeroByte()
    ensures Bits8(0) == Zeros(8)
  {
  }

  lemma CutOne(x: seq<bool>, zeros: seq<bool>)
    requires |x| == |zeros| == 8
    ensures x[..6] + (x[6..] + zeros[..4]) == x + zeros[..4]
  {
  }

  lemma CutTwo(x: seq<bool>, y: seq<bool>, zeros: seq<bool>)
    requires |x| == |y| == |zeros| == 8
    ensures x[..6] + (x[6..] + y[..4]) + (y[4..] + zeros[..2]) == (x + y) + zeros[..2]
  {
  }

  lemma {:induction false} OneSpelled(b0: byte)
    ensures var v := Three(b0, 0, 0); Bits6(Six(v, 0)) + Bits6(Six(v, 1)) == Bits8(b0) + Zeros(4)
  {
    SixSlice0(b0, 0, 0);
    SixSlice1(b0, 0, 0);
    LengthBits8(b0, 0, 0);
    ZeroByte();
    CutOne(Bits8(b0), Bits8(0));
    hide Three, Six, Bits6, Bits8;
    assert Zeros(8)[..4] == Zeros(4);
  }

  lemma {:induction false} TwoSpelled(b0: byte, b1: byte)
    ensures var v := Three(b0, b1, 0);
            Bits6(Six(v, 0)) + Bits6(Six(v, 1)) + Bits6(Six(v, 2)) == (Bits8(b0) + Bits8(b1)) + Zeros(2)
  {
    SixSlice0(b0, b1, 0);
    SixSlice1(b0, b1, 0);
    SixSlice2(b0, b1, 0);
    LengthBits8(b0, b1, 0);
    ZeroByte();
    CutTwo(Bits8(b0), Bits8(b1), Bits8(0));
    hide Three, Six, Bits6, Bits8;
    assert Zeros(8)[..2] == Zeros(2);
  }

  // A group spells its bytes, and zeros to fill the last letter.
  lemma {:induction false} GroupSpells(bytes: Bytes)
    requires 1 <= |bytes| <= 3
    ensures Spelled(Group(bytes)) && Meant(Group(bytes)) == BitsOf(bytes) + Zeros(Fill(|bytes|))
    ensures |Group(bytes)| == |bytes| + 1
  {
    var b0, b1, b2 := bytes[0], if |bytes| > 1 then bytes[1] else 0, if |bytes| > 2 then bytes[2] else 0;
    var v := Three(b0, b1, b2);
    var q := [Quarter(v, 0), Quarter(v, 1), Quarter(v, 2), Quarter(v, 3)];
    MeantQuarters(v);
    BitsOfFew(bytes);
    hide Three, Six, Bits6, Bits8, Quarter, BitsOf, Meant, Value;
    if |bytes| == 1 {
      OneSpelled(b0);
      assert Group(bytes) == q[..2];
    } else if |bytes| == 2 {
      TwoSpelled(b0, b1);
      assert Group(bytes) == q[..3];
    } else {
      GroupBits(b0, b1, b2);
      assert Zeros(0) == [];
    }
  }

  lemma {:induction false} BitsOfFew(bytes: Bytes)
    ensures |bytes| == 1 ==> BitsOf(bytes) == Bits8(bytes[0])
    ensures |bytes| == 2 ==> BitsOf(bytes) == Bits8(bytes[0]) + Bits8(bytes[1])
    ensures |bytes| == 3 ==> BitsOf(bytes) == Bits8(bytes[0]) + Bits8(bytes[1]) + Bits8(bytes[2])
  {
    hide Bits8;
    if |bytes| == 1 {
      assert BitsOf(bytes) == Bits8(bytes[0]) + BitsOf([]);
    } else if |bytes| == 2 {
      BitsOfFew(bytes[1..]);
    } else if |bytes| == 3 {
      BitsOfFew(bytes[1..]);
    }
  }

  lemma {:induction false} EncodedLength(bytes: Bytes)
    ensures |Encoded(bytes)| == (4 * |bytes| + 2) / 3
  {
    hide Quarter, Three;
    if |bytes| > 3 {
      EncodedLength(bytes[3..]);
    }
  }

  // The encoding is all letters, and they spell the bytes.
  lemma {:induction false} EncodedSpells(bytes: Bytes)
    ensures Spelled(Encoded(bytes))
    ensures Meant(Encoded(bytes)) == BitsOf(bytes) + Zeros(Fill(|bytes|))
  {
    hide Meant, Group;
    if bytes == [] {
      MeantNothing();
    } else if |bytes| <= 3 {
      GroupSpells(bytes);
    } else {
      var first, rest := bytes[..3], bytes[3..];
      GroupSpells(first);
      EncodedSpells(rest);
      assert bytes == first + rest;
      BitsAppended(first, rest);
      SpelledAppended(Group(first), Encoded(rest));
      MeantAppended(Group(first), Encoded(rest));
      hide BitsOf, Spelled, Value;
      assert Meant(Group(first)) == BitsOf(first) by {
        assert Zeros(Fill(3)) == [];
      }
    }
  }

  lemma SpelledAppended(a: Bytes, b: Bytes)
    requires Spelled(a) && Spelled(b)
    ensures Spelled(a + b)
  {
  }

  // ----- The decoder reads what is spelled -----

  // The bytes are the first whole octets of what the leading letters spell; under eight bits are left.
  ghost predicate Decodes(text: Bytes, out: Bytes) {
    BitsOf(out) <= Meant(text) && |Meant(text)| < |BitsOf(out)| + 8
  }

  // The accumulator: six more bits in, twenty-four kept.
  function Pushed(buffer: bv32, v: byte): bv32 {
    ((buffer << 6) | (v as bv32)) & 0xffffff
  }

  // The octet above the lowest `bits` bits; `bits` is 0, 2 or 4.
  function Popped(buffer: bv32, bits: nat): byte {
    if bits == 0 then (buffer & 0xff) as bv8
    else if bits == 2 then ((buffer >> 2) & 0xff) as bv8
    else ((buffer >> 4) & 0xff) as bv8
  }

  function LowByte(buffer: bv32): byte {
    (buffer & 0xff) as bv8
  }

  // The pending bits.
  function Low(buffer: bv32, bits: nat): seq<bool>
    requires bits <= 6
  {
    Bits8(LowByte(buffer))[8 - bits..]
  }

  method Decode(text: Bytes) returns (out: Bytes)
    ensures Decodes(text, out)
  {
    hide Meant, BitsOf, Low, Value, Bits6, Bits8, Pushed, Popped;
    out := [];
    var buffer: bv32 := 0;
    var bits := 0;
    Empty(text, buffer);
    for i := 0 to |text|
      invariant bits in {0, 2, 4, 6}
      invariant Meant(text) == BitsOf(out) + (Low(buffer, bits) + Meant(text[i..]))
    {
      var value := Value(text[i]);
      if value == NONE {
        Stop(text, out, buffer, bits, i);
        return;
      }
      MeantTurn(text, i);
      ValueBelow(text[i]);
      ghost var was := buffer;
      buffer := Pushed(buffer, value);
      bits := bits + 6;
      if bits >= 8 {
        bits := bits - 8;
        var octet := Popped(buffer, bits);
        Octet(was, value, bits + 2);
        Grow(out, octet, Low(was, bits + 2), Bits6(value), Low(buffer, bits), Meant(text[i + 1..]));
        out := out + [octet];
      } else {
        First(was, value);
        assert Low(was, 0) + (Bits6(value) + Meant(text[i + 1..])) == Low(buffer, 6) + Meant(text[i + 1..]);
      }
    }
    Stop(text, out, buffer, bits, |text|);
  }

  lemma {:induction false} Empty(text: Bytes, buffer: bv32)
    ensures Meant(text) == BitsOf([]) + (Low(buffer, 0) + Meant(text[0..]))
  {
    assert text[0..] == text;
  }

  lemma {:induction false} MeantTurn(text: Bytes, i: nat)
    requires i < |text| && Value(text[i]) != NONE
    ensures Meant(text[i..]) == Bits6(Value(text[i])) + Meant(text[i + 1..])
  {
    assert text[i..] == [text[i]] + text[i + 1..];
    MeantAppended([text[i]], text[i + 1..]);
    MeantLetter(text[i]);
  }

  lemma {:induction false} LowLength(buffer: bv32, bits: nat)
    requires bits <= 6
    ensures |Low(buffer, bits)| == bits
  {
  }

  lemma {:induction false} Stop(text: Bytes, out: Bytes, buffer: bv32, bits: nat, i: nat)
    requires bits <= 6 && i <= |text|
    requires Meant(text) == BitsOf(out) + (Low(buffer, bits) + Meant(text[i..]))
    requires i == |text| || Value(text[i]) == NONE
    ensures Decodes(text, out)
  {
    assert Values(text[i..]) == [];
    LowLength(buffer, bits);
  }

  // From no pending bits: the six are pending.
  lemma First(buffer: bv32, v: byte)
    requires v < 64
    ensures Low(Pushed(buffer, v), 6) == Bits6(v) && Low(buffer, 0) == []
  {
    FirstBits(buffer, v);
    hide Pushed, Bit, LowByte;
  }

  lemma FirstBits(buffer: bv32, v: byte)
    requires v < 64
    ensures var b := LowByte(Pushed(buffer, v));
            && Bit(b, 5) == Bit(v, 5) && Bit(b, 4) == Bit(v, 4) && Bit(b, 3) == Bit(v, 3)
            && Bit(b, 2) == Bit(v, 2) && Bit(b, 1) == Bit(v, 1) && Bit(b, 0) == Bit(v, 0)
  {
  }

  lemma CutSix(low: seq<bool>, six: seq<bool>, octet: seq<bool>, left: seq<bool>, n: nat)
    requires |six| == 6 && |octet| == 8 && 2 <= n <= 6
    requires octet[..n] == low && octet[n..] == six[..8 - n] && left == six[8 - n..]
    ensures low + six == octet + left
  {
  }

  // From two, four or six pending bits: an octet, and two fewer are pending. The mask loses none of them.
  lemma Octet(buffer: bv32, v: byte, n: nat)
    requires v < 64 && n in {2, 4, 6}
    ensures Low(buffer, n) + Bits6(v) ==
            Bits8(Popped(Pushed(buffer, v), n - 2)) + Low(Pushed(buffer, v), n - 2)
  {
    if n == 2 {
      Upper2(buffer, v);
      Lower2(buffer, v);
    } else if n == 4 {
      Upper4(buffer, v);
      Lower4(buffer, v);
    } else {
      Upper6(buffer, v);
      Lower6(buffer, v);
    }
    hide Pushed, Popped, Low, Bits6, Bits8;
    CutSix(Low(buffer, n), Bits6(v), Bits8(Popped(Pushed(buffer, v), n - 2)), Low(Pushed(buffer, v), n - 2), n);
  }

  lemma Upper2Bits(buffer: bv32, v: byte)
    requires v < 64
    ensures var b, p := LowByte(buffer), Popped(Pushed(buffer, v), 0);
            Bit(p, 7) == Bit(b, 1) && Bit(p, 6) == Bit(b, 0)
  {
  }

  lemma Lower2Bits(buffer: bv32, v: byte)
    requires v < 64
    ensures var p := Popped(Pushed(buffer, v), 0);
            && Bit(p, 5) == Bit(v, 5) && Bit(p, 4) == Bit(v, 4) && Bit(p, 3) == Bit(v, 3)
            && Bit(p, 2) == Bit(v, 2) && Bit(p, 1) == Bit(v, 1) && Bit(p, 0) == Bit(v, 0)
  {
  }

  lemma Upper2(buffer: bv32, v: byte)
    requires v < 64
    ensures Bits8(Popped(Pushed(buffer, v), 0))[..2] == Low(buffer, 2)
  {
    Upper2Bits(buffer, v);
    hide Pushed, Popped, Bit, LowByte;
  }

  lemma Lower2(buffer: bv32, v: byte)
    requires v < 64
    ensures Bits8(Popped(Pushed(buffer, v), 0))[2..] == Bits6(v)[..6]
    ensures Low(Pushed(buffer, v), 0) == Bits6(v)[6..]
  {
    Lower2Bits(buffer, v);
    hide Pushed, Popped, Bit, LowByte;
  }

  lemma Upper4Bits(buffer: bv32, v: byte)
    requires v < 64
    ensures var b, p := LowByte(buffer), Popped(Pushed(buffer, v), 2);
            Bit(p, 7) == Bit(b, 3) && Bit(p, 6) == Bit(b, 2) && Bit(p, 5) == Bit(b, 1) && Bit(p, 4) == Bit(b, 0)
  {
  }

  lemma Lower4Bits(buffer: bv32, v: byte)
    requires v < 64
    ensures var p := Popped(Pushed(buffer, v), 2);
            Bit(p, 3) == Bit(v, 5) && Bit(p, 2) == Bit(v, 4) && Bit(p, 1) == Bit(v, 3) && Bit(p, 0) == Bit(v, 2)
  {
  }

  lemma Left4Bits(buffer: bv32, v: byte)
    requires v < 64
    ensures var c := LowByte(Pushed(buffer, v));
            Bit(c, 1) == Bit(v, 1) && Bit(c, 0) == Bit(v, 0)
  {
  }

  lemma Upper4(buffer: bv32, v: byte)
    requires v < 64
    ensures Bits8(Popped(Pushed(buffer, v), 2))[..4] == Low(buffer, 4)
  {
    Upper4Bits(buffer, v);
    hide Pushed, Popped, Bit, LowByte;
  }

  lemma Lower4(buffer: bv32, v: byte)
    requires v < 64
    ensures Bits8(Popped(Pushed(buffer, v), 2))[4..] == Bits6(v)[..4]
    ensures Low(Pushed(buffer, v), 2) == Bits6(v)[4..]
  {
    Lower4Bits(buffer, v);
    Left4Bits(buffer, v);
    hide Pushed, Popped, Bit, LowByte;
  }

  lemma Upper6Bits(buffer: bv32, v: byte)
    requires v < 64
    ensures var b, p := LowByte(buffer), Popped(Pushed(buffer, v), 4);
            && Bit(p, 7) == Bit(b, 5) && Bit(p, 6) == Bit(b, 4) && Bit(p, 5) == Bit(b, 3)
            && Bit(p, 4) == Bit(b, 2) && Bit(p, 3) == Bit(b, 1) && Bit(p, 2) == Bit(b, 0)
  {
  }

  lemma Lower6Bits(buffer: bv32, v: byte)
    requires v < 64
    ensures var p := Popped(Pushed(buffer, v), 4);
            Bit(p, 1) == Bit(v, 5) && Bit(p, 0) == Bit(v, 4)
  {
  }

  lemma Left6Bits(buffer: bv32, v: byte)
    requires v < 64
    ensures var c := LowByte(Pushed(buffer, v));
            Bit(c, 3) == Bit(v, 3) && Bit(c, 2) == Bit(v, 2) && Bit(c, 1) == Bit(v, 1) && Bit(c, 0) == Bit(v, 0)
  {
  }

  lemma Upper6(buffer: bv32, v: byte)
    requires v < 64
    ensures Bits8(Popped(Pushed(buffer, v), 4))[..6] == Low(buffer, 6)
  {
    Upper6Bits(buffer, v);
    hide Pushed, Popped, Bit, LowByte;
  }

  lemma Lower6(buffer: bv32, v: byte)
    requires v < 64
    ensures Bits8(Popped(Pushed(buffer, v), 4))[6..] == Bits6(v)[..2]
    ensures Low(Pushed(buffer, v), 4) == Bits6(v)[2..]
  {
    Lower6Bits(buffer, v);
    Left6Bits(buffer, v);
    hide Pushed, Popped, Bit, LowByte;
  }

  // The octet joins the bytes, what is left of the six bits stays pending.
  lemma {:induction false} Grow(out: Bytes, octet: byte, pending: seq<bool>, six: seq<bool>,
                                left: seq<bool>, later: seq<bool>)
    requires pending + six == Bits8(octet) + left
    ensures BitsOf(out) + (pending + (six + later)) == BitsOf(out + [octet]) + (left + later)
  {
    BitsAppended(out, [octet]);
    BitsOfFew([octet]);
    hide BitsOf, Bits8;
    assert pending + (six + later) == (pending + six) + later;
    assert (Bits8(octet) + left) + later == Bits8(octet) + (left + later);
  }

  // ----- Round trip -----

  lemma Bits8Injective(a: byte, b: byte)
    requires Bits8(a) == Bits8(b)
    ensures a == b
  {
    assert forall i :: 0 <= i < 8 ==> Bits8(a)[i] == Bits8(b)[i];
    SameBits(a, b);
  }

  lemma SameBits(a: byte, b: byte)
    requires Bits8(a)[0] == Bits8(b)[0] && Bits8(a)[1] == Bits8(b)[1] && Bits8(a)[2] == Bits8(b)[2]
             && Bits8(a)[3] == Bits8(b)[3] && Bits8(a)[4] == Bits8(b)[4] && Bits8(a)[5] == Bits8(b)[5]
             && Bits8(a)[6] == Bits8(b)[6] && Bits8(a)[7] == Bits8(b)[7]
    ensures a == b
  {
  }

  lemma {:induction false} BitsInjective(a: Bytes, b: Bytes)
    requires BitsOf(a) == BitsOf(b)
    ensures a == b
  {
    BitsAppended(a, []);
    BitsAppended(b, []);
    if a != [] {
      hide Bits8;
      LengthBits8(a[0], b[0], 0);
      assert Bits8(a[0]) == BitsOf(a)[..8] == Bits8(b[0]);
      assert BitsOf(a[1..]) == BitsOf(a)[8..] == BitsOf(b[1..]);
      Bits8Injective(a[0], b[0]);
      BitsInjective(a[1..], b[1..]);
      assert a == [a[0]] + a[1..] && b == [b[0]] + b[1..];
    }
  }

  // A text has one decoding.
  lemma {:induction false} DecodingUnique(text: Bytes, a: Bytes, b: Bytes)
    requires Decodes(text, a) && Decodes(text, b)
    ensures a == b
  {
    BitsAppended(a, []);
    BitsAppended(b, []);
    assert |a| == |b|;
    assert BitsOf(a) == Meant(text)[..8 * |a|] == BitsOf(b);
    BitsInjective(a, b);
  }

  // Decoding inverts encoding, on every byte string.
  lemma {:induction false} DecodesEncoded(bytes: Bytes, out: Bytes)
    requires Decodes(Encoded(bytes), out)
    ensures out == bytes
  {
    EncodedSpells(bytes);
    assert Decodes(Encoded(bytes), bytes);
    DecodingUnique(Encoded(bytes), bytes, out);
  }
}
