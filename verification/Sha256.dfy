/**
  SHA-256 as `Sha256` in `oidc/src/oidc_core.cpp` computes it, in place over an array of words and
  eight rotating variables, against the recurrences of FIPS 180-4.
 */
module Sha256 {
  import opened Bytes

  // ----- Numbers as bytes -----

  function Joined(high: bv4, low: bv4): byte {
    ((high as bv8) << 4) | (low as bv8)
  }

  function High(b: byte): bv4 {
    (b >> 4) as bv4
  }

  function Low(b: byte): bv4 {
    (b & 15) as bv4
  }

  function Nibble(n: nat): bv4 {
    (n % 16) as bv4
  }

  function NibbleValue(half: bv4): nat {
    half as int
  }

  function LowByte(n: nat): byte {
    Joined(Nibble(n / 16), Nibble(n))
  }

  function ByteValue(b: byte): nat {
    NibbleValue(High(b)) * 16 + NibbleValue(Low(b))
  }

  lemma Halves(high: bv4, low: bv4)
    ensures High(Joined(high, low)) == high && Low(Joined(high, low)) == low
  {
  }

  lemma HalfValue(n: nat)
    requires n < 16
    ensures NibbleValue(n as bv4) == n
  {
  }

  lemma LowByteValue(n: nat)
    ensures ByteValue(LowByte(n)) == n % 256
  {
    Halves(Nibble(n / 16), Nibble(n));
    HalfValue(n / 16 % 16);
    HalfValue(n % 16);
    hide Joined, High, Low, NibbleValue;
    assert ByteValue(LowByte(n)) == n / 16 % 16 * 16 + n % 16;
    hide Nibble, ByteValue, LowByte;
    TwoDigits(n);
  }

  lemma TwoDigits(n: nat)
    ensures n / 16 % 16 * 16 + n % 16 == n % 256
  {
  }

  // n without its low `count` bytes: a shift to the right by 8 * count.
  function Shifted(n: nat, count: nat): nat {
    if count == 0 then n else Shifted(n / 256, count - 1)
  }

  function BigEndian(n: nat, count: nat): (bytes: Bytes)
    ensures |bytes| == count
  {
    if count == 0 then [] else BigEndian(n / 256, count - 1) + [LowByte(n)]
  }

  function ValueOf(bytes: Bytes): nat {
    if bytes == [] then 0 else 256 * ValueOf(bytes[..|bytes| - 1]) + ByteValue(bytes[|bytes| - 1])
  }

  function Pow256(count: nat): (p: nat)
    ensures p > 0
  {
    if count == 0 then 1 else 256 * Pow256(count - 1)
  }

  lemma {:induction false} BigEndianValue(n: nat, count: nat)
    requires n < Pow256(count)
    ensures ValueOf(BigEndian(n, count)) == n
  {
    if count > 0 {
      BigEndianValue(n / 256, count - 1);
      LowByteValue(n);
      hide LowByte, ByteValue;
      var bytes := BigEndian(n, count);
      assert bytes[..count - 1] == BigEndian(n / 256, count - 1);
    }
  }

  lemma {:induction false} BigEndianAt(n: nat, count: nat, j: nat)
    requires j < count
    ensures BigEndian(n, count)[j] == LowByte(Shifted(n, count - 1 - j))
  {
    hide LowByte;
    if j < count - 1 {
      BigEndianAt(n / 256, count - 1, j);
    }
  }

  // ----- Padding (section 5.1.1 of FIPS 180-4) -----

  const TWO_TO_64 := 0x1_0000_0000_0000_0000

  function Zeros(n: nat): Bytes {
    seq(n, _ => 0)
  }

  // The fewest zero bytes that bring the text and its one bit to 56 modulo 64.
  function PadZeros(size: nat): (k: nat)
    ensures k < 64 && (size + 1 + k) % 64 == 56
  {
    (55 - size) % 64
  }

  // uint64_t arithmetic: a length in bits wraps.
  function BitLength(size: nat): nat {
    8 * size % TWO_TO_64
  }

  function Padded(message: Bytes): Bytes {
    message + [0x80] + Zeros(PadZeros(|message|)) + BigEndian(BitLength(|message|), 8)
  }

  method Pad(message: Bytes) returns (data: Bytes)
    ensures data == Padded(message)
  {
    data := message + [0x80];
    ghost var start, k := data, 0;
    assert start + Zeros(0) == start;
    hide Zeros;
    FirstFit(|message|, 0);
    hide BigEndian, PadZeros, BitLength;
    while |data| % 64 != 56
      invariant k <= PadZeros(|message|) && |data| == |start| + k
      invariant data == start + Zeros(k)
      decreases PadZeros(|message|) - k
    {
      OneMoreZero(start, k);
      data := data + [0];
      k := k + 1;
      FirstFit(|message|, k);
    }
    FirstFit(|message|, k);
    data := AppendLength(data, BitLength(|message|));
  }

  lemma OneMoreZero(before: Bytes, k: nat)
    ensures before + Zeros(k) + [0] == before + Zeros(k + 1)
  {
  }

  lemma FirstFit(size: nat, k: nat)
    requires k <= PadZeros(size) + 1
    ensures (size + 1 + k) % 64 == 56 <==> k == PadZeros(size)
    ensures (size + 1 + PadZeros(size)) % 64 == 56
  {
  }

  method AppendLength(data: Bytes, bitLength: nat) returns (out: Bytes)
    ensures out == data + BigEndian(bitLength, 8)
  {
    hide LowByte, Shifted;
    out := data;
    ghost var all := BigEndian(bitLength, 8);
    hide BigEndian;
    for i := 8 downto 0
      invariant out == data + all[..8 - i]
    {
      BigEndianAt(bitLength, 8, 7 - i);
      assert all[..8 - i] == all[..7 - i] + [all[7 - i]];
      out := out + [LowByte(Shifted(bitLength, i))];
    }
    assert all[..8] == all;
  }

  lemma Parts(message: Bytes, zeros: Bytes, length: Bytes)
    requires |length| == 8 && forall i :: 0 <= i < |zeros| ==> zeros[i] == 0
    ensures var data := message + [0x80] + zeros + length;
            && data[..|message|] == message && data[|message|] == 0x80
            && (forall i :: |message| < i < |data| - 8 ==> data[i] == 0)
            && data[|data| - 8..] == length
  {
  }

  // Whole blocks, the message first and its length in bits last; no shorter filling would do.
  lemma {:induction false} PaddedShape(message: Bytes)
    ensures var data := Padded(message);
            && |data| % 64 == 0 && |message| + 9 <= |data| < |message| + 9 + 64
            && data[..|message|] == message && data[|message|] == 0x80
            && (forall i :: |message| < i < |data| - 8 ==> data[i] == 0)
            && ValueOf(data[|data| - 8..]) == 8 * |message| % TWO_TO_64
  {
    LengthValue(|message|);
    PaddedSize(|message|);
    hide BigEndian, ValueOf, PadZeros, BitLength;
    Parts(message, Zeros(PadZeros(|message|)), BigEndian(BitLength(|message|), 8));
  }

  lemma {:induction false} LengthValue(size: nat)
    ensures ValueOf(BigEndian(BitLength(size), 8)) == 8 * size % TWO_TO_64
  {
    EightBytes();
    hide Pow256;
    BigEndianValue(BitLength(size), 8);
  }

  lemma {:induction false} EightBytes()
    ensures Pow256(8) == TWO_TO_64
  {
  }

  lemma PaddedSize(size: nat)
    ensures (size + 9 + PadZeros(size)) % 64 == 0
  {
  }

  // No two messages, of any lengths, pad to the same blocks.
  lemma {:induction false} PaddedInjective(a: Bytes, b: Bytes)
    ensures Padded(a) == Padded(b) ==> a == b
  {
    PaddedShape(a);
    PaddedShape(b);
    hide Padded, ValueOf;
    if Padded(a) == Padded(b) {
      SameLength(|a|, |b|, |Padded(a)|);
    }
  }

  lemma SameLength(a: nat, b: nat, size: nat)
    requires a + 9 <= size < a + 73 && b + 9 <= size < b + 73
    requires 8 * a % TWO_TO_64 == 8 * b % TWO_TO_64
    ensures a == b
  {
  }

  // ----- The functions of sections 3.2 and 4.1.2 -----

  function Rotr(x: bv32, n: bv6): bv32
    requires 0 < n < 32
  {
    (x >> n) | (x << (32 - n))
  }

  function Mixed(x: bv32, y: bv32, z: bv32): bv32 {
    x ^ y ^ z
  }

  function SmallSigma0(x: bv32): bv32 {
    Mixed(Rotr(x, 7), Rotr(x, 18), x >> 3)
  }

  function SmallSigma1(x: bv32): bv32 {
    Mixed(Rotr(x, 17), Rotr(x, 19), x >> 10)
  }

  function BigSigma0(x: bv32): bv32 {
    Mixed(Rotr(x, 2), Rotr(x, 13), Rotr(x, 22))
  }

  function BigSigma1(x: bv32): bv32 {
    Mixed(Rotr(x, 6), Rotr(x, 11), Rotr(x, 25))
  }

  // Where e has a one, the bit of f; elsewhere that of g.
  function Choice(e: bv32, f: bv32, g: bv32): bv32 {
    (e & f) | (!e & g)
  }

  // The bit that two of the three have.
  function Majority(a: bv32, b: bv32, c: bv32): bv32 {
    (a & b) | (a & c) | (b & c)
  }

  // uint32_t addition, which wraps.
  function Plus(x: bv32, y: bv32): bv32 {
    x + y
  }

  // The 64 words of section 4.2.2, eight to a row.
  function ConstantRow(j: nat): (row: seq<bv32>)
    ensures |row| == 8
  {
    if j == 0 then [0x428a2f98, 0x71374491, 0xb5c0fbcf, 0xe9b5dba5, 0x3956c25b, 0x59f111f1, 0x923f82a4, 0xab1c5ed5]
    else if j == 1 then [0xd807aa98, 0x12835b01, 0x243185be, 0x550c7dc3, 0x72be5d74, 0x80deb1fe, 0x9bdc06a7, 0xc19bf174]
    else if j == 2 then [0xe49b69c1, 0xefbe4786, 0x0fc19dc6, 0x240ca1cc, 0x2de92c6f, 0x4a7484aa, 0x5cb0a9dc, 0x76f988da]
    else if j == 3 then [0x983e5152, 0xa831c66d, 0xb00327c8, 0xbf597fc7, 0xc6e00bf3, 0xd5a79147, 0x06ca6351, 0x14292967]
    else if j == 4 then [0x27b70a85, 0x2e1b2138, 0x4d2c6dfc, 0x53380d13, 0x650a7354, 0x766a0abb, 0x81c2c92e, 0x92722c85]
    else if j == 5 then [0xa2bfe8a1, 0xa81a664b, 0xc24b8b70, 0xc76c51a3, 0xd192e819, 0xd6990624, 0xf40e3585, 0x106aa070]
    else if j == 6 then [0x19a4c116, 0x1e376c08, 0x2748774c, 0x34b0bcb5, 0x391c0cb3, 0x4ed8aa4a, 0x5b9cca4f, 0x682e6ff3]
    else [0x748f82ee, 0x78a5636f, 0x84c87814, 0x8cc70208, 0x90befffa, 0xa4506ceb, 0xbef9a3f7, 0xc67178f2]
  }

  function K(t: nat): bv32
    requires t < 64
  {
    ConstantRow(t / 8)[t % 8]
  }

  // ----- The recurrences of section 6.2.2 -----

  datatype Hash = Hash(a: bv32, b: bv32, c: bv32, d: bv32, e: bv32, f: bv32, g: bv32, h: bv32)

  const INITIAL := Hash(0x6a09e667, 0xbb67ae85, 0x3c6ef372, 0xa54ff53a, 0x510e527f, 0x9b05688c, 0x1f83d9ab, 0x5be0cd19)

  function Word(p0: byte, p1: byte, p2: byte, p3: byte): bv32 {
    ((p0 as bv32) << 24) | ((p1 as bv32) << 16) | ((p2 as bv32) << 8) | (p3 as bv32)
  }

  function Expanded(w16: bv32, w15: bv32, w7: bv32, w2: bv32): bv32 {
    Plus(Plus(Plus(w16, SmallSigma0(w15)), w7), SmallSigma1(w2))
  }

  // The message schedule.
  function W(block: Bytes, t: nat): bv32
    requires |block| == 64
    decreases |block|, t
  {
    if t < 16 then Word(block[4 * t], block[4 * t + 1], block[4 * t + 2], block[4 * t + 3])
    else Expanded(W(block, t - 16), W(block, t - 15), W(block, t - 7), W(block, t - 2))
  }

  function Temp1(e: bv32, f: bv32, g: bv32, h: bv32, k: bv32, w: bv32): bv32 {
    Plus(Plus(Plus(Plus(h, BigSigma1(e)), Choice(e, f, g)), k), w)
  }

  function Temp2(a: bv32, b: bv32, c: bv32): bv32 {
    Plus(BigSigma0(a), Majority(a, b, c))
  }

  // The two sequences the rounds make. The eight working variables of a round are four consecutive
  // members of each: A(3) to A(0) and E(3) to E(0) before the first.
  function A(hash: Hash, block: Bytes, t: nat): bv32
    requires |block| == 64 && t < 68
    decreases |block|, t, 1
  {
    if t == 0 then hash.d
    else if t == 1 then hash.c
    else if t == 2 then hash.b
    else if t == 3 then hash.a
    else Plus(First(hash, block, t), Temp2(A(hash, block, t - 1), A(hash, block, t - 2), A(hash, block, t - 3)))
  }

  function E(hash: Hash, block: Bytes, t: nat): bv32
    requires |block| == 64 && t < 68
    decreases |block|, t, 1
  {
    if t == 0 then hash.h
    else if t == 1 then hash.g
    else if t == 2 then hash.f
    else if t == 3 then hash.e
    else Plus(A(hash, block, t - 4), First(hash, block, t))
  }

  function First(hash: Hash, block: Bytes, t: nat): bv32
    requires |block| == 64 && 4 <= t < 68
    decreases |block|, t, 0
  {
    Temp1(E(hash, block, t - 1), E(hash, block, t - 2), E(hash, block, t - 3), E(hash, block, t - 4),
          K(t - 4), W(block, t - 4))
  }

  // The eight working variables before round t.
  function Working(hash: Hash, block: Bytes, t: nat): Hash
    requires |block| == 64 && t <= 64
  {
    Hash(A(hash, block, t + 3), A(hash, block, t + 2), A(hash, block, t + 1), A(hash, block, t),
         E(hash, block, t + 3), E(hash, block, t + 2), E(hash, block, t + 1), E(hash, block, t))
  }

  function Added(x: Hash, y: Hash): Hash {
    Hash(Plus(x.a, y.a), Plus(x.b, y.b), Plus(x.c, y.c), Plus(x.d, y.d),
         Plus(x.e, y.e), Plus(x.f, y.f), Plus(x.g, y.g), Plus(x.h, y.h))
  }

  // One round for each byte of the block.
  function Compressed(hash: Hash, block: Bytes): Hash
    requires |block| == 64
  {
    Added(hash, Working(hash, block, |block|))
  }

  function AllCompressed(hash: Hash, data: Bytes): Hash
    decreases |data|
  {
    if |data| < 64 then hash else AllCompressed(Compressed(hash, data[..64]), data[64..])
  }

  function WordByte(w: bv32, k: nat): byte {
    if k == 0 then (w & 0xff) as bv8
    else if k == 1 then ((w >> 8) & 0xff) as bv8
    else if k == 2 then ((w >> 16) & 0xff) as bv8
    else ((w >> 24) & 0xff) as bv8
  }

  function WordBytes(w: bv32): Bytes {
    [WordByte(w, 3), WordByte(w, 2), WordByte(w, 1), WordByte(w, 0)]
  }

  function WordsBytes(words: seq<bv32>): Bytes {
    if words == [] then [] else WordBytes(words[0]) + WordsBytes(words[1..])
  }

  function Words(hash: Hash): seq<bv32> {
    [hash.a, hash.b, hash.c, hash.d, hash.e, hash.f, hash.g, hash.h]
  }

  function Sha(message: Bytes): Bytes {
    WordsBytes(Words(AllCompressed(INITIAL, Padded(message))))
  }

  // ----- Where the words come from -----

  // The first 64 primes.
  function PrimeRow(j: nat): (row: seq<nat>)
    ensures |row| == 8
  {
    if j == 0 then [2, 3, 5, 7, 11, 13, 17, 19]
    else if j == 1 then [23, 29, 31, 37, 41, 43, 47, 53]
    else if j == 2 then [59, 61, 67, 71, 73, 79, 83, 89]
    else if j == 3 then [97, 101, 103, 107, 109, 113, 127, 131]
    else if j == 4 then [137, 139, 149, 151, 157, 163, 167, 173]
    else if j == 5 then [179, 181, 191, 193, 197, 199, 211, 223]
    else if j == 6 then [227, 229, 233, 239, 241, 251, 257, 263]
    else [269, 271, 277, 281, 283, 293, 307, 311]
  }

  function Prime(t: nat): nat
    requires t < 64
  {
    PrimeRow(t / 8)[t % 8]
  }

  const TWO_TO_32 := 0x1_0000_0000

  function WholeCubeRoot(p: nat): nat {
    if p < 8 then 1 else if p < 27 then 2 else if p < 64 then 3 else if p < 125 then 4 else if p < 216 then 5 else 6
  }

  // The word is the first 32 bits of the fraction of the cube root of p.
  predicate CubeRoot(word: bv32, p: nat) {
    var c := WholeCubeRoot(p) * TWO_TO_32 + word as int;
    c * c * c <= p * TWO_TO_32 * TWO_TO_32 * TWO_TO_32 < (c + 1) * (c + 1) * (c + 1)
  }

  lemma {:induction false} Row0(i: nat)
    requires i < 8
    ensures CubeRoot(ConstantRow(0)[i], PrimeRow(0)[i])
  {
  }

  lemma {:induction false} Row1(i: nat)
    requires i < 8
    ensures CubeRoot(ConstantRow(1)[i], PrimeRow(1)[i])
  {
  }

  lemma {:induction false} Row2(i: nat)
    requires i < 8
    ensures CubeRoot(ConstantRow(2)[i], PrimeRow(2)[i])
  {
  }

  lemma {:induction false} Row3(i: nat)
    requires i < 8
    ensures CubeRoot(ConstantRow(3)[i], PrimeRow(3)[i])
  {
  }

  lemma {:induction false} Row4(i: nat)
    requires i < 8
    ensures CubeRoot(ConstantRow(4)[i], PrimeRow(4)[i])
  {
  }

  lemma {:induction false} Row5(i: nat)
    requires i < 8
    ensures CubeRoot(ConstantRow(5)[i], PrimeRow(5)[i])
  {
  }

  lemma {:induction false} Row6(i: nat)
    requires i < 8
    ensures CubeRoot(ConstantRow(6)[i], PrimeRow(6)[i])
  {
  }

  lemma {:induction false} Row7(i: nat)
    requires i < 8
    ensures CubeRoot(ConstantRow(7)[i], PrimeRow(7)[i])
  {
  }

  // Section 4.2.2: the constants are cube roots of the first 64 primes, to 32 bits behind the point.
  lemma {:induction false} ConstantsAre(t: nat)
    requires t < 64
    ensures CubeRoot(K(t), Prime(t))
  {
    hide CubeRoot, ConstantRow, PrimeRow;
    match t / 8 {
      case 0 => Row0(t % 8);
      case 1 => Row1(t % 8);
      case 2 => Row2(t % 8);
      case 3 => Row3(t % 8);
      case 4 => Row4(t % 8);
      case 5 => Row5(t % 8);
      case 6 => Row6(t % 8);
      case _ => Row7(t % 8);
    }
  }

  function WholeSquareRoot(p: nat): nat {
    if p < 4 then 1 else if p < 9 then 2 else if p < 16 then 3 else 4
  }

  predicate SquareRoot(word: bv32, p: nat) {
    var c := WholeSquareRoot(p) * TWO_TO_32 + word as int;
    c * c <= p * TWO_TO_32 * TWO_TO_32 < (c + 1) * (c + 1)
  }

  // Section 5.3.3: the first hash is made of square roots of the first eight.
  lemma {:induction false} InitialAre(i: nat)
    requires i < 8
    ensures SquareRoot(Words(INITIAL)[i], PrimeRow(0)[i])
  {
  }

  // ----- What the functions do -----

  // The shifts rotate, by each of the distances in use.
  lemma Rotates(x: bv32)
    ensures Rotr(x, 2) == x.RotateRight(2) && Rotr(x, 6) == x.RotateRight(6)
    ensures Rotr(x, 7) == x.RotateRight(7) && Rotr(x, 11) == x.RotateRight(11)
    ensures Rotr(x, 13) == x.RotateRight(13) && Rotr(x, 17) == x.RotateRight(17)
    ensures Rotr(x, 18) == x.RotateRight(18) && Rotr(x, 19) == x.RotateRight(19)
    ensures Rotr(x, 22) == x.RotateRight(22) && Rotr(x, 25) == x.RotateRight(25)
  {
  }

  // Section 4.1.2, in the rotations that the language has of its own.
  lemma SigmasRotate(x: bv32)
    ensures BigSigma0(x) == Mixed(x.RotateRight(2), x.RotateRight(13), x.RotateRight(22))
    ensures BigSigma1(x) == Mixed(x.RotateRight(6), x.RotateRight(11), x.RotateRight(25))
    ensures SmallSigma0(x) == Mixed(x.RotateRight(7), x.RotateRight(18), x >> 3)
    ensures SmallSigma1(x) == Mixed(x.RotateRight(17), x.RotateRight(19), x >> 10)
  {
    Rotates(x);
    hide Rotr, Mixed;
  }

  // From nothing, one more is one more: addition, and 2^32 - 1 is followed by 0.
  lemma PlusCounts(x: bv32, y: bv32)
    ensures Plus(x, 0) == x && Plus(x, y + 1) == Plus(x, y) + 1
  {
  }

  lemma ChoiceIs(e: bv32, f: bv32, g: bv32)
    ensures Choice(e, f, g) & e == f & e && Choice(e, f, g) & !e == g & !e
  {
  }

  // Wherever two of the three agree, the majority has their bit.
  lemma MajorityIs(a: bv32, b: bv32, c: bv32)
    ensures Majority(a, b, c) & !(a ^ b) == a & !(a ^ b)
    ensures Majority(a, b, c) & !(a ^ c) == a & !(a ^ c)
    ensures Majority(a, b, c) & !(b ^ c) == b & !(b ^ c)
  {
  }

  // Section 6.2.2, step 1: big-endian words of the block, and then sums of four words before.
  lemma {:induction false} ScheduleIs(block: Bytes, t: nat)
    requires |block| == 64 && t < 64
    ensures t < 16 ==> WordBytes(W(block, t)) == block[4 * t..4 * t + 4]
    ensures t >= 16 ==>
              W(block, t) == Plus(Plus(Plus(W(block, t - 16), SmallSigma0(W(block, t - 15))), W(block, t - 7)),
                                  SmallSigma1(W(block, t - 2)))
  {
    hide Word, WordByte, SmallSigma0, SmallSigma1, Plus;
    if t < 16 {
      BytesBack(block[4 * t], block[4 * t + 1], block[4 * t + 2], block[4 * t + 3]);
    }
  }

  lemma BytesBack(p0: byte, p1: byte, p2: byte, p3: byte)
    ensures WordBytes(Word(p0, p1, p2, p3)) == [p0, p1, p2, p3]
  {
  }

  // Big-endian both ways.
  lemma WordBack(w: bv32)
    ensures Word(WordByte(w, 3), WordByte(w, 2), WordByte(w, 1), WordByte(w, 0)) == w
  {
  }

  lemma {:induction false} WordsBytesAt(words: seq<bv32>, j: nat)
    requires j < |words|
    ensures |WordsBytes(words)| == 4 * |words|
    ensures var p := 4 * j;
            var bytes := WordsBytes(words);
            Word(bytes[p], bytes[p + 1], bytes[p + 2], bytes[p + 3]) == words[j]
    decreases |words|
  {
    hide WordByte, Word;
    WordBack(words[0]);
    if j > 0 {
      WordsBytesAt(words[1..], j - 1);
    } else if |words| > 1 {
      WordsBytesAt(words[1..], 0);
    }
  }

  // Blocks are compressed one after the other, each from the hash of those before it.
  lemma {:induction false} BlocksInOrder(hash: Hash, first: Bytes, later: Bytes)
    requires |first| % 64 == 0
    ensures |first| == 64 ==> AllCompressed(hash, first) == Compressed(hash, first)
    ensures first == [] ==> AllCompressed(hash, first) == hash
    ensures AllCompressed(hash, first + later) == AllCompressed(AllCompressed(hash, first), later)
    decreases |first|
  {
    hide Compressed;
    var data := first + later;
    if first == [] {
      assert data == later;
    } else {
      assert data[..64] == first[..64] && data[64..] == first[64..] + later;
      BlocksInOrder(Compressed(hash, first[..64]), first[64..], later);
      assert |first| == 64 ==> first[..64] == first && first[64..] == [];
    }
  }

  // A digest is 32 bytes, and its words, read back, are the hash.
  lemma {:induction false} ShaShape(message: Bytes, j: nat)
    requires j < 8
    ensures |Sha(message)| == 32
    ensures var p := 4 * j;
            var digest := Sha(message);
            Word(digest[p], digest[p + 1], digest[p + 2], digest[p + 3])
            == Words(AllCompressed(INITIAL, Padded(message)))[j]
  {
    hide AllCompressed, Padded, WordsBytes, Word;
    WordsBytesAt(Words(AllCompressed(INITIAL, Padded(message))), j);
  }

  // ----- The code -----

  function CodedTemp1(e: bv32, f: bv32, g: bv32, h: bv32, k: bv32, w: bv32): bv32 {
    Plus(Plus(Plus(Plus(h, Rotr(e, 6) ^ Rotr(e, 11) ^ Rotr(e, 25)), (e & f) ^ (!e & g)), k), w)
  }

  function CodedTemp2(a: bv32, b: bv32, c: bv32): bv32 {
    Plus(Rotr(a, 2) ^ Rotr(a, 13) ^ Rotr(a, 22), (a & b) ^ (a & c) ^ (b & c))
  }

  lemma ChoiceAsCoded(e: bv32, f: bv32, g: bv32)
    ensures (e & f) ^ (!e & g) == Choice(e, f, g)
  {
  }

  lemma MajorityAsCoded(a: bv32, b: bv32, c: bv32)
    ensures (a & b) ^ (a & c) ^ (b & c) == Majority(a, b, c)
  {
  }

  lemma Temp1AsCoded(e: bv32, f: bv32, g: bv32, h: bv32, k: bv32, w: bv32)
    ensures CodedTemp1(e, f, g, h, k, w) == Temp1(e, f, g, h, k, w)
  {
    ChoiceAsCoded(e, f, g);
    hide Rotr, Choice, Plus;
  }

  lemma Temp2AsCoded(a: bv32, b: bv32, c: bv32)
    ensures CodedTemp2(a, b, c) == Temp2(a, b, c)
  {
    MajorityAsCoded(a, b, c);
    hide Rotr, Majority, Plus;
  }

  ghost predicate Scheduled(block: Bytes, w: seq<bv32>, n: nat) {
    |block| == 64 && n <= |w| && forall t :: 0 <= t < n ==> w[t] == W(block, t)
  }

  // The schedule of one chunk, in place.
  method Schedule(data: Bytes, chunk: nat, w: array<bv32>)
    requires chunk + 64 <= |data| && w.Length == 64
    modifies w
    ensures Scheduled(data[chunk..chunk + 64], w[..], 64)
  {
    hide Expanded, Word;
    ghost var block := data[chunk..chunk + 64];
    for i := 0 to 16
      invariant Scheduled(block, w[..], i)
    {
      var p := chunk + i * 4;
      w[i] := Word(data[p], data[p + 1], data[p + 2], data[p + 3]);
    }
    for i := 16 to 64
      invariant Scheduled(block, w[..], i)
    {
      w[i] := Expanded(w[i - 16], w[i - 15], w[i - 7], w[i - 2]);
    }
  }

  lemma WorkingStart(hash: Hash, block: Bytes)
    requires |block| == 64
    ensures Working(hash, block, 0) == hash
  {
  }

  // One round of section 6.2.2 on the eight variables.
  lemma WorkingTurn(hash: Hash, block: Bytes, t: nat)
    requires |block| == 64 && t < 64
    ensures var v := Working(hash, block, t);
            var t1 := Temp1(v.e, v.f, v.g, v.h, K(t), W(block, t));
            var t2 := Temp2(v.a, v.b, v.c);
            Working(hash, block, t + 1) == Hash(Plus(t1, t2), v.a, v.b, v.c, Plus(v.d, t1), v.e, v.f, v.g)
  {
    hide Temp1, Temp2, K, W, Plus;
    var u := t + 4;
    var temp2 := Temp2(A(hash, block, u - 1), A(hash, block, u - 2), A(hash, block, u - 3));
    assert A(hash, block, u) == Plus(First(hash, block, u), temp2);
    assert E(hash, block, u) == Plus(A(hash, block, u - 4), First(hash, block, u));
  }

  // Section 6.2.2, step 3: what one round makes of the eight variables.
  lemma {:induction false} RoundIs(hash: Hash, block: Bytes, t: nat)
    requires |block| == 64 && t < 64
    ensures var v := Working(hash, block, t);
            var t1 := Plus(Plus(Plus(Plus(v.h, BigSigma1(v.e)), Choice(v.e, v.f, v.g)), K(t)), W(block, t));
            var t2 := Plus(BigSigma0(v.a), Majority(v.a, v.b, v.c));
            Working(hash, block, t + 1) == Hash(Plus(t1, t2), v.a, v.b, v.c, Plus(v.d, t1), v.e, v.f, v.g)
  {
    hide Working, K, W, Plus, Choice, Majority, BigSigma0, BigSigma1;
    WorkingTurn(hash, block, t);
  }

  // Section 6.2.2, steps 2 and 4: the variables begin as the hash, and are added into it.
  lemma {:induction false} CompressedIs(hash: Hash, block: Bytes)
    requires |block| == 64
    ensures Working(hash, block, 0) == hash
    ensures var v := Working(hash, block, 64);
            Compressed(hash, block) == Hash(Plus(hash.a, v.a), Plus(hash.b, v.b), Plus(hash.c, v.c), Plus(hash.d, v.d),
                                            Plus(hash.e, v.e), Plus(hash.f, v.f), Plus(hash.g, v.g), Plus(hash.h, v.h))
  {
    WorkingStart(hash, block);
    hide Working, Plus;
  }

  ghost function HashOf(h: array<bv32>): Hash
    requires h.Length == 8
    reads h
  {
    Hash(h[0], h[1], h[2], h[3], h[4], h[5], h[6], h[7])
  }

  // The rounds of one chunk, added into h.
  method Compress(h: array<bv32>, w: array<bv32>, ghost block: Bytes)
    requires h.Length == 8 && w.Length == 64 && h != w && Scheduled(block, w[..], 64)
    modifies h
    ensures HashOf(h) == Compressed(old(HashOf(h)), block)
  {
    hide CodedTemp1, CodedTemp2, Temp1, Temp2, K, W, Plus, Working;
    ghost var hash := HashOf(h);
    WorkingStart(hash, block);
    var a, b, c, d, e, f, g, hh := h[0], h[1], h[2], h[3], h[4], h[5], h[6], h[7];
    for i := 0 to 64
      invariant HashOf(h) == hash
      invariant Hash(a, b, c, d, e, f, g, hh) == Working(hash, block, i)
    {
      var t1 := CodedTemp1(e, f, g, hh, K(i), w[i]);
      var t2 := CodedTemp2(a, b, c);
      WorkingTurn(hash, block, i);
      Temp1AsCoded(e, f, g, hh, K(i), w[i]);
      Temp2AsCoded(a, b, c);
      hh := g;
      g := f;
      f := e;
      e := Plus(d, t1);
      d := c;
      c := b;
      b := a;
      a := Plus(t1, t2);
    }
    ghost var last := Hash(a, b, c, d, e, f, g, hh);
    assert Compressed(hash, block) == Added(hash, last);
    h[0] := Plus(h[0], a);
    h[1] := Plus(h[1], b);
    h[2] := Plus(h[2], c);
    h[3] := Plus(h[3], d);
    h[4] := Plus(h[4], e);
    h[5] := Plus(h[5], f);
    h[6] := Plus(h[6], g);
    h[7] := Plus(h[7], hh);
    assert HashOf(h) == Added(hash, last);
  }

  method Digest(h: array<bv32>) returns (digest: Bytes)
    requires h.Length == 8
    ensures digest == WordsBytes(h[..])
  {
    hide WordByte;
    digest := [];
    for j := 0 to 8
      invariant digest + WordsBytes(h[j..]) == WordsBytes(h[..])
    {
      var word := h[j];
      assert h[j..][1..] == h[j + 1..];
      Associate(digest, WordBytes(word), WordsBytes(h[j + 1..]));
      ghost var before := digest;
      for i := 4 downto 0
        invariant digest == before + WordBytes(word)[..4 - i]
      {
        digest := digest + [WordByte(word, i)];
      }
      assert WordBytes(word)[..4] == WordBytes(word);
    }
  }

  // The loop over the chunks.
  method CompressAll(h: array<bv32>, data: Bytes)
    requires h.Length == 8 && |data| % 64 == 0
    modifies h
    ensures HashOf(h) == AllCompressed(old(HashOf(h)), data)
  {
    hide Compressed, Scheduled, Plus, W;
    var w := new bv32[64];
    var chunk := 0;
    assert data[0..] == data;
    while chunk < |data|
      invariant chunk <= |data| && chunk % 64 == 0
      invariant AllCompressed(HashOf(h), data[chunk..]) == AllCompressed(old(HashOf(h)), data)
    {
      ghost var rest, block := data[chunk..], data[chunk..chunk + 64];
      assert rest[..64] == block && rest[64..] == data[chunk + 64..];
      Schedule(data, chunk, w);
      Compress(h, w, block);
      chunk := chunk + 64;
    }
  }

  method Sha256(message: Bytes) returns (digest: Bytes)
    ensures digest == Sha(message)
  {
    hide Padded, AllCompressed, WordsBytes;
    var h := new bv32[8];
    h[0], h[1], h[2], h[3] := INITIAL.a, INITIAL.b, INITIAL.c, INITIAL.d;
    h[4], h[5], h[6], h[7] := INITIAL.e, INITIAL.f, INITIAL.g, INITIAL.h;
    assert HashOf(h) == INITIAL;
    var data := Pad(message);
    PaddedShape(message);
    CompressAll(h, data);
    assert h[..] == Words(HashOf(h));
    digest := Digest(h);
  }
}
