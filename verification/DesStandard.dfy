/** DES as FIPS PUB 46-2 defines it, on numbered bits and with its tables, and the proof that the
    word operations of benchmark/des.c compute it.  Only the contents of the S-boxes, which the
    code's tables combine with the permutation P, stay arbitrary. */
module DesStandard {
  import opened Des

  // ---------- Numbered bits ----------

  /** Bits are numbered from 1, the highest first. */
  datatype Bits64 = Bits64(
    b1: bv1, b2: bv1, b3: bv1, b4: bv1, b5: bv1, b6: bv1, b7: bv1, b8: bv1,
    b9: bv1, b10: bv1, b11: bv1, b12: bv1, b13: bv1, b14: bv1, b15: bv1, b16: bv1,
    b17: bv1, b18: bv1, b19: bv1, b20: bv1, b21: bv1, b22: bv1, b23: bv1, b24: bv1,
    b25: bv1, b26: bv1, b27: bv1, b28: bv1, b29: bv1, b30: bv1, b31: bv1, b32: bv1,
    b33: bv1, b34: bv1, b35: bv1, b36: bv1, b37: bv1, b38: bv1, b39: bv1, b40: bv1,
    b41: bv1, b42: bv1, b43: bv1, b44: bv1, b45: bv1, b46: bv1, b47: bv1, b48: bv1,
    b49: bv1, b50: bv1, b51: bv1, b52: bv1, b53: bv1, b54: bv1, b55: bv1, b56: bv1,
    b57: bv1, b58: bv1, b59: bv1, b60: bv1, b61: bv1, b62: bv1, b63: bv1, b64: bv1)

  datatype Bits56 = Bits56(
    b1: bv1, b2: bv1, b3: bv1, b4: bv1, b5: bv1, b6: bv1, b7: bv1, b8: bv1,
    b9: bv1, b10: bv1, b11: bv1, b12: bv1, b13: bv1, b14: bv1, b15: bv1, b16: bv1,
    b17: bv1, b18: bv1, b19: bv1, b20: bv1, b21: bv1, b22: bv1, b23: bv1, b24: bv1,
    b25: bv1, b26: bv1, b27: bv1, b28: bv1, b29: bv1, b30: bv1, b31: bv1, b32: bv1,
    b33: bv1, b34: bv1, b35: bv1, b36: bv1, b37: bv1, b38: bv1, b39: bv1, b40: bv1,
    b41: bv1, b42: bv1, b43: bv1, b44: bv1, b45: bv1, b46: bv1, b47: bv1, b48: bv1,
    b49: bv1, b50: bv1, b51: bv1, b52: bv1, b53: bv1, b54: bv1, b55: bv1, b56: bv1)

  datatype Bits32 = Bits32(
    b1: bv1, b2: bv1, b3: bv1, b4: bv1, b5: bv1, b6: bv1, b7: bv1, b8: bv1,
    b9: bv1, b10: bv1, b11: bv1, b12: bv1, b13: bv1, b14: bv1, b15: bv1, b16: bv1,
    b17: bv1, b18: bv1, b19: bv1, b20: bv1, b21: bv1, b22: bv1, b23: bv1, b24: bv1,
    b25: bv1, b26: bv1, b27: bv1, b28: bv1, b29: bv1, b30: bv1, b31: bv1, b32: bv1)

  /** Six bits for each S-box, as numbers. */
  datatype SixBits = SixBits(x1: bv32, x2: bv32, x3: bv32, x4: bv32, x5: bv32, x6: bv32, x7: bv32, x8: bv32)

  /** The lowest bit of a word, and the word with that bit only. */
  function Bit(w: bv32): bv1 {
    (w & 1) as bv1
  }

  function Lowest(b: bv1): bv32 {
    b as bv32
  }

  function WordBits(w: bv32): Bits32 {
    Bits32(Bit(w >> 31), Bit(w >> 30), Bit(w >> 29), Bit(w >> 28), Bit(w >> 27), Bit(w >> 26), Bit(w >> 25),
           Bit(w >> 24), Bit(w >> 23), Bit(w >> 22), Bit(w >> 21), Bit(w >> 20), Bit(w >> 19), Bit(w >> 18),
           Bit(w >> 17), Bit(w >> 16), Bit(w >> 15), Bit(w >> 14), Bit(w >> 13), Bit(w >> 12), Bit(w >> 11),
           Bit(w >> 10), Bit(w >> 9), Bit(w >> 8), Bit(w >> 7), Bit(w >> 6), Bit(w >> 5), Bit(w >> 4),
           Bit(w >> 3), Bit(w >> 2), Bit(w >> 1), Bit(w))
  }

  /** The bits of two words, and the words again. */
  function PairBits(l: bv32, r: bv32): Bits64 {
    Bits64(Bit(l >> 31), Bit(l >> 30), Bit(l >> 29), Bit(l >> 28), Bit(l >> 27), Bit(l >> 26), Bit(l >> 25),
           Bit(l >> 24), Bit(l >> 23), Bit(l >> 22), Bit(l >> 21), Bit(l >> 20), Bit(l >> 19), Bit(l >> 18),
           Bit(l >> 17), Bit(l >> 16), Bit(l >> 15), Bit(l >> 14), Bit(l >> 13), Bit(l >> 12), Bit(l >> 11),
           Bit(l >> 10), Bit(l >> 9), Bit(l >> 8), Bit(l >> 7), Bit(l >> 6), Bit(l >> 5), Bit(l >> 4),
           Bit(l >> 3), Bit(l >> 2), Bit(l >> 1), Bit(l), Bit(r >> 31), Bit(r >> 30), Bit(r >> 29),
           Bit(r >> 28), Bit(r >> 27), Bit(r >> 26), Bit(r >> 25), Bit(r >> 24), Bit(r >> 23), Bit(r >> 22),
           Bit(r >> 21), Bit(r >> 20), Bit(r >> 19), Bit(r >> 18), Bit(r >> 17), Bit(r >> 16), Bit(r >> 15),
           Bit(r >> 14), Bit(r >> 13), Bit(r >> 12), Bit(r >> 11), Bit(r >> 10), Bit(r >> 9), Bit(r >> 8),
           Bit(r >> 7), Bit(r >> 6), Bit(r >> 5), Bit(r >> 4), Bit(r >> 3), Bit(r >> 2), Bit(r >> 1),
           Bit(r))
  }

  function FirstWord(d: Bits64): bv32 {
    (Lowest(d.b1) << 31) | (Lowest(d.b2) << 30) | (Lowest(d.b3) << 29) | (Lowest(d.b4) << 28)
    | (Lowest(d.b5) << 27) | (Lowest(d.b6) << 26) | (Lowest(d.b7) << 25) | (Lowest(d.b8) << 24)
    | (Lowest(d.b9) << 23) | (Lowest(d.b10) << 22) | (Lowest(d.b11) << 21) | (Lowest(d.b12) << 20)
    | (Lowest(d.b13) << 19) | (Lowest(d.b14) << 18) | (Lowest(d.b15) << 17) | (Lowest(d.b16) << 16)
    | (Lowest(d.b17) << 15) | (Lowest(d.b18) << 14) | (Lowest(d.b19) << 13) | (Lowest(d.b20) << 12)
    | (Lowest(d.b21) << 11) | (Lowest(d.b22) << 10) | (Lowest(d.b23) << 9) | (Lowest(d.b24) << 8)
    | (Lowest(d.b25) << 7) | (Lowest(d.b26) << 6) | (Lowest(d.b27) << 5) | (Lowest(d.b28) << 4)
    | (Lowest(d.b29) << 3) | (Lowest(d.b30) << 2) | (Lowest(d.b31) << 1) | Lowest(d.b32)
  }

  function SecondWord(d: Bits64): bv32 {
    (Lowest(d.b33) << 31) | (Lowest(d.b34) << 30) | (Lowest(d.b35) << 29) | (Lowest(d.b36) << 28)
    | (Lowest(d.b37) << 27) | (Lowest(d.b38) << 26) | (Lowest(d.b39) << 25) | (Lowest(d.b40) << 24)
    | (Lowest(d.b41) << 23) | (Lowest(d.b42) << 22) | (Lowest(d.b43) << 21) | (Lowest(d.b44) << 20)
    | (Lowest(d.b45) << 19) | (Lowest(d.b46) << 18) | (Lowest(d.b47) << 17) | (Lowest(d.b48) << 16)
    | (Lowest(d.b49) << 15) | (Lowest(d.b50) << 14) | (Lowest(d.b51) << 13) | (Lowest(d.b52) << 12)
    | (Lowest(d.b53) << 11) | (Lowest(d.b54) << 10) | (Lowest(d.b55) << 9) | (Lowest(d.b56) << 8)
    | (Lowest(d.b57) << 7) | (Lowest(d.b58) << 6) | (Lowest(d.b59) << 5) | (Lowest(d.b60) << 4)
    | (Lowest(d.b61) << 3) | (Lowest(d.b62) << 2) | (Lowest(d.b63) << 1) | Lowest(d.b64)
  }

  function ByteBit(b: bv8): bv1 {
    (b & 1) as bv1
  }

  function ByteBits(s1: bv8, s2: bv8, s3: bv8, s4: bv8, s5: bv8, s6: bv8, s7: bv8, s8: bv8): Bits64 {
    Bits64(ByteBit(s1 >> 7), ByteBit(s1 >> 6), ByteBit(s1 >> 5), ByteBit(s1 >> 4),
           ByteBit(s1 >> 3), ByteBit(s1 >> 2), ByteBit(s1 >> 1), ByteBit(s1),
           ByteBit(s2 >> 7), ByteBit(s2 >> 6), ByteBit(s2 >> 5), ByteBit(s2 >> 4),
           ByteBit(s2 >> 3), ByteBit(s2 >> 2), ByteBit(s2 >> 1), ByteBit(s2),
           ByteBit(s3 >> 7), ByteBit(s3 >> 6), ByteBit(s3 >> 5), ByteBit(s3 >> 4),
           ByteBit(s3 >> 3), ByteBit(s3 >> 2), ByteBit(s3 >> 1), ByteBit(s3),
           ByteBit(s4 >> 7), ByteBit(s4 >> 6), ByteBit(s4 >> 5), ByteBit(s4 >> 4),
           ByteBit(s4 >> 3), ByteBit(s4 >> 2), ByteBit(s4 >> 1), ByteBit(s4),
           ByteBit(s5 >> 7), ByteBit(s5 >> 6), ByteBit(s5 >> 5), ByteBit(s5 >> 4),
           ByteBit(s5 >> 3), ByteBit(s5 >> 2), ByteBit(s5 >> 1), ByteBit(s5),
           ByteBit(s6 >> 7), ByteBit(s6 >> 6), ByteBit(s6 >> 5), ByteBit(s6 >> 4),
           ByteBit(s6 >> 3), ByteBit(s6 >> 2), ByteBit(s6 >> 1), ByteBit(s6),
           ByteBit(s7 >> 7), ByteBit(s7 >> 6), ByteBit(s7 >> 5), ByteBit(s7 >> 4),
           ByteBit(s7 >> 3), ByteBit(s7 >> 2), ByteBit(s7 >> 1), ByteBit(s7),
           ByteBit(s8 >> 7), ByteBit(s8 >> 6), ByteBit(s8 >> 5), ByteBit(s8 >> 4),
           ByteBit(s8 >> 3), ByteBit(s8 >> 2), ByteBit(s8 >> 1), ByteBit(s8))
  }

  /** The bits of a block of eight bytes. */
  function DataBits(s: seq<bv8>): Bits64
    requires |s| == 8
  {
    ByteBits(s[0], s[1], s[2], s[3], s[4], s[5], s[6], s[7])
  }

  function Six(b1: bv1, b2: bv1, b3: bv1, b4: bv1, b5: bv1, b6: bv1): bv32 {
    (Lowest(b1) << 5) | (Lowest(b2) << 4) | (Lowest(b3) << 3) | (Lowest(b4) << 2) | (Lowest(b5) << 1) | Lowest(b6)
  }

  // ---------- The standard ----------

  /** The initial permutation. */
  function IP(d: Bits64): Bits64 {
    Bits64(d.b58, d.b50, d.b42, d.b34, d.b26, d.b18, d.b10, d.b2,
           d.b60, d.b52, d.b44, d.b36, d.b28, d.b20, d.b12, d.b4,
           d.b62, d.b54, d.b46, d.b38, d.b30, d.b22, d.b14, d.b6,
           d.b64, d.b56, d.b48, d.b40, d.b32, d.b24, d.b16, d.b8,
           d.b57, d.b49, d.b41, d.b33, d.b25, d.b17, d.b9, d.b1,
           d.b59, d.b51, d.b43, d.b35, d.b27, d.b19, d.b11, d.b3,
           d.b61, d.b53, d.b45, d.b37, d.b29, d.b21, d.b13, d.b5,
           d.b63, d.b55, d.b47, d.b39, d.b31, d.b23, d.b15, d.b7)
  }

  /** The final permutation. */
  function FP(d: Bits64): Bits64 {
    Bits64(d.b40, d.b8, d.b48, d.b16, d.b56, d.b24, d.b64, d.b32,
           d.b39, d.b7, d.b47, d.b15, d.b55, d.b23, d.b63, d.b31,
           d.b38, d.b6, d.b46, d.b14, d.b54, d.b22, d.b62, d.b30,
           d.b37, d.b5, d.b45, d.b13, d.b53, d.b21, d.b61, d.b29,
           d.b36, d.b4, d.b44, d.b12, d.b52, d.b20, d.b60, d.b28,
           d.b35, d.b3, d.b43, d.b11, d.b51, d.b19, d.b59, d.b27,
           d.b34, d.b2, d.b42, d.b10, d.b50, d.b18, d.b58, d.b26,
           d.b33, d.b1, d.b41, d.b9, d.b49, d.b17, d.b57, d.b25)
  }

  /** The expansion, a line for each S-box. */
  function E(d: Bits32): SixBits {
    SixBits(Six(d.b32, d.b1, d.b2, d.b3, d.b4, d.b5),
            Six(d.b4, d.b5, d.b6, d.b7, d.b8, d.b9),
            Six(d.b8, d.b9, d.b10, d.b11, d.b12, d.b13),
            Six(d.b12, d.b13, d.b14, d.b15, d.b16, d.b17),
            Six(d.b16, d.b17, d.b18, d.b19, d.b20, d.b21),
            Six(d.b20, d.b21, d.b22, d.b23, d.b24, d.b25),
            Six(d.b24, d.b25, d.b26, d.b27, d.b28, d.b29),
            Six(d.b28, d.b29, d.b30, d.b31, d.b32, d.b1))
  }

  /** Permuted choice 1: the two halves of the key, without parity bits. */
  function PC1(d: Bits64): Bits56 {
    Bits56(d.b57, d.b49, d.b41, d.b33, d.b25, d.b17, d.b9,
           d.b1, d.b58, d.b50, d.b42, d.b34, d.b26, d.b18,
           d.b10, d.b2, d.b59, d.b51, d.b43, d.b35, d.b27,
           d.b19, d.b11, d.b3, d.b60, d.b52, d.b44, d.b36,
           d.b63, d.b55, d.b47, d.b39, d.b31, d.b23, d.b15,
           d.b7, d.b62, d.b54, d.b46, d.b38, d.b30, d.b22,
           d.b14, d.b6, d.b61, d.b53, d.b45, d.b37, d.b29,
           d.b21, d.b13, d.b5, d.b28, d.b20, d.b12, d.b4)
  }

  /** Permuted choice 2, a line for each S-box. */
  function PC2(d: Bits56): SixBits {
    SixBits(Six(d.b14, d.b17, d.b11, d.b24, d.b1, d.b5),
            Six(d.b3, d.b28, d.b15, d.b6, d.b21, d.b10),
            Six(d.b23, d.b19, d.b12, d.b4, d.b26, d.b8),
            Six(d.b16, d.b7, d.b27, d.b20, d.b13, d.b2),
            Six(d.b41, d.b52, d.b31, d.b37, d.b47, d.b55),
            Six(d.b30, d.b40, d.b51, d.b45, d.b33, d.b48),
            Six(d.b44, d.b49, d.b39, d.b56, d.b34, d.b53),
            Six(d.b46, d.b42, d.b50, d.b36, d.b29, d.b32))
  }

  /** Both halves of the key shifted left by one place, cyclically. */
  function ShiftedOnce(d: Bits56): Bits56 {
    Bits56(d.b2, d.b3, d.b4, d.b5, d.b6, d.b7, d.b8,
           d.b9, d.b10, d.b11, d.b12, d.b13, d.b14, d.b15,
           d.b16, d.b17, d.b18, d.b19, d.b20, d.b21, d.b22,
           d.b23, d.b24, d.b25, d.b26, d.b27, d.b28, d.b1,
           d.b30, d.b31, d.b32, d.b33, d.b34, d.b35, d.b36,
           d.b37, d.b38, d.b39, d.b40, d.b41, d.b42, d.b43,
           d.b44, d.b45, d.b46, d.b47, d.b48, d.b49, d.b50,
           d.b51, d.b52, d.b53, d.b54, d.b55, d.b56, d.b29)
  }

  function Shifted(d: Bits56, n: nat): Bits56 {
    if n == 0 then d else ShiftedOnce(Shifted(d, n - 1))
  }

  /** The number of left shifts up to and including a round; the first is round 0. */
  const SHIFTS: seq<nat> := [1, 2, 4, 6, 8, 10, 12, 14, 15, 17, 19, 21, 23, 25, 27, 28]

  function RoundKey(key: Bits64, round: nat): SixBits
    requires round < 16
  {
    PC2(Shifted(PC1(key), SHIFTS[round]))
  }

  /** The sum of eight times six bits. */
  function AddKey(e: SixBits, k: SixBits): SixBits {
    SixBits(Xor(e.x1, k.x1), Xor(e.x2, k.x2), Xor(e.x3, k.x3), Xor(e.x4, k.x4),
            Xor(e.x5, k.x5), Xor(e.x6, k.x6), Xor(e.x7, k.x7), Xor(e.x8, k.x8))
  }

  /** Each six bits select an entry of their S-box. */
  function Select(b: Boxes, e: SixBits): bv32 {
    Xor(LookUp(b.s1, e.x1), Xor(LookUp(b.s2, e.x2), Xor(LookUp(b.s3, e.x3), Xor(LookUp(b.s4, e.x4),
    Xor(LookUp(b.s5, e.x5), Xor(LookUp(b.s6, e.x6), Xor(LookUp(b.s7, e.x7), LookUp(b.s8, e.x8))))))))
  }

  /** The cipher function f: the sums of the expanded half block and the key select the entries.
      The code's tables hold them rotated by one place to the left. */
  function F(b: Boxes, r: bv32, k: SixBits): bv32 {
    RotateRight(Select(b, AddKey(E(WordBits(r)), k)))
  }

  /** The half blocks L0, R0, R1 and so on: each is the one before last plus f of the last. */
  function Half(b: Boxes, keys: seq<SixBits>, l: bv32, r: bv32, i: nat): bv32
    requires i <= |keys| + 1
  {
    if i == 0 then l
    else if i == 1 then r
    else Xor(Half(b, keys, l, r, i - 2), F(b, Half(b, keys, l, r, i - 1), keys[i - 2]))
  }

  /** Sixteen rounds; the last two half blocks are exchanged before the final permutation. */
  function Cipher(b: Boxes, keys: seq<SixBits>, d: Bits64): Bits64
    requires |keys| == 16
  {
    var l, r := FirstWord(IP(d)), SecondWord(IP(d));
    FP(PairBits(Half(b, keys, l, r, 17), Half(b, keys, l, r, 16)))
  }

  /** The round keys in the order of enciphering, and of deciphering. */
  function RoundKeys(key: Bits64): (keys: seq<SixBits>)
    ensures |keys| == 16
    ensures forall r {:trigger keys[r]} :: 0 <= r < 16 ==> keys[r] == RoundKey(key, r)
  {
    seq(16, r requires 0 <= r < 16 => RoundKey(key, r))
  }

  function RoundKeysBack(key: Bits64): (keys: seq<SixBits>)
    ensures |keys| == 16
    ensures forall r {:trigger keys[r]} :: 0 <= r < 16 ==> keys[r] == RoundKeys(key)[15 - r]
  {
    seq(16, r requires 0 <= r < 16 => RoundKeys(key)[15 - r])
  }

  // ---------- Bytes and the initial permutation ----------

  lemma JoinWires(b1: bv8, b2: bv8, b3: bv8, b4: bv8, b5: bv8, b6: bv8, b7: bv8, b8: bv8)
    ensures PairBits(((b1 as bv32) << 24) | ((b2 as bv32) << 16) | ((b3 as bv32) << 8) | (b4 as bv32),
                     ((b5 as bv32) << 24) | ((b6 as bv32) << 16) | ((b7 as bv32) << 8) | (b8 as bv32))
      == ByteBits(b1, b2, b3, b4, b5, b6, b7, b8)
  {
  }

  lemma JoinBits(b1: bv8, b2: bv8, b3: bv8, b4: bv8, b5: bv8, b6: bv8, b7: bv8, b8: bv8, l: bv32, r: bv32)
    requires l == Join(b1, b2, b3, b4) && r == Join(b5, b6, b7, b8)
    ensures PairBits(l, r) == ByteBits(b1, b2, b3, b4, b5, b6, b7, b8)
  {
    JoinWires(b1, b2, b3, b4, b5, b6, b7, b8);
  }

  lemma ReadBits(data: seq<bv8>)
    requires |data| == 8
    ensures PairBits(ReadBlock(data).left, ReadBlock(data).right) == DataBits(data)
  {
    JoinBits(data[0], data[1], data[2], data[3], data[4], data[5], data[6], data[7],
             ReadBlock(data).left, ReadBlock(data).right);
  }

  lemma WordBack(w: bv32)
    ensures w == (Lowest(Bit(w >> 31)) << 31) | (Lowest(Bit(w >> 30)) << 30) | (Lowest(Bit(w >> 29)) << 29)
      | (Lowest(Bit(w >> 28)) << 28) | (Lowest(Bit(w >> 27)) << 27) | (Lowest(Bit(w >> 26)) << 26)
      | (Lowest(Bit(w >> 25)) << 25) | (Lowest(Bit(w >> 24)) << 24) | (Lowest(Bit(w >> 23)) << 23)
      | (Lowest(Bit(w >> 22)) << 22) | (Lowest(Bit(w >> 21)) << 21) | (Lowest(Bit(w >> 20)) << 20)
      | (Lowest(Bit(w >> 19)) << 19) | (Lowest(Bit(w >> 18)) << 18) | (Lowest(Bit(w >> 17)) << 17)
      | (Lowest(Bit(w >> 16)) << 16) | (Lowest(Bit(w >> 15)) << 15) | (Lowest(Bit(w >> 14)) << 14)
      | (Lowest(Bit(w >> 13)) << 13) | (Lowest(Bit(w >> 12)) << 12) | (Lowest(Bit(w >> 11)) << 11)
      | (Lowest(Bit(w >> 10)) << 10) | (Lowest(Bit(w >> 9)) << 9) | (Lowest(Bit(w >> 8)) << 8)
      | (Lowest(Bit(w >> 7)) << 7) | (Lowest(Bit(w >> 6)) << 6) | (Lowest(Bit(w >> 5)) << 5)
      | (Lowest(Bit(w >> 4)) << 4) | (Lowest(Bit(w >> 3)) << 3) | (Lowest(Bit(w >> 2)) << 2)
      | (Lowest(Bit(w >> 1)) << 1) | Lowest(Bit(w))
  {
  }

  lemma FirstBack(l: bv32, r: bv32)
    ensures FirstWord(PairBits(l, r)) == l
  {
    WordBack(l);
  }

  lemma SecondBack(l: bv32, r: bv32)
    ensures SecondWord(PairBits(l, r)) == r
  {
    WordBack(r);
  }

  /** The final permutation of the standard undoes the initial one. */
  lemma FPBack(d: Bits64)
    ensures FP(IP(d)) == d
  {
  }

  /** What each exchange leaves of the two words. */
  lemma Exchange4(l: bv32, r: bv32)
    ensures Exchange(By4, Block(l, r)).left == (l & 0x0f0f_0f0f) | ((r << 4) & 0xf0f0_f0f0)
    ensures Exchange(By4, Block(l, r)).right == (r & 0xf0f0_f0f0) | ((l >> 4) & 0x0f0f_0f0f)
  {
  }

  lemma Exchange16(l: bv32, r: bv32)
    ensures Exchange(By16, Block(l, r)).left == (l & 0x0000_ffff) | ((r << 16) & 0xffff_0000)
    ensures Exchange(By16, Block(l, r)).right == (r & 0xffff_0000) | ((l >> 16) & 0x0000_ffff)
  {
  }

  lemma Exchange2(l: bv32, r: bv32)
    ensures ExchangeRight(By2, Block(l, r)).left == (l & 0xcccc_cccc) | ((r >> 2) & 0x3333_3333)
    ensures ExchangeRight(By2, Block(l, r)).right == (r & 0x3333_3333) | ((l << 2) & 0xcccc_cccc)
  {
  }

  lemma Exchange8(l: bv32, r: bv32)
    ensures ExchangeRight(By8, Block(l, r)).left == (l & 0xff00_ff00) | ((r >> 8) & 0x00ff_00ff)
    ensures ExchangeRight(By8, Block(l, r)).right == (r & 0x00ff_00ff) | ((l << 8) & 0xff00_ff00)
  {
  }

  /** The code keeps both words rotated by one place to the left. */
  lemma Twisted(l: bv32, r: bv32)
    ensures RotateRight(Twist(Block(l, r)).left) == (l & 0x5555_5555) | (((r << 1) | (r >> 31)) & 0xaaaa_aaaa)
  {
  }

  lemma TwistedRight(l: bv32, r: bv32)
    ensures RotateRight(Twist(Block(l, r)).right) == ((r & 0xaaaa_aaaa) | ((l >> 1) & 0x5555_5555))
  {
  }

  /** The four exchanges and the rotation are the table. */
  lemma IPWires(l: bv32, r: bv32)
    ensures
      var l1, r1 := (l & 0x0f0f_0f0f) | ((r << 4) & 0xf0f0_f0f0), (r & 0xf0f0_f0f0) | ((l >> 4) & 0x0f0f_0f0f);
      var l2, r2 := (l1 & 0x0000_ffff) | ((r1 << 16) & 0xffff_0000), (r1 & 0xffff_0000) | ((l1 >> 16) & 0x0000_ffff);
      var l3, r3 := (l2 & 0xcccc_cccc) | ((r2 >> 2) & 0x3333_3333), (r2 & 0x3333_3333) | ((l2 << 2) & 0xcccc_cccc);
      var l4, r4 := (l3 & 0xff00_ff00) | ((r3 >> 8) & 0x00ff_00ff), (r3 & 0x00ff_00ff) | ((l3 << 8) & 0xff00_ff00);
      var l5, r5 := (l4 & 0x5555_5555) | (((r4 << 1) | (r4 >> 31)) & 0xaaaa_aaaa),
                    (r4 & 0xaaaa_aaaa) | ((l4 >> 1) & 0x5555_5555);
      PairBits(l5, r5) == IP(PairBits(l, r))
  {
  }

  /** The same for words that were exchanged one after the other. */
  lemma IPOf(l: bv32, r: bv32, p1: Block, p2: Block, p3: Block, p4: Block, x: bv32, y: bv32)
    requires p1.left == (l & 0x0f0f_0f0f) | ((r << 4) & 0xf0f0_f0f0)
    requires p1.right == (r & 0xf0f0_f0f0) | ((l >> 4) & 0x0f0f_0f0f)
    requires p2.left == (p1.left & 0x0000_ffff) | ((p1.right << 16) & 0xffff_0000)
    requires p2.right == (p1.right & 0xffff_0000) | ((p1.left >> 16) & 0x0000_ffff)
    requires p3.left == (p2.left & 0xcccc_cccc) | ((p2.right >> 2) & 0x3333_3333)
    requires p3.right == (p2.right & 0x3333_3333) | ((p2.left << 2) & 0xcccc_cccc)
    requires p4.left == (p3.left & 0xff00_ff00) | ((p3.right >> 8) & 0x00ff_00ff)
    requires p4.right == (p3.right & 0x00ff_00ff) | ((p3.left << 8) & 0xff00_ff00)
    requires x == (p4.left & 0x5555_5555) | (((p4.right << 1) | (p4.right >> 31)) & 0xaaaa_aaaa)
    requires y == (p4.right & 0xaaaa_aaaa) | ((p4.left >> 1) & 0x5555_5555)
    ensures PairBits(x, y) == IP(PairBits(l, r))
  {
    IPWires(l, r);
  }

  lemma TwistBits(l: bv32, r: bv32, q: Block)
    requires q == Twist(Block(l, r))
    ensures RotateRight(q.left) == (l & 0x5555_5555) | (((r << 1) | (r >> 31)) & 0xaaaa_aaaa)
    ensures RotateRight(q.right) == (r & 0xaaaa_aaaa) | ((l >> 1) & 0x5555_5555)
  {
    Twisted(l, r);
    TwistedRight(l, r);
  }

  /** The permuted words, each rotated back, hold the permuted bits. */
  lemma IPBits(p: Block)
    ensures var q := InitialPermutation(p);
      PairBits(RotateRight(q.left), RotateRight(q.right)) == IP(PairBits(p.left, p.right))
  {
    var p1 := Exchange(By4, p);
    var p2 := Exchange(By16, p1);
    var p3 := ExchangeRight(By2, p2);
    var p4 := ExchangeRight(By8, p3);
    Exchange4(p.left, p.right);
    Exchange16(p1.left, p1.right);
    Exchange2(p2.left, p2.right);
    Exchange8(p3.left, p3.right);
    TwistBits(p4.left, p4.right, InitialPermutation(p));
    IPOf(p.left, p.right, p1, p2, p3, p4, RotateRight(Twist(p4).left), RotateRight(Twist(p4).right));
  }

  // ---------- The expansion ----------

  /** The six bits for each S-box in a pair of words, the even boxes in the first. */
  function BoxesOf(w: bv32, v: bv32): SixBits {
    SixBits((v >> 24) & 0x3f, (w >> 24) & 0x3f, (v >> 16) & 0x3f, (w >> 16) & 0x3f,
            (v >> 8) & 0x3f, (w >> 8) & 0x3f, v & 0x3f, w & 0x3f)
  }

  lemma ExpansionRows1(r: bv32)
    ensures var w := (r << 1) | (r >> 31);
      var v := (w << 28) | (w >> 4);
      Six(Bit(r), Bit(r >> 31), Bit(r >> 30), Bit(r >> 29), Bit(r >> 28), Bit(r >> 27)) == (v >> 24) & 0x3f &&
      Six(Bit(r >> 28), Bit(r >> 27), Bit(r >> 26), Bit(r >> 25), Bit(r >> 24), Bit(r >> 23)) == (w >> 24) & 0x3f
  {
  }

  lemma ExpansionRows2(r: bv32)
    ensures var w := (r << 1) | (r >> 31);
      var v := (w << 28) | (w >> 4);
      Six(Bit(r >> 24), Bit(r >> 23), Bit(r >> 22), Bit(r >> 21), Bit(r >> 20), Bit(r >> 19)) == (v >> 16) & 0x3f &&
      Six(Bit(r >> 20), Bit(r >> 19), Bit(r >> 18), Bit(r >> 17), Bit(r >> 16), Bit(r >> 15)) == (w >> 16) & 0x3f
  {
  }

  lemma ExpansionRows3(r: bv32)
    ensures var w := (r << 1) | (r >> 31);
      var v := (w << 28) | (w >> 4);
      Six(Bit(r >> 16), Bit(r >> 15), Bit(r >> 14), Bit(r >> 13), Bit(r >> 12), Bit(r >> 11)) == (v >> 8) & 0x3f &&
      Six(Bit(r >> 12), Bit(r >> 11), Bit(r >> 10), Bit(r >> 9), Bit(r >> 8), Bit(r >> 7)) == (w >> 8) & 0x3f
  {
  }

  lemma ExpansionRows4(r: bv32)
    ensures var w := (r << 1) | (r >> 31);
      var v := (w << 28) | (w >> 4);
      Six(Bit(r >> 8), Bit(r >> 7), Bit(r >> 6), Bit(r >> 5), Bit(r >> 4), Bit(r >> 3)) == v & 0x3f &&
      Six(Bit(r >> 4), Bit(r >> 3), Bit(r >> 2), Bit(r >> 1), Bit(r), Bit(r >> 31)) == w & 0x3f
  {
  }

  /** The words that the tables are looked up with hold the expanded half block. */
  lemma ExpansionBits(r: bv32)
    ensures var w := (r << 1) | (r >> 31);
      E(WordBits(r)) == BoxesOf(w, (w << 28) | (w >> 4))
  {
    ExpansionRows1(r);
    ExpansionRows2(r);
    ExpansionRows3(r);
    ExpansionRows4(r);
  }

  // ---------- The key schedule ----------

  /** The halves of the key are the low 28 bits of two words. */
  function KeyBits(c: bv32, d: bv32): Bits56 {
    Bits56(Bit(c >> 27), Bit(c >> 26), Bit(c >> 25), Bit(c >> 24), Bit(c >> 23), Bit(c >> 22), Bit(c >> 21),
           Bit(c >> 20), Bit(c >> 19), Bit(c >> 18), Bit(c >> 17), Bit(c >> 16), Bit(c >> 15), Bit(c >> 14),
           Bit(c >> 13), Bit(c >> 12), Bit(c >> 11), Bit(c >> 10), Bit(c >> 9), Bit(c >> 8), Bit(c >> 7),
           Bit(c >> 6), Bit(c >> 5), Bit(c >> 4), Bit(c >> 3), Bit(c >> 2), Bit(c >> 1), Bit(c),
           Bit(d >> 27), Bit(d >> 26), Bit(d >> 25), Bit(d >> 24), Bit(d >> 23), Bit(d >> 22), Bit(d >> 21),
           Bit(d >> 20), Bit(d >> 19), Bit(d >> 18), Bit(d >> 17), Bit(d >> 16), Bit(d >> 15), Bit(d >> 14),
           Bit(d >> 13), Bit(d >> 12), Bit(d >> 11), Bit(d >> 10), Bit(d >> 9), Bit(d >> 8), Bit(d >> 7),
           Bit(d >> 6), Bit(d >> 5), Bit(d >> 4), Bit(d >> 3), Bit(d >> 2), Bit(d >> 1), Bit(d))
  }

  lemma ShiftBits(c: bv32, d: bv32)
    requires c & 0x0fff_ffff == c && d & 0x0fff_ffff == d
    ensures KeyBits(((c << 1) | (c >> 27)) & 0x0fff_ffff, ((d << 1) | (d >> 27)) & 0x0fff_ffff) ==
      ShiftedOnce(KeyBits(c, d))
  {
  }

  lemma ShiftBitsTwice(c: bv32, d: bv32)
    requires c & 0x0fff_ffff == c && d & 0x0fff_ffff == d
    ensures KeyBits(((c << 2) | (c >> 26)) & 0x0fff_ffff, ((d << 2) | (d >> 26)) & 0x0fff_ffff) ==
      ShiftedOnce(ShiftedOnce(KeyBits(c, d)))
  {
  }

  lemma PC1Wires(l: bv32, r: bv32)
    ensures KeyBits(LeftHalf((l & 0xe0e0_e0e0) | ((r >> 4) & 0x0f0f_0f0f)),
                    RightHalf((r & 0x0e0e_0e0e) | ((l << 4) & 0xe0e0_e0e0) | (l & 0x1010_1010))) == PC1(PairBits(l, r))
  {
  }

  lemma PC2Wires(c: bv32, d: bv32)
    ensures BoxesOf(Subkey0(c, d), Subkey1(c, d)) == PC2(KeyBits(c, d))
  {
  }

  /** The words after the two exchanges, but for the bits that the half keys leave out. */
  lemma KeyExchange4(l: bv32, r: bv32)
    ensures ExchangeRight(By4, Block(l, r)).left == (l & 0xf0f0_f0f0) | ((r >> 4) & 0x0f0f_0f0f)
    ensures ExchangeRight(By4, Block(l, r)).right == (r & 0x0f0f_0f0f) | ((l << 4) & 0xf0f0_f0f0)
  {
  }

  lemma KeyExchange0(l: bv32, r: bv32)
    ensures AgreeBut4(ExchangeRight(By0, Block(l, r)).left, l)
    ensures ExchangeRight(By0, Block(l, r)).right == (r & 0xefef_efef) | (l & 0x1010_1010)
  {
  }

  lemma KeyWords(l: bv32, r: bv32, x: bv32, y: bv32)
    requires x == (l & 0xf0f0_f0f0) | ((r >> 4) & 0x0f0f_0f0f) && y == (r & 0x0f0f_0f0f) | ((l << 4) & 0xf0f0_f0f0)
    ensures x & 0xefef_efef == ((l & 0xe0e0_e0e0) | ((r >> 4) & 0x0f0f_0f0f)) & 0xefef_efef
    ensures ((y & 0xefef_efef) | (x & 0x1010_1010)) & 0xfefe_fefe ==
      ((r & 0x0e0e_0e0e) | ((l << 4) & 0xe0e0_e0e0) | (l & 0x1010_1010)) & 0xfefe_fefe
  {
  }

  lemma ExchangedWords(p: Block)
    ensures AgreeBut4(ExchangedKey(p).left, (p.left & 0xe0e0_e0e0) | ((p.right >> 4) & 0x0f0f_0f0f))
    ensures AgreeBut0(ExchangedKey(p).right,
                      (p.right & 0x0e0e_0e0e) | ((p.left << 4) & 0xe0e0_e0e0) | (p.left & 0x1010_1010))
  {
    var q := ExchangeRight(By4, p);
    KeyExchange4(p.left, p.right);
    KeyExchange0(q.left, q.right);
    KeyWords(p.left, p.right, q.left, q.right);
  }

  lemma PC1Of(l: bv32, r: bv32, x: bv32, y: bv32)
    requires AgreeBut4(x, (l & 0xe0e0_e0e0) | ((r >> 4) & 0x0f0f_0f0f))
    requires AgreeBut0(y, (r & 0x0e0e_0e0e) | ((l << 4) & 0xe0e0_e0e0) | (l & 0x1010_1010))
    ensures KeyBits(LeftHalf(x), RightHalf(y)) == PC1(PairBits(l, r))
  {
    LeftHalfUses(x, (l & 0xe0e0_e0e0) | ((r >> 4) & 0x0f0f_0f0f));
    RightHalfUses(y, (r & 0x0e0e_0e0e) | ((l << 4) & 0xe0e0_e0e0) | (l & 0x1010_1010));
    PC1Wires(l, r);
  }

  /** The half keys hold the bits that permuted choice 1 selects. */
  lemma PC1Bits(p: Block)
    ensures KeyBits(LeftHalf(ExchangedKey(p).left), RightHalf(ExchangedKey(p).right)) == PC1(PairBits(p.left, p.right))
  {
    ExchangedWords(p);
    PC1Of(p.left, p.right, ExchangedKey(p).left, ExchangedKey(p).right);
  }

  lemma KeyHalvesBits(key: seq<bv8>)
    requires |key| == 8
    ensures KeyBits(HalfKeys(key).left, HalfKeys(key).right) == PC1(DataBits(key))
    ensures IsHalf(HalfKeys(key).left) && IsHalf(HalfKeys(key).right)
  {
    PC1Bits(ReadBlock(key));
    ReadBits(key);
    LeftHalfClips(ExchangedKey(ReadBlock(key)).left);
    RightHalfClips(ExchangedKey(ReadBlock(key)).right);
  }

  predicate IsHalf(x: bv32) {
    Clip(x) == x
  }

  lemma RotatedOnce(c: bv32, d: bv32, x: bv32, y: bv32)
    requires IsHalf(c) && IsHalf(d) && x == Rotate28By1(c) && y == Rotate28By1(d)
    ensures KeyBits(x, y) == ShiftedOnce(KeyBits(c, d))
  {
    ShiftBits(c, d);
  }

  lemma RotatedTwice(c: bv32, d: bv32, x: bv32, y: bv32)
    requires IsHalf(c) && IsHalf(d) && x == Rotate28By2(c) && y == Rotate28By2(d)
    ensures KeyBits(x, y) == ShiftedOnce(ShiftedOnce(KeyBits(c, d)))
  {
    ShiftBitsTwice(c, d);
  }

  lemma ShiftedFew(b: Bits56, n: nat)
    ensures n == 1 ==> Shifted(b, n) == ShiftedOnce(b)
    ensures n == 2 ==> Shifted(b, n) == ShiftedOnce(ShiftedOnce(b))
  {
    if n == 2 {
      assert Shifted(b, 1) == ShiftedOnce(Shifted(b, 0));
    }
  }

  /** One round's rotation of both halves. */
  lemma RotatedBits(c: bv32, d: bv32, n: nat, x: bv32, y: bv32)
    requires IsHalf(c) && IsHalf(d) && (n == 1 || n == 2) && x == Rotate28(c, n) && y == Rotate28(d, n)
    ensures KeyBits(x, y) == Shifted(KeyBits(c, d), n)
  {
    ShiftedFew(KeyBits(c, d), n);
    if n == 1 {
      RotatedOnce(c, d, x, y);
    } else {
      RotatedTwice(c, d, x, y);
    }
  }

  lemma RotatedIsHalf(c: bv32, n: nat, x: bv32)
    requires x == Rotate28(c, n)
    ensures IsHalf(x)
  {
    Rotate28By1Clips(c);
    Rotate28By2Clips(c);
  }

  lemma {:induction false} ShiftedAgain(d: Bits56, m: nat, n: nat)
    ensures Shifted(Shifted(d, m), n) == Shifted(d, m + n)
  {
    if n > 0 {
      ShiftedAgain(d, m, n - 1);
    }
  }

  /** The shifts before a round. */
  function Before(round: nat): nat
    requires round <= 16
  {
    if round == 0 then 0 else SHIFTS[round - 1]
  }

  lemma ShiftsAddUp(round: nat)
    requires round < 16
    ensures Before(round + 1) == Before(round) + ROTATIONS[round] && (ROTATIONS[round] == 1 || ROTATIONS[round] == 2)
  {
  }

  lemma HalfNext(c: bv32, i: nat)
    requires i < 16
    ensures HalfAfter(c, i + 1) == Rotate28(HalfAfter(c, i), ROTATIONS[i])
  {
  }

  /** One round of the key schedule, from halves shifted by `m` places. */
  lemma HalvesStep(k: Bits56, c: bv32, d: bv32, m: nat, n: nat, x: bv32, y: bv32)
    requires IsHalf(c) && IsHalf(d) && KeyBits(c, d) == Shifted(k, m)
    requires (n == 1 || n == 2) && x == Rotate28(c, n) && y == Rotate28(d, n)
    ensures KeyBits(x, y) == Shifted(k, m + n) && IsHalf(x) && IsHalf(y)
  {
    RotatedBits(c, d, n, x, y);
    RotatedIsHalf(c, n, x);
    RotatedIsHalf(d, n, y);
    ShiftedAgain(k, m, n);
  }

  lemma HalvesNext(k: Bits56, c: bv32, d: bv32, i: nat, x: bv32, y: bv32)
    requires 0 < i <= 16 && x == HalfAfter(c, i - 1) && y == HalfAfter(d, i - 1)
    requires IsHalf(x) && IsHalf(y) && KeyBits(x, y) == Shifted(k, Before(i - 1))
    ensures KeyBits(HalfAfter(c, i), HalfAfter(d, i)) == Shifted(k, Before(i))
    ensures IsHalf(HalfAfter(c, i)) && IsHalf(HalfAfter(d, i))
  {
    ShiftsAddUp(i - 1);
    HalfNext(c, i - 1);
    HalfNext(d, i - 1);
    HalvesStep(k, x, y, Before(i - 1), ROTATIONS[i - 1], HalfAfter(c, i), HalfAfter(d, i));
  }

  /** After some rounds of the key schedule the halves are shifted by the table's places. */
  lemma {:induction false} HalvesShift(k: Bits56, c: bv32, d: bv32, i: nat)
    requires IsHalf(c) && IsHalf(d) && k == KeyBits(c, d) && i <= 16
    ensures KeyBits(HalfAfter(c, i), HalfAfter(d, i)) == Shifted(k, Before(i))
    ensures IsHalf(HalfAfter(c, i)) && IsHalf(HalfAfter(d, i))
  {
    if i > 0 {
      HalvesShift(k, c, d, i - 1);
      HalvesNext(k, c, d, i, HalfAfter(c, i - 1), HalfAfter(d, i - 1));
    }
  }

  lemma NothingElse(c: bv32, d: bv32)
    ensures Subkey0(c, d) & 0xc0c0_c0c0 == 0 && Subkey1(c, d) & 0xc0c0_c0c0 == 0
  {
  }

  /** Every pair of subkeys holds the round key of the standard, and nothing else. */
  lemma ScheduleIsStandard(key: seq<bv8>, round: nat)
    requires |key| == 8 && round < 16
    ensures var k0, k1 := Schedule(key)[2 * round], Schedule(key)[2 * round + 1];
      && BoxesOf(k0, k1) == RoundKey(DataBits(key), round)
      && k0 & 0xc0c0_c0c0 == 0 && k1 & 0xc0c0_c0c0 == 0
  {
    var h := HalfKeys(key);
    var c, d := HalfAfter(h.left, round + 1), HalfAfter(h.right, round + 1);
    KeyHalvesBits(key);
    HalvesShift(KeyBits(h.left, h.right), h.left, h.right, round + 1);
    ScheduleRound(key, round, c, d);
    PC2Wires(c, d);
    NothingElse(c, d);
  }

  // ---------- The rounds ----------

  lemma SixSum(w: bv32, k: bv32)
    ensures Six24(Xor(w, k)) == Xor((w >> 24) & 0x3f, (k >> 24) & 0x3f)
    ensures Six16(Xor(w, k)) == Xor((w >> 16) & 0x3f, (k >> 16) & 0x3f)
    ensures Six8(Xor(w, k)) == Xor((w >> 8) & 0x3f, (k >> 8) & 0x3f)
    ensures Six0(Xor(w, k)) == Xor(w & 0x3f, k & 0x3f)
  {
  }

  lemma SwapFour(x: bv32, p: bv32, y: bv32, q: bv32)
    ensures Xor(Xor(x, p), Xor(y, q)) == Xor(Xor(p, q), Xor(y, x))
  {
    XorComm(x, p);
    XorAssoc(p, x, Xor(y, q));
    XorAssoc(x, y, q);
    XorComm(Xor(x, y), q);
    XorAssoc(p, q, Xor(x, y));
    XorComm(x, y);
  }

  lemma FourPairs(a: bv32, b: bv32, c: bv32, d: bv32)
    ensures Xor(Xor(Xor(a, b), c), d) == Xor(a, Xor(b, Xor(c, d)))
  {
    XorAssoc(Xor(a, b), c, d);
    XorAssoc(a, b, Xor(c, d));
  }

  /** The even and the odd entries, added from the last to the first, have the sum of all eight. */
  lemma EightSum(a1: bv32, a2: bv32, a3: bv32, a4: bv32, a5: bv32, a6: bv32, a7: bv32, a8: bv32)
    ensures Xor(Xor(a8, Xor(a6, Xor(a4, a2))), Xor(a7, Xor(a5, Xor(a3, a1)))) ==
      Xor(a1, Xor(a2, Xor(a3, Xor(a4, Xor(a5, Xor(a6, Xor(a7, a8)))))))
  {
    SwapFour(a8, Xor(a6, Xor(a4, a2)), a7, Xor(a5, Xor(a3, a1)));
    SwapFour(a6, Xor(a4, a2), a5, Xor(a3, a1));
    SwapFour(a4, a2, a3, a1);
    XorComm(a1, a2);
    FourPairs(Xor(a1, a2), Xor(a3, a4), Xor(a5, a6), Xor(a7, a8));
    XorAssoc(a5, a6, Xor(a7, a8));
    XorAssoc(a3, a4, Xor(a5, Xor(a6, Xor(a7, a8))));
    XorAssoc(a1, a2, Xor(a3, Xor(a4, Xor(a5, Xor(a6, Xor(a7, a8))))));
  }

  lemma SumBoxes(w: bv32, v: bv32, k0: bv32, k1: bv32)
    ensures BoxesOf(Xor(w, k0), Xor(v, k1)) == AddKey(BoxesOf(w, v), BoxesOf(k0, k1))
  {
    SixSum(w, k0);
    SixSum(v, k1);
  }

  lemma SelectBoth(b: Boxes, w: bv32, v: bv32)
    ensures Xor(EvenBoxes(b, w), OddBoxes(b, v)) == Select(b, BoxesOf(w, v))
  {
    EightSum(LookUp(b.s1, Six24(v)), LookUp(b.s2, Six24(w)), LookUp(b.s3, Six16(v)), LookUp(b.s4, Six16(w)),
             LookUp(b.s5, Six8(v)), LookUp(b.s6, Six8(w)), LookUp(b.s7, Six0(v)), LookUp(b.s8, Six0(w)));
  }

  lemma RotateSum(x: bv32, y: bv32)
    ensures RotateLeft(Xor(x, y)) == Xor(RotateLeft(x), RotateLeft(y))
  {
  }

  lemma RoundOf(b: Boxes, w: bv32, k0: bv32, k1: bv32, e: SixBits)
    requires e == BoxesOf(w, Rotate4(w))
    ensures RoundFunction(b, w, k0, k1) == Select(b, AddKey(e, BoxesOf(k0, k1)))
  {
    SumBoxes(w, Rotate4(w), k0, k1);
    SelectBoth(b, Xor(w, k0), Xor(Rotate4(w), k1));
  }

  lemma RotateLeftIs(r: bv32)
    ensures RotateLeft(r) == (r << 1) | (r >> 31)
  {
  }

  lemma Rotate4Is(w: bv32)
    ensures Rotate4(w) == (w << 28) | (w >> 4)
  {
  }

  lemma ExpansionOfWords(r: bv32, w: bv32, v: bv32)
    requires w == (r << 1) | (r >> 31) && v == (w << 28) | (w >> 4)
    ensures E(WordBits(r)) == BoxesOf(w, v)
  {
    ExpansionBits(r);
  }

  lemma ExpansionOf(r: bv32, w: bv32, v: bv32)
    requires w == RotateLeft(r) && v == Rotate4(w)
    ensures E(WordBits(r)) == BoxesOf(w, v)
  {
    RotateLeftIs(r);
    Rotate4Is(w);
    ExpansionOfWords(r, w, v);
  }

  /** A round adds f of the half block, all words rotated. */
  lemma RoundIsStandard(b: Boxes, r: bv32, k0: bv32, k1: bv32)
    ensures RoundFunction(b, RotateLeft(r), k0, k1) == RotateLeft(F(b, r, BoxesOf(k0, k1)))
  {
    ExpansionOf(r, RotateLeft(r), Rotate4(RotateLeft(r)));
    RoundOf(b, RotateLeft(r), k0, k1, E(WordBits(r)));
    RotateBack(Select(b, AddKey(E(WordBits(r)), BoxesOf(k0, k1))));
  }

  /** The pairs of subkeys hold the round keys. */
  predicate Matching(subkeys: seq<bv32>, keys: seq<SixBits>) {
    && |subkeys| == 32 && |keys| == 16
    && forall r {:trigger keys[r]} :: 0 <= r < 16 ==> BoxesOf(subkeys[2 * r], subkeys[2 * r + 1]) == keys[r]
  }

  lemma NextHalf(b: Boxes, keys: seq<SixBits>, l: bv32, r: bv32, j: nat, x: bv32, y: bv32, k: SixBits)
    requires j + 1 <= |keys| && x == Half(b, keys, l, r, j) && y == Half(b, keys, l, r, j + 1) && k == keys[j]
    ensures Half(b, keys, l, r, j + 2) == Xor(x, F(b, y, k))
  {
  }

  lemma RoundAdds(b: Boxes, x: bv32, y: bv32, k0: bv32, k1: bv32, k: SixBits)
    requires BoxesOf(k0, k1) == k
    ensures Xor(RotateLeft(x), RoundFunction(b, RotateLeft(y), k0, k1)) == RotateLeft(Xor(x, F(b, y, k)))
  {
    RoundIsStandard(b, y, k0, k1);
    RotateSum(x, F(b, y, k));
  }

  lemma PairMatches(subkeys: seq<bv32>, keys: seq<SixBits>, j: nat)
    requires Matching(subkeys, keys) && j < 16
    ensures BoxesOf(subkeys[2 * j], subkeys[2 * j + 1]) == keys[j]
  {
    assert keys[j] == keys[j];
  }

  lemma WordStart(b: Boxes, subkeys: seq<bv32>, keys: seq<SixBits>, p: Block, l: bv32, r: bv32)
    ensures Word(b, subkeys, p, 0) == p.left && Half(b, keys, l, r, 0) == l
    ensures Word(b, subkeys, p, 1) == p.right && Half(b, keys, l, r, 1) == r
  {
  }

  lemma WordStep(b: Boxes, subkeys: seq<bv32>, keys: seq<SixBits>, p: Block, l: bv32, r: bv32, i: nat,
                 x: bv32, y: bv32)
    requires Matching(subkeys, keys) && 2 <= i <= 17
    requires x == Half(b, keys, l, r, i - 2) && Word(b, subkeys, p, i - 2) == RotateLeft(x)
    requires y == Half(b, keys, l, r, i - 1) && Word(b, subkeys, p, i - 1) == RotateLeft(y)
    ensures Word(b, subkeys, p, i) == RotateLeft(Half(b, keys, l, r, i))
  {
    var j := i - 2;
    var k0, k1, k := subkeys[2 * j], subkeys[2 * j + 1], keys[j];
    WordNext(b, subkeys, p, j, RotateLeft(x), RotateLeft(y), k0, k1);
    NextHalf(b, keys, l, r, j, x, y, k);
    PairMatches(subkeys, keys, j);
    RoundAdds(b, x, y, k0, k1, k);
  }

  /** The words of the rounds are the half blocks of the standard, rotated. */
  lemma {:induction false} WordsAreHalves(b: Boxes, subkeys: seq<bv32>, keys: seq<SixBits>, p: Block, l: bv32, r: bv32,
                                          i: nat)
    requires Matching(subkeys, keys) && i <= 17
    requires p.left == RotateLeft(l) && p.right == RotateLeft(r)
    ensures Word(b, subkeys, p, i) == RotateLeft(Half(b, keys, l, r, i))
  {
    if i < 2 {
      WordStart(b, subkeys, keys, p, l, r);
    } else {
      WordsAreHalves(b, subkeys, keys, p, l, r, i - 2);
      WordsAreHalves(b, subkeys, keys, p, l, r, i - 1);
      WordStep(b, subkeys, keys, p, l, r, i, Half(b, keys, l, r, i - 2), Half(b, keys, l, r, i - 1));
    }
  }

  lemma StartWords(data: seq<bv8>, p: Block)
    requires |data| == 8 && p == InitialPermutation(ReadBlock(data))
    ensures p.left == RotateLeft(FirstWord(IP(DataBits(data)))) && p.right == RotateLeft(SecondWord(IP(DataBits(data))))
  {
    IPBits(ReadBlock(data));
    ReadBits(data);
    FirstBack(RotateRight(p.left), RotateRight(p.right));
    SecondBack(RotateRight(p.left), RotateRight(p.right));
    RotateBack(p.left);
    RotateBack(p.right);
  }

  /** With subkeys that hold the round keys the code computes the cipher of the standard. */
  lemma CryptIsStandard(b: Boxes, subkeys: seq<bv32>, keys: seq<SixBits>, data: seq<bv8>)
    requires Matching(subkeys, keys) && |data| == 8
    ensures DataBits(Crypt(b, subkeys, data)) == Cipher(b, keys, DataBits(data))
  {
    var p, d := InitialPermutation(ReadBlock(data)), DataBits(data);
    var q := Sixteen(b, subkeys, p);
    var c := Crypt(b, subkeys, data);
    var l, r := FirstWord(IP(d)), SecondWord(IP(d));
    StartWords(data, p);
    WordsAreHalves(b, subkeys, keys, p, l, r, 17);
    WordsAreHalves(b, subkeys, keys, p, l, r, 16);
    ReadWrite(FinalPermutation(q), data);
    PermutationsInvert(q);
    IPBits(ReadBlock(c));
    ReadBits(c);
    RotateBack(Half(b, keys, l, r, 17));
    RotateBack(Half(b, keys, l, r, 16));
    FPBack(DataBits(c));
  }

  lemma KeysMatch(key: seq<bv8>)
    requires |key| == 8
    ensures Matching(Schedule(key), RoundKeys(DataBits(key)))
  {
    forall r {:trigger RoundKeys(DataBits(key))[r]} | 0 <= r < 16
      ensures BoxesOf(Schedule(key)[2 * r], Schedule(key)[2 * r + 1]) == RoundKeys(DataBits(key))[r]
    {
      ScheduleIsStandard(key, r);
    }
  }

  lemma BackPair(subkeys: seq<bv32>, keys: seq<SixBits>, r: nat, m: nat)
    requires Matching(subkeys, keys) && r + m == 15
    ensures BoxesOf(ReversedKeys(subkeys)[2 * r], ReversedKeys(subkeys)[2 * r + 1]) == keys[m]
  {
    ReversedPair(subkeys, r, m);
  }

  lemma MatchingBack(subkeys: seq<bv32>, keys: seq<SixBits>, back: seq<SixBits>)
    requires Matching(subkeys, keys) && |back| == 16
    requires forall r {:trigger back[r]} :: 0 <= r < 16 ==> back[r] == keys[15 - r]
    ensures Matching(ReversedKeys(subkeys), back)
  {
    forall r {:trigger back[r]} | 0 <= r < 16
      ensures BoxesOf(ReversedKeys(subkeys)[2 * r], ReversedKeys(subkeys)[2 * r + 1]) == back[r]
    {
      BackPair(subkeys, keys, r, 15 - r);
    }
  }

  lemma KeysMatchBack(key: seq<bv8>)
    requires |key| == 8
    ensures Matching(ReversedKeys(Schedule(key)), RoundKeysBack(DataBits(key)))
  {
    KeysMatch(key);
    MatchingBack(Schedule(key), RoundKeys(DataBits(key)), RoundKeysBack(DataBits(key)));
  }

  /** Encryption is the cipher of the standard, for every key, block and content of the S-boxes. */
  lemma EncryptIsStandard(b: Boxes, key: seq<bv8>, data: seq<bv8>)
    requires |key| == 8 && |data| == 8
    ensures DataBits(Encrypt(b, key, data)) == Cipher(b, RoundKeys(DataBits(key)), DataBits(data))
  {
    KeysMatch(key);
    CryptIsStandard(b, Schedule(key), RoundKeys(DataBits(key)), data);
  }

  /** Decryption takes the round keys in reverse order. */
  lemma DecryptIsStandard(b: Boxes, key: seq<bv8>, data: seq<bv8>)
    requires |key| == 8 && |data| == 8
    ensures DataBits(Decrypt(b, key, data)) == Cipher(b, RoundKeysBack(DataBits(key)), DataBits(data))
  {
    KeysMatchBack(key);
    CryptIsStandard(b, ReversedKeys(Schedule(key)), RoundKeysBack(DataBits(key)), data);
  }

  /** Triple-DES enciphers with the third key what is deciphered with the second from what is
      enciphered with the first; in the other direction the keys are taken in reverse order. */
  lemma TripleIsStandard(b: Boxes, key1: seq<bv8>, key2: seq<bv8>, key3: seq<bv8>, data: seq<bv8>)
    requires IsBytes8(key1) && IsBytes8(key2) && IsBytes8(key3) && IsBytes8(data)
    ensures DataBits(TripleCrypt(b, EncryptKeys(key1, key2, key3), data)) ==
      Cipher(b, RoundKeys(DataBits(key3)),
             Cipher(b, RoundKeysBack(DataBits(key2)), Cipher(b, RoundKeys(DataBits(key1)), DataBits(data))))
    ensures DataBits(TripleCrypt(b, DecryptKeys(key1, key2, key3), data)) ==
      Cipher(b, RoundKeysBack(DataBits(key1)),
             Cipher(b, RoundKeys(DataBits(key2)), Cipher(b, RoundKeysBack(DataBits(key3)), DataBits(data))))
  {
    TripleIsEDE(b, key1, key2, key3, data);
    EncryptIsStandard(b, key1, data);
    DecryptIsStandard(b, key2, Encrypt(b, key1, data));
    EncryptIsStandard(b, key3, Decrypt(b, key2, Encrypt(b, key1, data)));
    DecryptIsStandard(b, key3, data);
    EncryptIsStandard(b, key2, Decrypt(b, key3, data));
    DecryptIsStandard(b, key1, Encrypt(b, key2, Decrypt(b, key3, data)));
  }

  /** Two blocks with the same bits are the same. */
  lemma BitsDetermineBytes(x: seq<bv8>, y: seq<bv8>)
    requires |x| == 8 && |y| == 8 && DataBits(x) == DataBits(y)
    ensures x == y
  {
    ReadBits(x);
    ReadBits(y);
    FirstBack(ReadBlock(x).left, ReadBlock(x).right);
    FirstBack(ReadBlock(y).left, ReadBlock(y).right);
    SecondBack(ReadBlock(x).left, ReadBlock(x).right);
    SecondBack(ReadBlock(y).left, ReadBlock(y).right);
    ReadWrite(ReadBlock(x), x);
    ReadWrite(ReadBlock(y), y);
  }
}
