/** DES and Triple-DES of benchmark/des.c.  Every result holds for any contents of the eight
    S-box tables. */
module Des {

  // ---------- Words ----------

  function Xor(x: bv32, y: bv32): bv32 {
    x ^ y
  }

  function Not(x: bv32): bv32 {
    x ^ 0xffff_ffff
  }

  lemma XorTwice(x: bv32, t: bv32)
    ensures Xor(Xor(x, t), t) == x
  {
  }

  lemma XorComm(x: bv32, y: bv32)
    ensures Xor(x, y) == Xor(y, x)
  {
  }

  lemma XorRegroup(x: bv32, y: bv32, z: bv32)
    ensures Xor(x ^ y, z) == Xor(x, y ^ z)
  {
  }

  lemma XorAssoc(x: bv32, y: bv32, z: bv32)
    ensures Xor(Xor(x, y), z) == Xor(x, Xor(y, z))
  {
    XorRegroup(x, y, z);
  }

  lemma XorBoth(x: bv32, y: bv32, t: bv32)
    ensures Xor(Xor(x, t), Xor(y, t)) == Xor(x, y)
  {
    XorComm(y, t);
    XorAssoc(x, t, Xor(t, y));
    XorTwice(y, t);
    XorComm(t, Xor(y, t));
  }

  lemma NotXor(x: bv32, y: bv32)
    ensures Xor(Not(x), y) == Not(Xor(x, y))
  {
  }

  /** Two words, as the code's `left` and `right`. */
  datatype Block = Block(left: bv32, right: bv32)

  function NotBlock(p: Block): Block {
    Block(Not(p.left), Not(p.right))
  }

  // ---------- Exchanging bits between two words ----------

  /** The uses of DO_PERMUTATION, named by their offset. */
  datatype Kind = By0 | By2 | By4 | By8 | By16

  function Down(k: Kind, x: bv32): bv32 {
    match k
    case By0 => x
    case By2 => x >> 2
    case By4 => x >> 4
    case By8 => x >> 8
    case By16 => x >> 16
  }

  function Up(k: Kind, x: bv32): bv32 {
    match k
    case By0 => x
    case By2 => x << 2
    case By4 => x << 4
    case By8 => x << 8
    case By16 => x << 16
  }

  function Masked(k: Kind, x: bv32): bv32 {
    match k
    case By0 => x & 0x1010_1010
    case By2 => x & 0x3333_3333
    case By4 => x & 0x0f0f_0f0f
    case By8 => x & 0x00ff_00ff
    case By16 => x & 0x0000_ffff
  }

  /** The bits in which the two words differ, of those to be exchanged. */
  function Temp(k: Kind, a: bv32, b: bv32): bv32 {
    Masked(k, Xor(Down(k, a), b))
  }

  /** DO_PERMUTATION with the left word first. */
  function Exchange(k: Kind, p: Block): Block {
    var t := Temp(k, p.left, p.right);
    Block(Xor(p.left, Up(k, t)), Xor(p.right, t))
  }

  /** DO_PERMUTATION with the right word first. */
  function ExchangeRight(k: Kind, p: Block): Block {
    var t := Temp(k, p.right, p.left);
    Block(Xor(p.left, t), Xor(p.right, Up(k, t)))
  }

  lemma DownXor0(x: bv32, y: bv32)
    ensures Down(By0, Xor(x, y)) == Xor(Down(By0, x), Down(By0, y))
  {
  }

  lemma DownXor2(x: bv32, y: bv32)
    ensures Down(By2, Xor(x, y)) == Xor(Down(By2, x), Down(By2, y))
  {
  }

  lemma DownXor4(x: bv32, y: bv32)
    ensures Down(By4, Xor(x, y)) == Xor(Down(By4, x), Down(By4, y))
  {
  }

  lemma DownXor8(x: bv32, y: bv32)
    ensures Down(By8, Xor(x, y)) == Xor(Down(By8, x), Down(By8, y))
  {
  }

  lemma DownXor16(x: bv32, y: bv32)
    ensures Down(By16, Xor(x, y)) == Xor(Down(By16, x), Down(By16, y))
  {
  }

  lemma DownXor(k: Kind, x: bv32, y: bv32)
    ensures Down(k, Xor(x, y)) == Xor(Down(k, x), Down(k, y))
  {
    match k
    case By0 => DownXor0(x, y);
    case By2 => DownXor2(x, y);
    case By4 => DownXor4(x, y);
    case By8 => DownXor8(x, y);
    case By16 => DownXor16(x, y);
  }

  lemma DownUp0(x: bv32)
    ensures Down(By0, Up(By0, Masked(By0, x))) == Masked(By0, x)
  {
  }

  lemma DownUp2(x: bv32)
    ensures Down(By2, Up(By2, Masked(By2, x))) == Masked(By2, x)
  {
  }

  lemma DownUp4(x: bv32)
    ensures Down(By4, Up(By4, Masked(By4, x))) == Masked(By4, x)
  {
  }

  lemma DownUp8(x: bv32)
    ensures Down(By8, Up(By8, Masked(By8, x))) == Masked(By8, x)
  {
  }

  lemma DownUp16(x: bv32)
    ensures Down(By16, Up(By16, Masked(By16, x))) == Masked(By16, x)
  {
  }

  /** The masks leave room for the shift. */
  lemma DownUp(k: Kind, x: bv32)
    ensures Down(k, Up(k, Masked(k, x))) == Masked(k, x)
  {
    match k
    case By0 => DownUp0(x);
    case By2 => DownUp2(x);
    case By4 => DownUp4(x);
    case By8 => DownUp8(x);
    case By16 => DownUp16(x);
  }

  lemma TempStays(k: Kind, a: bv32, b: bv32, t: bv32)
    requires t == Temp(k, a, b)
    ensures Temp(k, Xor(a, Up(k, t)), Xor(b, t)) == t
  {
    DownXor(k, a, Up(k, t));
    DownUp(k, Xor(Down(k, a), b));
    XorBoth(Down(k, a), b, t);
  }

  /** Exchanging twice restores both words. */
  lemma ExchangeTwice(k: Kind, p: Block)
    ensures Exchange(k, Exchange(k, p)) == p && ExchangeRight(k, ExchangeRight(k, p)) == p
  {
    var t, u := Temp(k, p.left, p.right), Temp(k, p.right, p.left);
    TempStays(k, p.left, p.right, t);
    XorTwice(p.left, Up(k, t));
    XorTwice(p.right, t);
    TempStays(k, p.right, p.left, u);
    XorTwice(p.right, Up(k, u));
    XorTwice(p.left, u);
  }

  // ---------- Initial and final permutation ----------

  function RotateLeft(x: bv32): bv32 {
    (x << 1) | (x >> 31)
  }

  function RotateRight(x: bv32): bv32 {
    (x << 31) | (x >> 1)
  }

  function OddBits(x: bv32): bv32 {
    x & 0xaaaa_aaaa
  }

  /** The last lines of INITIAL_PERMUTATION: rotate, and exchange the odd bits. */
  function Twist(p: Block): Block {
    var r := RotateLeft(p.right);
    var t := OddBits(Xor(p.left, r));
    Block(RotateLeft(Xor(p.left, t)), Xor(r, t))
  }

  /** The first lines of FINAL_PERMUTATION. */
  function Untwist(p: Block): Block {
    var l := RotateRight(p.left);
    var t := OddBits(Xor(l, p.right));
    Block(Xor(l, t), RotateRight(Xor(p.right, t)))
  }

  function InitialPermutation(p: Block): Block {
    Twist(ExchangeRight(By8, ExchangeRight(By2, Exchange(By16, Exchange(By4, p)))))
  }

  function FinalPermutation(p: Block): Block {
    Exchange(By4, Exchange(By16, ExchangeRight(By2, ExchangeRight(By8, Untwist(p)))))
  }

  lemma RotateBack(x: bv32)
    ensures RotateRight(RotateLeft(x)) == x && RotateLeft(RotateRight(x)) == x
  {
  }

  lemma TwistBack(p: Block)
    ensures Untwist(Twist(p)) == p && Twist(Untwist(p)) == p
  {
    var r := RotateLeft(p.right);
    var t := OddBits(Xor(p.left, r));
    RotateBack(p.right);
    RotateBack(Xor(p.left, t));
    XorBoth(p.left, r, t);
    XorTwice(p.left, t);
    XorTwice(r, t);
    var l := RotateRight(p.left);
    var u := OddBits(Xor(l, p.right));
    RotateBack(p.left);
    RotateBack(Xor(p.right, u));
    XorBoth(l, p.right, u);
    XorTwice(l, u);
    XorTwice(p.right, u);
  }

  /** The final permutation undoes the initial one, and the other way round. */
  lemma PermutationsInvert(p: Block)
    ensures FinalPermutation(InitialPermutation(p)) == p
    ensures InitialPermutation(FinalPermutation(p)) == p
  {
    var a := Exchange(By4, p);
    var b := Exchange(By16, a);
    var c := ExchangeRight(By2, b);
    ExchangeTwice(By4, p);
    ExchangeTwice(By16, a);
    ExchangeTwice(By2, b);
    ExchangeTwice(By8, c);
    TwistBack(ExchangeRight(By8, c));
    var u := Untwist(p);
    var v := ExchangeRight(By8, u);
    var w := ExchangeRight(By2, v);
    TwistBack(p);
    ExchangeTwice(By8, u);
    ExchangeTwice(By2, v);
    ExchangeTwice(By16, w);
    ExchangeTwice(By4, Exchange(By16, w));
  }

  // ---------- Bytes ----------

  function Join(b0: bv8, b1: bv8, b2: bv8, b3: bv8): bv32 {
    ((b0 as bv32) << 24) | ((b1 as bv32) << 16) | ((b2 as bv32) << 8) | (b3 as bv32)
  }

  function Byte0(x: bv32): bv8 {
    ((x >> 24) & 0xff) as bv8
  }

  function Byte1(x: bv32): bv8 {
    ((x >> 16) & 0xff) as bv8
  }

  function Byte2(x: bv32): bv8 {
    ((x >> 8) & 0xff) as bv8
  }

  function Byte3(x: bv32): bv8 {
    (x & 0xff) as bv8
  }

  /** READ_64BIT_DATA. */
  function ReadBlock(data: seq<bv8>): Block
    requires |data| == 8
  {
    Block(Join(data[0], data[1], data[2], data[3]), Join(data[4], data[5], data[6], data[7]))
  }

  /** WRITE_64BIT_DATA. */
  function WriteBlock(p: Block): (data: seq<bv8>)
    ensures |data| == 8
  {
    [Byte0(p.left), Byte1(p.left), Byte2(p.left), Byte3(p.left),
     Byte0(p.right), Byte1(p.right), Byte2(p.right), Byte3(p.right)]
  }

  lemma BytesOfJoin(b0: bv8, b1: bv8, b2: bv8, b3: bv8)
    ensures Byte0(Join(b0, b1, b2, b3)) == b0 && Byte1(Join(b0, b1, b2, b3)) == b1
    ensures Byte2(Join(b0, b1, b2, b3)) == b2 && Byte3(Join(b0, b1, b2, b3)) == b3
  {
  }

  lemma JoinOfBytes(x: bv32)
    ensures Join(Byte0(x), Byte1(x), Byte2(x), Byte3(x)) == x
  {
  }

  /** Blocks and their bytes determine each other. */
  lemma ReadWrite(p: Block, data: seq<bv8>)
    requires |data| == 8
    ensures ReadBlock(WriteBlock(p)) == p && WriteBlock(ReadBlock(data)) == data
  {
    JoinOfBytes(p.left);
    JoinOfBytes(p.right);
    BytesOfJoin(data[0], data[1], data[2], data[3]);
    BytesOfJoin(data[4], data[5], data[6], data[7]);
  }

  // ---------- The rounds ----------

  /** The contents of one S-box table. */
  type SBox = t: seq<bv32> | |t| == 64 witness seq(64, _ => 0)

  datatype Boxes = Boxes(s1: SBox, s2: SBox, s3: SBox, s4: SBox, s5: SBox, s6: SBox, s7: SBox, s8: SBox)

  function Six0(w: bv32): bv32 {
    w & 0x3f
  }

  function Six8(w: bv32): bv32 {
    (w >> 8) & 0x3f
  }

  function Six16(w: bv32): bv32 {
    (w >> 16) & 0x3f
  }

  function Six24(w: bv32): bv32 {
    (w >> 24) & 0x3f
  }

  function LookUp(t: SBox, i: bv32): bv32 {
    if 0 <= i as int < 64 then t[i as int] else 0
  }

  function Rotate4(x: bv32): bv32 {
    (x << 28) | (x >> 4)
  }

  /** What the two halves of a round add to the other word: the even and the odd boxes. */
  function EvenBoxes(b: Boxes, w: bv32): bv32 {
    Xor(LookUp(b.s8, Six0(w)), Xor(LookUp(b.s6, Six8(w)), Xor(LookUp(b.s4, Six16(w)), LookUp(b.s2, Six24(w)))))
  }

  function OddBoxes(b: Boxes, w: bv32): bv32 {
    Xor(LookUp(b.s7, Six0(w)), Xor(LookUp(b.s5, Six8(w)), Xor(LookUp(b.s3, Six16(w)), LookUp(b.s1, Six24(w)))))
  }

  /** What a round adds: a function of the other word and a pair of subkeys. */
  function RoundFunction(b: Boxes, from: bv32, k0: bv32, k1: bv32): bv32 {
    Xor(EvenBoxes(b, Xor(from, k0)), OddBoxes(b, Xor(Rotate4(from), k1)))
  }

  lemma FourInTurn(x: bv32, p: bv32, q: bv32, r: bv32, t: bv32)
    ensures Xor(Xor(Xor(Xor(x, p), q), r), t) == Xor(x, Xor(p, Xor(q, Xor(r, t))))
  {
    XorAssoc(Xor(Xor(x, p), q), r, t);
    XorAssoc(Xor(x, p), q, Xor(r, t));
    XorAssoc(x, p, Xor(q, Xor(r, t)));
  }

  /** Adding the eight table entries one after the other adds the round function. */
  lemma RoundInTurn(b: Boxes, to: bv32, from: bv32, k0: bv32, k1: bv32)
    ensures Xor(Xor(to, EvenBoxes(b, Xor(from, k0))), OddBoxes(b, Xor(Rotate4(from), k1))) ==
      Xor(to, RoundFunction(b, from, k0, k1))
  {
    XorAssoc(to, EvenBoxes(b, Xor(from, k0)), OddBoxes(b, Xor(Rotate4(from), k1)));
  }

  /** The words a run of rounds goes through: each is the one before last plus the round
      function of the last. */
  function Word(b: Boxes, keys: seq<bv32>, p: Block, i: nat): bv32
    requires 2 * i <= |keys| + 2
  {
    if i == 0 then p.left
    else if i == 1 then p.right
    else Xor(Word(b, keys, p, i - 2), RoundFunction(b, Word(b, keys, p, i - 1), keys[2 * i - 4], keys[2 * i - 3]))
  }

  /** Sixteen rounds; the last two words come out in reverse order. */
  function Sixteen(b: Boxes, keys: seq<bv32>, p: Block): Block
    requires |keys| == 32
  {
    Block(Word(b, keys, p, 17), Word(b, keys, p, 16))
  }

  /** The pairs of subkeys in reverse order. */
  function ReversedKeys<T>(keys: seq<T>): (r: seq<T>)
    requires |keys| == 32
    ensures |r| == 32
    ensures forall i {:trigger r[i]} :: 0 <= i < 32 ==> r[i] == if i % 2 == 0 then keys[30 - i] else keys[32 - i]
  {
    seq(32, i requires 0 <= i < 32 => if i % 2 == 0 then keys[30 - i] else keys[32 - i])
  }

  lemma ReversedTwice(keys: seq<bv32>)
    requires |keys| == 32
    ensures ReversedKeys(ReversedKeys(keys)) == keys
  {
  }

  lemma ReversedPair(keys: seq<bv32>, j: nat, m: nat)
    requires |keys| == 32 && j + m == 15
    ensures ReversedKeys(keys)[2 * j] == keys[2 * m] && ReversedKeys(keys)[2 * j + 1] == keys[2 * m + 1]
  {
  }

  lemma WordNext(b: Boxes, keys: seq<bv32>, p: Block, j: nat, x: bv32, y: bv32, k0: bv32, k1: bv32)
    requires 2 * j + 2 <= |keys| && x == Word(b, keys, p, j) && y == Word(b, keys, p, j + 1)
    requires k0 == keys[2 * j] && k1 == keys[2 * j + 1]
    ensures Word(b, keys, p, j + 2) == Xor(x, RoundFunction(b, y, k0, k1))
  {
  }

  /** With the subkeys reversed the rounds go back through the same words. */
  lemma {:induction false} WordsBack(b: Boxes, keys: seq<bv32>, p: Block, i: nat, m: nat)
    requires |keys| == 32 && i + m == 17
    ensures Word(b, ReversedKeys(keys), Sixteen(b, keys, p), i) == Word(b, keys, p, m)
  {
    if i >= 2 {
      var j := i - 2;
      WordsBack(b, keys, p, j, m + 2);
      WordsBack(b, keys, p, j + 1, m + 1);
      var x, y, k0, k1 := Word(b, keys, p, m), Word(b, keys, p, m + 1), keys[2 * m], keys[2 * m + 1];
      ReversedPair(keys, j, m);
      WordNext(b, keys, p, m, x, y, k0, k1);
      WordNext(b, ReversedKeys(keys), Sixteen(b, keys, p), j, Word(b, keys, p, m + 2), y, k0, k1);
      XorTwice(x, RoundFunction(b, y, k0, k1));
    }
  }

  lemma SixteenBack(b: Boxes, keys: seq<bv32>, p: Block)
    requires |keys| == 32
    ensures Sixteen(b, ReversedKeys(keys), Sixteen(b, keys, p)) == p
  {
    WordsBack(b, keys, p, 17, 0);
    WordsBack(b, keys, p, 16, 1);
  }

  // ---------- Whole blocks ----------

  /** des_ecb_crypt with the given subkeys. */
  function Crypt(b: Boxes, keys: seq<bv32>, data: seq<bv8>): (r: seq<bv8>)
    requires |keys| == 32 && |data| == 8
    ensures |r| == 8
  {
    WriteBlock(FinalPermutation(Sixteen(b, keys, InitialPermutation(ReadBlock(data)))))
  }

  /** Decryption with the reversed subkeys inverts encryption. */
  lemma CryptBack(b: Boxes, keys: seq<bv32>, data: seq<bv8>)
    requires |keys| == 32 && |data| == 8
    ensures Crypt(b, ReversedKeys(keys), Crypt(b, keys, data)) == data
  {
    var p := InitialPermutation(ReadBlock(data));
    var q := Sixteen(b, keys, p);
    ReadWrite(FinalPermutation(q), data);
    PermutationsInvert(q);
    SixteenBack(b, keys, p);
    PermutationsInvert(ReadBlock(data));
  }

  function FortyEight(b: Boxes, keys: seq<bv32>, p: Block): Block
    requires |keys| == 96
  {
    Sixteen(b, keys[64..], Sixteen(b, keys[32..64], Sixteen(b, keys[..32], p)))
  }

  /** tripledes_ecb_crypt: three times sixteen rounds between one pair of permutations. */
  function TripleCrypt(b: Boxes, keys: seq<bv32>, data: seq<bv8>): (r: seq<bv8>)
    requires |keys| == 96 && |data| == 8
    ensures |r| == 8
  {
    WriteBlock(FinalPermutation(FortyEight(b, keys, InitialPermutation(ReadBlock(data)))))
  }

  lemma CryptJoins(b: Boxes, keys: seq<bv32>, q: Block)
    requires |keys| == 32
    ensures Crypt(b, keys, WriteBlock(FinalPermutation(q))) == WriteBlock(FinalPermutation(Sixteen(b, keys, q)))
  {
    ReadWrite(FinalPermutation(q), WriteBlock(FinalPermutation(q)));
    PermutationsInvert(q);
  }

  /** The fused rounds are three single encryptions one after the other. */
  lemma TripleIsThree(b: Boxes, keys: seq<bv32>, data: seq<bv8>)
    requires |keys| == 96 && |data| == 8
    ensures TripleCrypt(b, keys, data) == Crypt(b, keys[64..], Crypt(b, keys[32..64], Crypt(b, keys[..32], data)))
  {
    var q := Sixteen(b, keys[..32], InitialPermutation(ReadBlock(data)));
    CryptJoins(b, keys[32..64], q);
    CryptJoins(b, keys[64..], Sixteen(b, keys[32..64], q));
  }

  // ---------- The key schedule ----------

  /** leftkey_swap: the four bits of a nibble spread over four bytes. */
  function LeftSwap(n: bv32): bv32 {
    (n & 1) | ((n & 2) << 7) | ((n & 4) << 14) | ((n & 8) << 21)
  }

  /** rightkey_swap: the same in the opposite order. */
  function RightSwap(n: bv32): bv32 {
    ((n & 1) << 24) | ((n & 2) << 15) | ((n & 4) << 6) | ((n & 8) >> 3)
  }

  /** The eight spread nibbles of a word, each in its bit of every byte; 28 bits of that. */
  function Gather(p3: bv32, p2: bv32, p1: bv32, p0: bv32, p7: bv32, p6: bv32, p5: bv32, p4: bv32): bv32 {
    ((p3 << 3) | (p2 << 2) | (p1 << 1) | p0 | (p7 << 7) | (p6 << 6) | (p5 << 5) | (p4 << 4)) & 0x0fff_ffff
  }

  function LeftHalf(l: bv32): bv32 {
    Gather(LeftSwap(l & 0xf), LeftSwap((l >> 8) & 0xf), LeftSwap((l >> 16) & 0xf), LeftSwap((l >> 24) & 0xf),
           LeftSwap((l >> 5) & 0xf), LeftSwap((l >> 13) & 0xf), LeftSwap((l >> 21) & 0xf), LeftSwap((l >> 29) & 0xf))
  }

  function RightHalf(r: bv32): bv32 {
    Gather(RightSwap((r >> 1) & 0xf), RightSwap((r >> 9) & 0xf), RightSwap((r >> 17) & 0xf), RightSwap((r >> 25) & 0xf),
           RightSwap((r >> 4) & 0xf), RightSwap((r >> 12) & 0xf), RightSwap((r >> 20) & 0xf),
           RightSwap((r >> 28) & 0xf))
  }

  function Rotate28By1(x: bv32): bv32 {
    ((x << 1) | (x >> 27)) & 0x0fff_ffff
  }

  function Rotate28By2(x: bv32): bv32 {
    ((x << 2) | (x >> 26)) & 0x0fff_ffff
  }

  function Rotate28(x: bv32, n: nat): bv32 {
    if n == 1 then Rotate28By1(x) else Rotate28By2(x)
  }

  /** encrypt_rotate_tab. */
  const ROTATIONS: seq<nat> := [1, 1, 2, 2, 2, 2, 2, 2, 1, 2, 2, 2, 2, 2, 2, 1]

  /** A half key after `i` rounds. */
  function HalfAfter(x: bv32, i: nat): bv32
    requires i <= 16
  {
    if i == 0 then x
    else Rotate28(HalfAfter(x, i - 1), ROTATIONS[i - 1])
  }

  /** What the left half key gives the first subkey of a round, and what the right one does. */
  function Left0(left: bv32): bv32 {
    ((left << 4) & 0x2400_0000) | ((left << 28) & 0x1000_0000) | ((left << 14) & 0x0800_0000)
    | ((left << 18) & 0x0208_0000) | ((left << 6) & 0x0100_0000) | ((left << 9) & 0x0020_0000)
    | ((left >> 1) & 0x0010_0000) | ((left << 10) & 0x0004_0000) | ((left << 2) & 0x0002_0000)
    | ((left >> 10) & 0x0001_0000)
  }

  function Right0(right: bv32): bv32 {
    ((right >> 13) & 0x0000_2000) | ((right >> 4) & 0x0000_1000) | ((right << 6) & 0x0000_0800)
    | ((right >> 1) & 0x0000_0400) | ((right >> 14) & 0x0000_0200) | (right & 0x0000_0100)
    | ((right >> 5) & 0x0000_0020) | ((right >> 10) & 0x0000_0010) | ((right >> 3) & 0x0000_0008)
    | ((right >> 18) & 0x0000_0004) | ((right >> 26) & 0x0000_0002) | ((right >> 24) & 0x0000_0001)
  }

  /** The same for the second subkey. */
  function Left1(left: bv32): bv32 {
    ((left << 15) & 0x2000_0000) | ((left << 17) & 0x1000_0000) | ((left << 10) & 0x0800_0000)
    | ((left << 22) & 0x0400_0000) | ((left >> 2) & 0x0200_0000) | ((left << 1) & 0x0100_0000)
    | ((left << 16) & 0x0020_0000) | ((left << 11) & 0x0010_0000) | ((left << 3) & 0x0008_0000)
    | ((left >> 6) & 0x0004_0000) | ((left << 15) & 0x0002_0000) | ((left >> 4) & 0x0001_0000)
  }

  function Right1(right: bv32): bv32 {
    ((right >> 2) & 0x0000_2000) | ((right << 8) & 0x0000_1000) | ((right >> 14) & 0x0000_0808)
    | ((right >> 9) & 0x0000_0400) | (right & 0x0000_0200) | ((right << 7) & 0x0000_0100)
    | ((right >> 7) & 0x0000_0020) | ((right >> 3) & 0x0000_0011) | ((right << 2) & 0x0000_0004)
    | ((right >> 21) & 0x0000_0002)
  }

  function Both(a: bv32, b: bv32): bv32 {
    a | b
  }

  /** The first and the second subkey of a round. */
  function Subkey0(left: bv32, right: bv32): bv32 {
    Both(Left0(left), Right0(right))
  }

  function Subkey1(left: bv32, right: bv32): bv32 {
    Both(Left1(left), Right1(right))
  }

  /** The words of a key after the two exchanges of the key schedule. */
  function ExchangedKey(p: Block): Block {
    ExchangeRight(By0, ExchangeRight(By4, p))
  }

  /** The two half keys before the first round. */
  function HalfKeys(key: seq<bv8>): Block
    requires |key| == 8
  {
    var p := ExchangedKey(ReadBlock(key));
    Block(LeftHalf(p.left), RightHalf(p.right))
  }

  function EvenSubkey(half: Block, round: nat): bv32
    requires round < 16
  {
    Subkey0(HalfAfter(half.left, round + 1), HalfAfter(half.right, round + 1))
  }

  function OddSubkey(half: Block, round: nat): bv32
    requires round < 16
  {
    Subkey1(HalfAfter(half.left, round + 1), HalfAfter(half.right, round + 1))
  }

  function SubkeyAt(half: Block, i: nat): bv32
    requires i < 32
  {
    if i % 2 == 0 then EvenSubkey(half, i / 2) else OddSubkey(half, i / 2)
  }

  /** des_key_schedule. */
  function Schedule(key: seq<bv8>): (keys: seq<bv32>)
    requires |key| == 8
    ensures |keys| == 32
  {
    seq(32, i requires 0 <= i < 32 => SubkeyAt(HalfKeys(key), i))
  }

  // ---------- Parity bits ----------

  /** The key with the parity bit of every byte cleared. */
  function NoParity(key: seq<bv8>): (r: seq<bv8>)
    requires |key| == 8
    ensures |r| == 8
  {
    [NoParityByte(key[0]), NoParityByte(key[1]), NoParityByte(key[2]), NoParityByte(key[3]),
     NoParityByte(key[4]), NoParityByte(key[5]), NoParityByte(key[6]), NoParityByte(key[7])]
  }

  function NoParityByte(b: bv8): bv8 {
    b & 0xfe
  }

  function NoParityWord(x: bv32): bv32 {
    x & 0xfefe_fefe
  }

  lemma JoinNoParity(b0: bv8, b1: bv8, b2: bv8, b3: bv8)
    ensures Join(NoParityByte(b0), NoParityByte(b1), NoParityByte(b2), NoParityByte(b3)) ==
      NoParityWord(Join(b0, b1, b2, b3))
  {
    var x := Join(b0, b1, b2, b3);
    BytesOfJoin(b0, b1, b2, b3);
    BytesNoParity(x);
    JoinOfBytes(NoParityWord(x));
  }

  lemma BytesNoParity(x: bv32)
    ensures Byte0(NoParityWord(x)) == NoParityByte(Byte0(x)) && Byte1(NoParityWord(x)) == NoParityByte(Byte1(x))
    ensures Byte2(NoParityWord(x)) == NoParityByte(Byte2(x)) && Byte3(NoParityWord(x)) == NoParityByte(Byte3(x))
  {
  }

  /** Whether two words agree but for bit 0 of each byte, but for bit 4, and but for both. */
  predicate AgreeBut0(x: bv32, y: bv32) {
    x & 0xfefe_fefe == y & 0xfefe_fefe
  }

  predicate AgreeBut4(x: bv32, y: bv32) {
    x & 0xefef_efef == y & 0xefef_efef
  }

  predicate AgreeBut04(x: bv32, y: bv32) {
    x & 0xeeee_eeee == y & 0xeeee_eeee
  }

  /** The left half key is made without bit 4 of each byte, and the right one without bit 0. */
  lemma LeftHalfUses(x: bv32, y: bv32)
    requires AgreeBut4(x, y)
    ensures LeftHalf(x) == LeftHalf(y)
  {
  }

  lemma RightHalfUses(x: bv32, y: bv32)
    requires AgreeBut0(x, y)
    ensures RightHalf(x) == RightHalf(y)
  {
  }

  /** The first exchange moves the parity bits of the left word into the right word. */
  lemma FirstLeft(l: bv32, r: bv32, l': bv32, r': bv32)
    requires AgreeBut0(l, l') && AgreeBut0(r, r')
    ensures ExchangeRight(By4, Block(l, r)).left == ExchangeRight(By4, Block(l', r')).left
  {
  }

  lemma FirstRight(l: bv32, r: bv32, l': bv32, r': bv32)
    requires AgreeBut0(l, l') && AgreeBut0(r, r')
    ensures AgreeBut04(ExchangeRight(By4, Block(l, r)).right, ExchangeRight(By4, Block(l', r')).right)
  {
  }

  /** The second one moves them to where no half key uses them. */
  lemma SecondLeft(l: bv32, r: bv32, r': bv32)
    requires AgreeBut04(r, r')
    ensures AgreeBut4(ExchangeRight(By0, Block(l, r)).left, ExchangeRight(By0, Block(l, r')).left)
  {
  }

  lemma SecondRight(l: bv32, r: bv32, r': bv32)
    requires AgreeBut04(r, r')
    ensures AgreeBut0(ExchangeRight(By0, Block(l, r)).right, ExchangeRight(By0, Block(l, r')).right)
  {
  }

  lemma FirstExchange(p: Block, q: Block)
    requires AgreeBut0(p.left, q.left) && AgreeBut0(p.right, q.right)
    ensures ExchangeRight(By4, p).left == ExchangeRight(By4, q).left
    ensures AgreeBut04(ExchangeRight(By4, p).right, ExchangeRight(By4, q).right)
  {
    FirstLeft(p.left, p.right, q.left, q.right);
    FirstRight(p.left, p.right, q.left, q.right);
  }

  lemma SecondExchange(p: Block, q: Block)
    requires p.left == q.left && AgreeBut04(p.right, q.right)
    ensures AgreeBut4(ExchangeRight(By0, p).left, ExchangeRight(By0, q).left)
    ensures AgreeBut0(ExchangeRight(By0, p).right, ExchangeRight(By0, q).right)
  {
    SecondLeft(p.left, p.right, q.right);
    SecondRight(p.left, p.right, q.right);
  }

  lemma HalvesAgree(p: Block, q: Block)
    requires AgreeBut0(p.left, q.left) && AgreeBut0(p.right, q.right)
    ensures LeftHalf(ExchangedKey(q).left) == LeftHalf(ExchangedKey(p).left)
    ensures RightHalf(ExchangedKey(q).right) == RightHalf(ExchangedKey(p).right)
  {
    FirstExchange(p, q);
    SecondExchange(ExchangeRight(By4, p), ExchangeRight(By4, q));
    LeftHalfUses(ExchangedKey(p).left, ExchangedKey(q).left);
    RightHalfUses(ExchangedKey(p).right, ExchangedKey(q).right);
  }

  lemma NoParityAgrees(x: bv32)
    ensures AgreeBut0(x, NoParityWord(x))
  {
  }

  /** Parity bits are ignored: the subkeys do not depend on them. */
  lemma ParityIgnored(key: seq<bv8>)
    requires |key| == 8
    ensures Schedule(NoParity(key)) == Schedule(key)
  {
    JoinNoParity(key[0], key[1], key[2], key[3]);
    JoinNoParity(key[4], key[5], key[6], key[7]);
    NoParityAgrees(ReadBlock(key).left);
    NoParityAgrees(ReadBlock(key).right);
    HalvesAgree(ReadBlock(key), ReadBlock(NoParity(key)));
    assert HalfKeys(NoParity(key)) == HalfKeys(key);
  }

  // ---------- Single and triple encryption ----------

  predicate IsBytes8(s: seq<bv8>) {
    |s| == 8
  }

  function Encrypt(b: Boxes, key: seq<bv8>, data: seq<bv8>): (r: seq<bv8>)
    requires IsBytes8(key) && IsBytes8(data)
    ensures IsBytes8(r)
  {
    Crypt(b, Schedule(key), data)
  }

  function Decrypt(b: Boxes, key: seq<bv8>, data: seq<bv8>): (r: seq<bv8>)
    requires IsBytes8(key) && IsBytes8(data)
    ensures IsBytes8(r)
  {
    Crypt(b, ReversedKeys(Schedule(key)), data)
  }

  /** Decryption inverts encryption, and the other way round. */
  lemma DecryptInverts(b: Boxes, key: seq<bv8>, data: seq<bv8>)
    requires IsBytes8(key) && IsBytes8(data)
    ensures Decrypt(b, key, Encrypt(b, key, data)) == data
    ensures Encrypt(b, key, Decrypt(b, key, data)) == data
  {
    CryptBack(b, Schedule(key), data);
    ReversedTwice(Schedule(key));
    CryptBack(b, ReversedKeys(Schedule(key)), data);
  }

  /** The 96 subkeys for encryption with three keys, and for decryption. */
  function EncryptKeys(key1: seq<bv8>, key2: seq<bv8>, key3: seq<bv8>): (keys: seq<bv32>)
    requires IsBytes8(key1) && IsBytes8(key2) && IsBytes8(key3)
    ensures |keys| == 96
  {
    Schedule(key1) + ReversedKeys(Schedule(key2)) + Schedule(key3)
  }

  function DecryptKeys(key1: seq<bv8>, key2: seq<bv8>, key3: seq<bv8>): (keys: seq<bv32>)
    requires IsBytes8(key1) && IsBytes8(key2) && IsBytes8(key3)
    ensures |keys| == 96
  {
    ReversedKeys(Schedule(key3)) + Schedule(key2) + ReversedKeys(Schedule(key1))
  }

  lemma ThreeParts(b: Boxes, x: seq<bv32>, y: seq<bv32>, z: seq<bv32>, data: seq<bv8>)
    requires |x| == 32 && |y| == 32 && |z| == 32 && |data| == 8
    ensures TripleCrypt(b, x + y + z, data) == Crypt(b, z, Crypt(b, y, Crypt(b, x, data)))
  {
    var keys := x + y + z;
    assert keys[..32] == x && keys[32..64] == y && keys[64..] == z;
    TripleIsThree(b, keys, data);
  }

  /** Triple-DES is encryption with the third key after decryption with the second after
      encryption with the first. */
  lemma TripleIsEDE(b: Boxes, key1: seq<bv8>, key2: seq<bv8>, key3: seq<bv8>, data: seq<bv8>)
    requires IsBytes8(key1) && IsBytes8(key2) && IsBytes8(key3) && IsBytes8(data)
    ensures TripleCrypt(b, EncryptKeys(key1, key2, key3), data) ==
      Encrypt(b, key3, Decrypt(b, key2, Encrypt(b, key1, data)))
    ensures TripleCrypt(b, DecryptKeys(key1, key2, key3), data) ==
      Decrypt(b, key1, Encrypt(b, key2, Decrypt(b, key3, data)))
  {
    ThreeParts(b, Schedule(key1), ReversedKeys(Schedule(key2)), Schedule(key3), data);
    ThreeParts(b, ReversedKeys(Schedule(key3)), Schedule(key2), ReversedKeys(Schedule(key1)), data);
  }

  /** Triple-DES decryption inverts encryption. */
  lemma TripleDecryptInverts(b: Boxes, key1: seq<bv8>, key2: seq<bv8>, key3: seq<bv8>, data: seq<bv8>)
    requires IsBytes8(key1) && IsBytes8(key2) && IsBytes8(key3) && IsBytes8(data)
    ensures TripleCrypt(b, DecryptKeys(key1, key2, key3), TripleCrypt(b, EncryptKeys(key1, key2, key3), data)) == data
    ensures TripleCrypt(b, EncryptKeys(key1, key2, key3), TripleCrypt(b, DecryptKeys(key1, key2, key3), data)) == data
  {
    var e1 := Encrypt(b, key1, data);
    var e2 := Decrypt(b, key2, e1);
    TripleIsEDE(b, key1, key2, key3, data);
    TripleIsEDE(b, key1, key2, key3, Encrypt(b, key3, e2));
    DecryptInverts(b, key3, e2);
    DecryptInverts(b, key2, e1);
    DecryptInverts(b, key1, data);
    var d1 := Decrypt(b, key3, data);
    var d2 := Encrypt(b, key2, d1);
    TripleIsEDE(b, key1, key2, key3, Decrypt(b, key1, d2));
    DecryptInverts(b, key1, d2);
    DecryptInverts(b, key2, d1);
    DecryptInverts(b, key3, data);
  }

  /** With three equal keys Triple-DES is single DES. */
  lemma EqualKeysAreSingle(b: Boxes, key: seq<bv8>, data: seq<bv8>)
    requires IsBytes8(key) && IsBytes8(data)
    ensures TripleCrypt(b, EncryptKeys(key, key, key), data) == Encrypt(b, key, data)
    ensures TripleCrypt(b, DecryptKeys(key, key, key), data) == Decrypt(b, key, data)
  {
    TripleIsEDE(b, key, key, key, data);
    DecryptInverts(b, key, data);
  }

  // ---------- Complementation ----------

  function NotByte(b: bv8): bv8 {
    b ^ 0xff
  }

  function NotBytes(s: seq<bv8>): (r: seq<bv8>)
    requires IsBytes8(s)
    ensures IsBytes8(r)
  {
    [NotByte(s[0]), NotByte(s[1]), NotByte(s[2]), NotByte(s[3]),
     NotByte(s[4]), NotByte(s[5]), NotByte(s[6]), NotByte(s[7])]
  }

  /** How complementing the key changes a subkey, and a half key. */
  function FlipSubkey(k: bv32): bv32 {
    k ^ 0x3f3f_3f3f
  }

  function FlipHalf(x: bv32): bv32 {
    x ^ 0x0fff_ffff
  }

  lemma JoinNot(b0: bv8, b1: bv8, b2: bv8, b3: bv8)
    ensures Join(NotByte(b0), NotByte(b1), NotByte(b2), NotByte(b3)) == Not(Join(b0, b1, b2, b3))
  {
    var x := Join(b0, b1, b2, b3);
    BytesOfJoin(b0, b1, b2, b3);
    BytesNot(x);
    JoinOfBytes(Not(x));
  }

  lemma BytesNot(x: bv32)
    ensures Byte0(Not(x)) == NotByte(Byte0(x)) && Byte1(Not(x)) == NotByte(Byte1(x))
    ensures Byte2(Not(x)) == NotByte(Byte2(x)) && Byte3(Not(x)) == NotByte(Byte3(x))
  {
  }

  lemma ReadNot(data: seq<bv8>)
    requires IsBytes8(data)
    ensures ReadBlock(NotBytes(data)) == NotBlock(ReadBlock(data))
  {
    JoinNot(data[0], data[1], data[2], data[3]);
    JoinNot(data[4], data[5], data[6], data[7]);
  }

  lemma WriteNot(p: Block)
    ensures WriteBlock(NotBlock(p)) == NotBytes(WriteBlock(p))
  {
    BytesNot(p.left);
    BytesNot(p.right);
  }

  lemma NotTwice(x: bv32)
    ensures Not(Not(x)) == x
  {
  }

  lemma NotBoth(x: bv32, y: bv32)
    ensures Xor(Not(x), Not(y)) == Xor(x, y)
  {
    NotXor(x, Not(y));
    XorComm(x, Not(y));
    NotXor(y, x);
    XorComm(x, y);
    NotTwice(Xor(x, y));
  }

  lemma MaskedDownNot0(x: bv32, y: bv32)
    ensures Masked(By0, Down(By0, x ^ 0xffff_ffff) ^ (y ^ 0xffff_ffff)) == Masked(By0, Down(By0, x) ^ y)
  {
  }

  lemma MaskedDownNot2(x: bv32, y: bv32)
    ensures Masked(By2, Down(By2, x ^ 0xffff_ffff) ^ (y ^ 0xffff_ffff)) == Masked(By2, Down(By2, x) ^ y)
  {
  }

  lemma MaskedDownNot4(x: bv32, y: bv32)
    ensures Masked(By4, Down(By4, x ^ 0xffff_ffff) ^ (y ^ 0xffff_ffff)) == Masked(By4, Down(By4, x) ^ y)
  {
  }

  lemma MaskedDownNot8(x: bv32, y: bv32)
    ensures Masked(By8, Down(By8, x ^ 0xffff_ffff) ^ (y ^ 0xffff_ffff)) == Masked(By8, Down(By8, x) ^ y)
  {
  }

  lemma MaskedDownNot16(x: bv32, y: bv32)
    ensures Masked(By16, Down(By16, x ^ 0xffff_ffff) ^ (y ^ 0xffff_ffff)) == Masked(By16, Down(By16, x) ^ y)
  {
  }

  lemma RotateNot(x: bv32)
    ensures RotateLeft(Not(x)) == Not(RotateLeft(x)) && RotateRight(Not(x)) == Not(RotateRight(x))
    ensures Rotate4(Not(x)) == Not(Rotate4(x))
  {
  }

  lemma SixNot(x: bv32, k: bv32)
    ensures Six0(Xor(Not(x), FlipSubkey(k))) == Six0(Xor(x, k))
    ensures Six8(Xor(Not(x), FlipSubkey(k))) == Six8(Xor(x, k))
    ensures Six16(Xor(Not(x), FlipSubkey(k))) == Six16(Xor(x, k))
    ensures Six24(Xor(Not(x), FlipSubkey(k))) == Six24(Xor(x, k))
  {
  }

  lemma LeftHalfNot(l: bv32)
    ensures LeftHalf(Not(l)) == FlipHalf(LeftHalf(l))
  {
  }

  lemma RightHalfNot(r: bv32)
    ensures RightHalf(Not(r)) == FlipHalf(RightHalf(r))
  {
  }

  /** The 28 bits of a half key. */
  function Clip(x: bv32): bv32 {
    x & 0x0fff_ffff
  }

  lemma ClipMask(x: bv32)
    ensures Clip(x & 0x0fff_ffff) == x & 0x0fff_ffff
  {
  }

  lemma Rotate28By1OverFlip(x: bv32)
    ensures Rotate28By1((x & 0x0fff_ffff) ^ 0x0fff_ffff) == Rotate28By1(x & 0x0fff_ffff) ^ 0x0fff_ffff
  {
  }

  lemma Rotate28By1Masked(x: bv32)
    ensures Rotate28By1(FlipHalf(x & 0x0fff_ffff)) == FlipHalf(Rotate28By1(x & 0x0fff_ffff))
  {
    Rotate28By1OverFlip(x);
  }

  lemma Rotate28By1Clipped(x: bv32)
    ensures Rotate28By1(FlipHalf(Clip(x))) == FlipHalf(Rotate28By1(Clip(x)))
  {
    Rotate28By1Masked(x);
  }

  lemma Rotate28By1Clips(x: bv32)
    ensures Clip(Rotate28By1(x)) == Rotate28By1(x)
  {
    ClipMask((x << 1) | (x >> 27));
  }

  lemma Rotate28By2OverFlip(x: bv32)
    ensures Rotate28By2((x & 0x0fff_ffff) ^ 0x0fff_ffff) == Rotate28By2(x & 0x0fff_ffff) ^ 0x0fff_ffff
  {
  }

  lemma Rotate28By2Masked(x: bv32)
    ensures Rotate28By2(FlipHalf(x & 0x0fff_ffff)) == FlipHalf(Rotate28By2(x & 0x0fff_ffff))
  {
    Rotate28By2OverFlip(x);
  }

  lemma Rotate28By2Clipped(x: bv32)
    ensures Rotate28By2(FlipHalf(Clip(x))) == FlipHalf(Rotate28By2(Clip(x)))
  {
    Rotate28By2Masked(x);
  }

  lemma Rotate28By2Clips(x: bv32)
    ensures Clip(Rotate28By2(x)) == Rotate28By2(x)
  {
    ClipMask((x << 2) | (x >> 26));
  }

  lemma GatherClips(p3: bv32, p2: bv32, p1: bv32, p0: bv32, p7: bv32, p6: bv32, p5: bv32, p4: bv32)
    ensures Clip(Gather(p3, p2, p1, p0, p7, p6, p5, p4)) == Gather(p3, p2, p1, p0, p7, p6, p5, p4)
  {
    ClipMask((p3 << 3) | (p2 << 2) | (p1 << 1) | p0 | (p7 << 7) | (p6 << 6) | (p5 << 5) | (p4 << 4));
  }

  lemma LeftHalfClips(x: bv32)
    ensures Clip(LeftHalf(x)) == LeftHalf(x)
  {
    GatherClips(LeftSwap(x & 0xf), LeftSwap((x >> 8) & 0xf), LeftSwap((x >> 16) & 0xf), LeftSwap((x >> 24) & 0xf),
                LeftSwap((x >> 5) & 0xf), LeftSwap((x >> 13) & 0xf), LeftSwap((x >> 21) & 0xf),
                LeftSwap((x >> 29) & 0xf));
  }

  lemma RightHalfClips(x: bv32)
    ensures Clip(RightHalf(x)) == RightHalf(x)
  {
    GatherClips(RightSwap((x >> 1) & 0xf), RightSwap((x >> 9) & 0xf), RightSwap((x >> 17) & 0xf),
                RightSwap((x >> 25) & 0xf),
                RightSwap((x >> 4) & 0xf), RightSwap((x >> 12) & 0xf), RightSwap((x >> 20) & 0xf),
                RightSwap((x >> 28) & 0xf));
  }

  function Upper(x: bv32): bv32 {
    x & 0x3f3f_0000
  }

  function Lower(x: bv32): bv32 {
    x & 0x0000_3f3f
  }

  function FlipUpper(x: bv32): bv32 {
    x ^ 0x3f3f_0000
  }

  function FlipLower(x: bv32): bv32 {
    x ^ 0x0000_3f3f
  }

  lemma Left0Flip(x: bv32)
    ensures Left0(x ^ 0x0fff_ffff) == Left0(x) ^ 0x3f3f_0000
  {
  }

  lemma Right0Flip(x: bv32)
    ensures Right0(x ^ 0x0fff_ffff) == Right0(x) ^ 0x0000_3f3f
  {
  }

  lemma Left0Upper(x: bv32)
    ensures Upper(Left0(x)) == Left0(x)
  {
  }

  lemma Right0Lower(x: bv32)
    ensures Lower(Right0(x)) == Right0(x)
  {
  }

  lemma Left1Flip(x: bv32)
    ensures Left1(x ^ 0x0fff_ffff) == Left1(x) ^ 0x3f3f_0000
  {
  }

  lemma Right1Flip(x: bv32)
    ensures Right1(x ^ 0x0fff_ffff) == Right1(x) ^ 0x0000_3f3f
  {
  }

  lemma Left1Upper(x: bv32)
    ensures Upper(Left1(x)) == Left1(x)
  {
  }

  lemma Right1Lower(x: bv32)
    ensures Lower(Right1(x)) == Right1(x)
  {
  }

  lemma MaskedBothFlip(a: bv32, b: bv32)
    ensures Both(FlipUpper(Upper(a)), FlipLower(Lower(b))) == FlipSubkey(Both(Upper(a), Lower(b)))
  {
  }

  lemma BothFlip(a: bv32, b: bv32)
    requires Upper(a) == a && Lower(b) == b
    ensures Both(FlipUpper(a), FlipLower(b)) == FlipSubkey(Both(a, b))
  {
    MaskedBothFlip(a, b);
  }

  /** Each half key gives twelve bits to a subkey, in its own half of the word. */
  lemma Subkey0Flip(left: bv32, right: bv32)
    ensures Subkey0(FlipHalf(left), FlipHalf(right)) == FlipSubkey(Subkey0(left, right))
  {
    Left0Flip(left);
    Right0Flip(right);
    Left0Upper(left);
    Right0Lower(right);
    BothFlip(Left0(left), Right0(right));
  }

  lemma Subkey1Flip(left: bv32, right: bv32)
    ensures Subkey1(FlipHalf(left), FlipHalf(right)) == FlipSubkey(Subkey1(left, right))
  {
    Left1Flip(left);
    Right1Flip(right);
    Left1Upper(left);
    Right1Lower(right);
    BothFlip(Left1(left), Right1(right));
  }

  lemma {:induction false} HalfAfterFlip(x: bv32, i: nat)
    requires i <= 16 && Clip(x) == x
    ensures HalfAfter(FlipHalf(x), i) == FlipHalf(HalfAfter(x, i)) && Clip(HalfAfter(x, i)) == HalfAfter(x, i)
  {
    if i > 0 {
      HalfAfterFlip(x, i - 1);
      var y := HalfAfter(x, i - 1);
      Rotate28By1Clipped(y);
      Rotate28By2Clipped(y);
      Rotate28By1Clips(y);
      Rotate28By2Clips(y);
    }
  }

  lemma TempNot(k: Kind, x: bv32, y: bv32)
    ensures Temp(k, Not(x), Not(y)) == Temp(k, x, y)
  {
    match k
    case By0 => MaskedDownNot0(x, y);
    case By2 => MaskedDownNot2(x, y);
    case By4 => MaskedDownNot4(x, y);
    case By8 => MaskedDownNot8(x, y);
    case By16 => MaskedDownNot16(x, y);
  }

  lemma ExchangeNot(k: Kind, p: Block)
    ensures Exchange(k, NotBlock(p)) == NotBlock(Exchange(k, p))
    ensures ExchangeRight(k, NotBlock(p)) == NotBlock(ExchangeRight(k, p))
  {
    var t, u := Temp(k, p.left, p.right), Temp(k, p.right, p.left);
    TempNot(k, p.left, p.right);
    TempNot(k, p.right, p.left);
    NotXor(p.left, Up(k, t));
    NotXor(p.right, t);
    NotXor(p.left, u);
    NotXor(p.right, Up(k, u));
  }

  lemma TwistNot(p: Block)
    ensures Twist(NotBlock(p)) == NotBlock(Twist(p)) && Untwist(NotBlock(p)) == NotBlock(Untwist(p))
  {
    var r := RotateLeft(p.right);
    var t := OddBits(Xor(p.left, r));
    RotateNot(p.right);
    NotBoth(p.left, r);
    NotXor(p.left, t);
    NotXor(r, t);
    RotateNot(Xor(p.left, t));
    var l := RotateRight(p.left);
    var u := OddBits(Xor(l, p.right));
    RotateNot(p.left);
    NotBoth(l, p.right);
    NotXor(l, u);
    NotXor(p.right, u);
    RotateNot(Xor(p.right, u));
  }

  lemma PermutationsNot(p: Block)
    ensures InitialPermutation(NotBlock(p)) == NotBlock(InitialPermutation(p))
    ensures FinalPermutation(NotBlock(p)) == NotBlock(FinalPermutation(p))
  {
    var a := Exchange(By4, p);
    var c := Exchange(By16, a);
    var d := ExchangeRight(By2, c);
    ExchangeNot(By4, p);
    ExchangeNot(By16, a);
    ExchangeNot(By2, c);
    ExchangeNot(By8, d);
    TwistNot(ExchangeRight(By8, d));
    var u := Untwist(p);
    var v := ExchangeRight(By8, u);
    var w := ExchangeRight(By2, v);
    TwistNot(p);
    ExchangeNot(By8, u);
    ExchangeNot(By2, v);
    ExchangeNot(By16, w);
    ExchangeNot(By4, Exchange(By16, w));
  }

  /** Complementing the word and flipping the subkeys leaves the table indices alone. */
  lemma RoundNot(b: Boxes, from: bv32, k0: bv32, k1: bv32)
    ensures RoundFunction(b, Not(from), FlipSubkey(k0), FlipSubkey(k1)) == RoundFunction(b, from, k0, k1)
  {
    RotateNot(from);
    SixNot(from, k0);
    SixNot(Rotate4(from), k1);
  }

  function FlipKeys(keys: seq<bv32>): (r: seq<bv32>)
    ensures |r| == |keys| && forall i {:trigger r[i]} :: 0 <= i < |r| ==> r[i] == FlipSubkey(keys[i])
  {
    seq(|keys|, i requires 0 <= i < |keys| => FlipSubkey(keys[i]))
  }

  lemma AddNot(x: bv32, f: bv32, x': bv32, f': bv32)
    requires x' == Not(x) && f' == f
    ensures Xor(x', f') == Not(Xor(x, f))
  {
    NotXor(x, f);
  }

  lemma WordNot(b: Boxes, keys: seq<bv32>, p: Block, j: nat)
    requires 2 * j + 2 <= |keys|
    requires Word(b, FlipKeys(keys), NotBlock(p), j) == Not(Word(b, keys, p, j))
    requires Word(b, FlipKeys(keys), NotBlock(p), j + 1) == Not(Word(b, keys, p, j + 1))
    ensures Word(b, FlipKeys(keys), NotBlock(p), j + 2) == Not(Word(b, keys, p, j + 2))
  {
    var x, y, k0, k1 := Word(b, keys, p, j), Word(b, keys, p, j + 1), keys[2 * j], keys[2 * j + 1];
    WordNext(b, keys, p, j, x, y, k0, k1);
    WordNext(b, FlipKeys(keys), NotBlock(p), j, Not(x), Not(y), FlipSubkey(k0), FlipSubkey(k1));
    RoundNot(b, y, k0, k1);
    AddNot(x, RoundFunction(b, y, k0, k1), Not(x), RoundFunction(b, Not(y), FlipSubkey(k0), FlipSubkey(k1)));
  }

  lemma FirstWordsNot(b: Boxes, keys: seq<bv32>, p: Block)
    ensures Word(b, FlipKeys(keys), NotBlock(p), 0) == Not(Word(b, keys, p, 0))
    ensures Word(b, FlipKeys(keys), NotBlock(p), 1) == Not(Word(b, keys, p, 1))
  {
  }

  /** Two consecutive words are complemented. */
  lemma {:induction false} WordsNot(b: Boxes, keys: seq<bv32>, p: Block, i: nat)
    requires 2 * i <= |keys|
    ensures Word(b, FlipKeys(keys), NotBlock(p), i) == Not(Word(b, keys, p, i))
    ensures Word(b, FlipKeys(keys), NotBlock(p), i + 1) == Not(Word(b, keys, p, i + 1))
  {
    if i == 0 {
      FirstWordsNot(b, keys, p);
    } else {
      var j := i - 1;
      WordsNot(b, keys, p, j);
      WordNot(b, keys, p, j);
    }
  }

  lemma CryptNot(b: Boxes, keys: seq<bv32>, data: seq<bv8>)
    requires |keys| == 32 && IsBytes8(data)
    ensures Crypt(b, FlipKeys(keys), NotBytes(data)) == NotBytes(Crypt(b, keys, data))
  {
    var p := InitialPermutation(ReadBlock(data));
    ReadNot(data);
    PermutationsNot(ReadBlock(data));
    WordsNot(b, keys, p, 16);
    PermutationsNot(Sixteen(b, keys, p));
    WriteNot(FinalPermutation(Sixteen(b, keys, p)));
  }

  function FlipBlock(p: Block): Block {
    Block(FlipHalf(p.left), FlipHalf(p.right))
  }

  lemma HalfKeysNot(key: seq<bv8>)
    requires IsBytes8(key)
    ensures HalfKeys(NotBytes(key)) == FlipBlock(HalfKeys(key))
    ensures Clip(HalfKeys(key).left) == HalfKeys(key).left && Clip(HalfKeys(key).right) == HalfKeys(key).right
  {
    var p := ReadBlock(key);
    var q := ExchangeRight(By4, p);
    var r := ExchangeRight(By0, q);
    ReadNot(key);
    ExchangeNot(By4, p);
    ExchangeNot(By0, q);
    LeftHalfNot(r.left);
    RightHalfNot(r.right);
    LeftHalfClips(r.left);
    RightHalfClips(r.right);
  }

  lemma PairIndex(round: nat)
    ensures 2 * round / 2 == round && 2 * round % 2 == 0
    ensures (2 * round + 1) / 2 == round && (2 * round + 1) % 2 == 1
  {
  }

  lemma RoundSubkeys(half: Block, round: nat, l: bv32, r: bv32)
    requires round < 16 && l == HalfAfter(half.left, round + 1) && r == HalfAfter(half.right, round + 1)
    ensures SubkeyAt(half, 2 * round) == Subkey0(l, r)
    ensures SubkeyAt(half, 2 * round + 1) == Subkey1(l, r)
  {
    PairIndex(round);
  }

  lemma HalvesFlip(half: Block, i: nat, l: bv32, r: bv32)
    requires i <= 16 && Clip(half.left) == half.left && Clip(half.right) == half.right
    requires l == HalfAfter(half.left, i) && r == HalfAfter(half.right, i)
    ensures HalfAfter(FlipBlock(half).left, i) == FlipHalf(l) && HalfAfter(FlipBlock(half).right, i) == FlipHalf(r)
  {
    HalfAfterFlip(half.left, i);
    HalfAfterFlip(half.right, i);
  }

  lemma EvenFlip(half: Block, round: nat)
    requires round < 16 && Clip(half.left) == half.left && Clip(half.right) == half.right
    ensures EvenSubkey(FlipBlock(half), round) == FlipSubkey(EvenSubkey(half, round))
  {
    var l, r := HalfAfter(half.left, round + 1), HalfAfter(half.right, round + 1);
    HalvesFlip(half, round + 1, l, r);
    Subkey0Flip(l, r);
  }

  lemma OddFlip(half: Block, round: nat)
    requires round < 16 && Clip(half.left) == half.left && Clip(half.right) == half.right
    ensures OddSubkey(FlipBlock(half), round) == FlipSubkey(OddSubkey(half, round))
  {
    var l, r := HalfAfter(half.left, round + 1), HalfAfter(half.right, round + 1);
    HalvesFlip(half, round + 1, l, r);
    Subkey1Flip(l, r);
  }

  lemma SubkeyFlip(half: Block, i: nat)
    requires i < 32 && Clip(half.left) == half.left && Clip(half.right) == half.right
    ensures SubkeyAt(FlipBlock(half), i) == FlipSubkey(SubkeyAt(half, i))
  {
    if i % 2 == 0 {
      EvenFlip(half, i / 2);
    } else {
      OddFlip(half, i / 2);
    }
  }

  /** Complementing the key flips the same 24 bits of every subkey. */
  lemma ScheduleNot(key: seq<bv8>)
    requires IsBytes8(key)
    ensures Schedule(NotBytes(key)) == FlipKeys(Schedule(key))
  {
    HalfKeysNot(key);
    forall i | 0 <= i < 32 ensures Schedule(NotBytes(key))[i] == FlipSubkey(Schedule(key)[i]) {
      SubkeyFlip(HalfKeys(key), i);
    }
  }

  /** Complementing key and plaintext complements the ciphertext. */
  lemma Complementation(b: Boxes, key: seq<bv8>, data: seq<bv8>)
    requires IsBytes8(key) && IsBytes8(data)
    ensures Encrypt(b, NotBytes(key), NotBytes(data)) == NotBytes(Encrypt(b, key, data))
  {
    ScheduleNot(key);
    CryptNot(b, Schedule(key), data);
  }

  lemma ReversedFlip(keys: seq<bv32>)
    requires |keys| == 32
    ensures ReversedKeys(FlipKeys(keys)) == FlipKeys(ReversedKeys(keys))
  {
  }

  lemma DecryptNot(b: Boxes, key: seq<bv8>, data: seq<bv8>)
    requires IsBytes8(key) && IsBytes8(data)
    ensures Decrypt(b, NotBytes(key), NotBytes(data)) == NotBytes(Decrypt(b, key, data))
  {
    ScheduleNot(key);
    ReversedFlip(Schedule(key));
    CryptNot(b, ReversedKeys(Schedule(key)), data);
  }

  /** The same for Triple-DES and all its keys. */
  lemma TripleComplementation(b: Boxes, key1: seq<bv8>, key2: seq<bv8>, key3: seq<bv8>, data: seq<bv8>)
    requires IsBytes8(key1) && IsBytes8(key2) && IsBytes8(key3) && IsBytes8(data)
    ensures TripleCrypt(b, EncryptKeys(NotBytes(key1), NotBytes(key2), NotBytes(key3)), NotBytes(data)) ==
      NotBytes(TripleCrypt(b, EncryptKeys(key1, key2, key3), data))
  {
    TripleIsEDE(b, key1, key2, key3, data);
    TripleIsEDE(b, NotBytes(key1), NotBytes(key2), NotBytes(key3), NotBytes(data));
    Complementation(b, key1, data);
    DecryptNot(b, key2, Encrypt(b, key1, data));
    Complementation(b, key3, Decrypt(b, key2, Encrypt(b, key1, data)));
  }

  // ---------- The code ----------

  const LEFTKEY_SWAP: seq<bv32> := [
    0x0000_0000, 0x0000_0001, 0x0000_0100, 0x0000_0101, 0x0001_0000, 0x0001_0001, 0x0001_0100, 0x0001_0101,
    0x0100_0000, 0x0100_0001, 0x0100_0100, 0x0100_0101, 0x0101_0000, 0x0101_0001, 0x0101_0100, 0x0101_0101]

  const RIGHTKEY_SWAP: seq<bv32> := [
    0x0000_0000, 0x0100_0000, 0x0001_0000, 0x0101_0000, 0x0000_0100, 0x0100_0100, 0x0001_0100, 0x0101_0100,
    0x0000_0001, 0x0100_0001, 0x0001_0001, 0x0101_0001, 0x0000_0101, 0x0100_0101, 0x0001_0101, 0x0101_0101]

  lemma NibbleCases(n: bv32)
    requires n < 16
    ensures n == 0 || n == 1 || n == 2 || n == 3 || n == 4 || n == 5 || n == 6 || n == 7
      || n == 8 || n == 9 || n == 10 || n == 11 || n == 12 || n == 13 || n == 14 || n == 15
  {
  }

  lemma LeftEntry(n: bv32)
    requires n < 16
    ensures 0 <= n as int < 16 && LEFTKEY_SWAP[n as int] == LeftSwap(n)
  {
    NibbleCases(n);
  }

  lemma RightEntry(n: bv32)
    requires n < 16
    ensures 0 <= n as int < 16 && RIGHTKEY_SWAP[n as int] == RightSwap(n)
  {
    NibbleCases(n);
  }

  lemma NibbleSmall(x: bv32)
    ensures x & 0xf < 16
  {
  }

  /** Table look-up for a nibble of the left, and of the right key word. */
  method SwapLeft(x: bv32) returns (r: bv32)
    ensures r == LeftSwap(x & 0xf)
  {
    NibbleSmall(x);
    LeftEntry(x & 0xf);
    r := LEFTKEY_SWAP[(x & 0xf) as int];
  }

  method SwapRight(x: bv32) returns (r: bv32)
    ensures r == RightSwap(x & 0xf)
  {
    NibbleSmall(x);
    RightEntry(x & 0xf);
    r := RIGHTKEY_SWAP[(x & 0xf) as int];
  }

  method ChooseLeft(l: bv32) returns (left: bv32)
    ensures left == LeftHalf(l)
  {
    var p3 := SwapLeft(l);
    var p2 := SwapLeft(l >> 8);
    var p1 := SwapLeft(l >> 16);
    var p0 := SwapLeft(l >> 24);
    var p7 := SwapLeft(l >> 5);
    var p6 := SwapLeft(l >> 13);
    var p5 := SwapLeft(l >> 21);
    var p4 := SwapLeft(l >> 29);
    left := Gather(p3, p2, p1, p0, p7, p6, p5, p4);
  }

  method ChooseRight(r: bv32) returns (right: bv32)
    ensures right == RightHalf(r)
  {
    var p3 := SwapRight(r >> 1);
    var p2 := SwapRight(r >> 9);
    var p1 := SwapRight(r >> 17);
    var p0 := SwapRight(r >> 25);
    var p7 := SwapRight(r >> 4);
    var p6 := SwapRight(r >> 12);
    var p5 := SwapRight(r >> 20);
    var p4 := SwapRight(r >> 28);
    right := Gather(p3, p2, p1, p0, p7, p6, p5, p4);
  }

  /** The two half keys from the raw key. */
  method PermutedChoice(rawkey: array<bv8>) returns (left: bv32, right: bv32)
    requires rawkey.Length == 8
    ensures Block(left, right) == HalfKeys(rawkey[..])
  {
    var p := ReadBlock(rawkey[..]);
    p := ExchangeRight(By4, p);
    p := ExchangeRight(By0, p);
    left := ChooseLeft(p.left);
    right := ChooseRight(p.right);
  }

  lemma ScheduleRound(key: seq<bv8>, round: nat, l: bv32, r: bv32)
    requires IsBytes8(key) && round < 16
    requires l == HalfAfter(HalfKeys(key).left, round + 1) && r == HalfAfter(HalfKeys(key).right, round + 1)
    ensures Schedule(key)[2 * round] == Subkey0(l, r) && Schedule(key)[2 * round + 1] == Subkey1(l, r)
  {
    RoundSubkeys(HalfKeys(key), round, l, r);
  }

  /** The subkeys of one round. */
  method StoreRound(subkey: array<bv32>, at: nat, round: nat, left: bv32, right: bv32, ghost keys: seq<bv32>)
    requires at + 32 <= subkey.Length && round < 16 && |keys| == 32
    requires keys[2 * round] == Subkey0(left, right) && keys[2 * round + 1] == Subkey1(left, right)
    modifies subkey
    ensures forall k {:trigger subkey[k]} :: 0 <= k < subkey.Length ==>
      subkey[k] == if at + 2 * round <= k < at + 2 * round + 2 then keys[k - at] else old(subkey[k])
  {
    subkey[at + 2 * round] := Subkey0(left, right);
    subkey[at + 2 * round + 1] := Subkey1(left, right);
  }

  /** One turn of the loop: rotate both halves and store the subkeys. */
  method ScheduleTurn(subkey: array<bv32>, at: nat, round: nat, l: bv32, r: bv32, ghost key: seq<bv8>)
    returns (left: bv32, right: bv32)
    requires at + 32 <= subkey.Length && round < 16 && IsBytes8(key)
    requires l == HalfAfter(HalfKeys(key).left, round) && r == HalfAfter(HalfKeys(key).right, round)
    modifies subkey
    ensures left == HalfAfter(HalfKeys(key).left, round + 1) && right == HalfAfter(HalfKeys(key).right, round + 1)
    ensures forall k {:trigger subkey[k]} :: 0 <= k < subkey.Length ==>
      subkey[k] == if at + 2 * round <= k < at + 2 * round + 2 then Schedule(key)[k - at] else old(subkey[k])
  {
    left := Rotate28(l, ROTATIONS[round]);
    right := Rotate28(r, ROTATIONS[round]);
    ScheduleRound(key, round, left, right);
    StoreRound(subkey, at, round, left, right, Schedule(key));
  }

  /** The turns of the loop. */
  method ScheduleTurns(subkey: array<bv32>, at: nat, l: bv32, r: bv32, ghost key: seq<bv8>, ghost keys: seq<bv32>)
    requires at + 32 <= subkey.Length && IsBytes8(key) && keys == Schedule(key) && Block(l, r) == HalfKeys(key)
    modifies subkey
    ensures forall k {:trigger subkey[k]} :: 0 <= k < subkey.Length ==>
      subkey[k] == if at <= k < at + 32 then keys[k - at] else old(subkey[k])
  {
    var left, right := l, r;
    for round := 0 to 16
      invariant left == HalfAfter(HalfKeys(key).left, round) && right == HalfAfter(HalfKeys(key).right, round)
      invariant forall k {:trigger subkey[k]} :: 0 <= k < subkey.Length ==>
        subkey[k] == if at <= k < at + 2 * round then keys[k - at] else old(subkey[k])
    {
      left, right := ScheduleTurn(subkey, at, round, left, right, key);
    }
  }

  lemma Spliced<T>(a: seq<T>, was: seq<T>, at: nat, keys: seq<T>)
    requires |a| == |was| && at + |keys| <= |a|
    requires forall k {:trigger a[k]} :: 0 <= k < |a| ==> a[k] == if at <= k < at + |keys| then keys[k - at] else was[k]
    ensures a == was[..at] + keys + was[at + |keys|..]
  {
  }

  /** des_key_schedule: 32 subkeys into the array from `at` on. */
  method KeySchedule(rawkey: array<bv8>, subkey: array<bv32>, at: nat)
    requires rawkey.Length == 8 && at + 32 <= subkey.Length
    modifies subkey
    ensures subkey[..] == old(subkey[..])[..at] + Schedule(rawkey[..]) + old(subkey[..])[at + 32..]
  {
    ghost var key, keys := rawkey[..], Schedule(rawkey[..]);
    var left, right := PermutedChoice(rawkey);
    ScheduleTurns(subkey, at, left, right, key, keys);
    Spliced(subkey[..], old(subkey[..]), at, keys);
  }

  /** DES_ROUND: the table entries are added to `to` one after the other. */
  method DesRound(b: Boxes, from: bv32, to: bv32, k0: bv32, k1: bv32) returns (r: bv32)
    ensures r == Xor(to, RoundFunction(b, from, k0, k1))
  {
    var work := Xor(from, k0);
    r := AddEven(b, to, work);
    work := Xor(Rotate4(from), k1);
    r := AddOdd(b, r, work);
    RoundInTurn(b, to, from, k0, k1);
  }

  method AddEven(b: Boxes, to: bv32, work: bv32) returns (r: bv32)
    ensures r == Xor(to, EvenBoxes(b, work))
  {
    r := Xor(to, LookUp(b.s8, Six0(work)));
    r := Xor(r, LookUp(b.s6, Six8(work)));
    r := Xor(r, LookUp(b.s4, Six16(work)));
    r := Xor(r, LookUp(b.s2, Six24(work)));
    FourInTurn(to, LookUp(b.s8, Six0(work)), LookUp(b.s6, Six8(work)), LookUp(b.s4, Six16(work)), LookUp(b.s2,
               Six24(work)));
  }

  method AddOdd(b: Boxes, to: bv32, work: bv32) returns (r: bv32)
    ensures r == Xor(to, OddBoxes(b, work))
  {
    r := Xor(to, LookUp(b.s7, Six0(work)));
    r := Xor(r, LookUp(b.s5, Six8(work)));
    r := Xor(r, LookUp(b.s3, Six16(work)));
    r := Xor(r, LookUp(b.s1, Six24(work)));
    FourInTurn(to, LookUp(b.s7, Six0(work)), LookUp(b.s5, Six8(work)), LookUp(b.s3, Six16(work)), LookUp(b.s1,
               Six24(work)));
  }

  predicate Follows(b: Boxes, keys: seq<bv32>, ws: seq<bv32>, j: nat)
    requires 2 * j + 2 <= |keys| && j + 2 < |ws|
  {
    ws[j + 2] == Xor(ws[j], RoundFunction(b, ws[j + 1], keys[2 * j], keys[2 * j + 1]))
  }

  /** The words of a run of rounds, in order. */
  ghost predicate IsRun(b: Boxes, keys: seq<bv32>, ws: seq<bv32>) {
    && 2 * |ws| == |keys| + 4
    && forall j {:trigger Follows(b, keys, ws, j)} :: 0 <= j < |ws| - 2 ==> Follows(b, keys, ws, j)
  }

  function Words(b: Boxes, keys: seq<bv32>, p: Block): (ws: seq<bv32>)
    requires |keys| == 32
    ensures |ws| == 18
  {
    seq(18, i requires 0 <= i < 18 => Word(b, keys, p, i))
  }

  lemma WordsFollow(b: Boxes, keys: seq<bv32>, p: Block, j: nat)
    requires |keys| == 32 && j < 16
    ensures Follows(b, keys, Words(b, keys, p), j)
  {
    var ws := Words(b, keys, p);
    WordNext(b, keys, p, j, ws[j], ws[j + 1], keys[2 * j], keys[2 * j + 1]);
  }

  lemma WordsRun(b: Boxes, keys: seq<bv32>, p: Block)
    requires |keys| == 32
    ensures IsRun(b, keys, Words(b, keys, p))
  {
    forall j | 0 <= j < 16 ensures Follows(b, keys, Words(b, keys, p), j) {
      WordsFollow(b, keys, p, j);
    }
  }

  lemma FirstWords(b: Boxes, keys: seq<bv32>, p: Block)
    requires |keys| == 32
    ensures Words(b, keys, p)[0] == p.left && Words(b, keys, p)[1] == p.right
  {
  }

  lemma LastWords(b: Boxes, keys: seq<bv32>, p: Block, n: nat)
    requires |keys| == 32 && n == 16
    ensures Sixteen(b, keys, p) == Block(Words(b, keys, p)[n + 1], Words(b, keys, p)[n])
  {
  }

  /** One round of a run, with the next pair of subkeys. */
  method NextWord(b: Boxes, k0: bv32, k1: bv32, from: bv32, to: bv32,
                  ghost keys: seq<bv32>, ghost ws: seq<bv32>, ghost j: nat)
    returns (r: bv32)
    requires 2 * j + 2 <= |keys| && k0 == keys[2 * j] && k1 == keys[2 * j + 1]
    requires j + 2 < |ws| && to == ws[j] && from == ws[j + 1] && Follows(b, keys, ws, j)
    ensures r == ws[j + 2]
  {
    r := DesRound(b, from, to, k0, k1);
  }

  /** The pair of subkeys at the key pointer. */
  method NextPair(ks: array<bv32>, at: nat, j: nat, ghost keys: seq<bv32>) returns (k0: bv32, k1: bv32)
    requires at + |keys| <= ks.Length && 2 * j + 2 <= |keys| && keys == ks[at..at + |keys|]
    ensures k0 == keys[2 * j] && k1 == keys[2 * j + 1]
  {
    k0, k1 := ks[at + 2 * j], ks[at + 2 * j + 1];
  }

  /** Two rounds: the left and the right word are updated in turn. */
  method TwoRounds(b: Boxes, ks: array<bv32>, at: nat, l: bv32, r: bv32,
                   ghost keys: seq<bv32>, ghost ws: seq<bv32>, j: nat)
    returns (left: bv32, right: bv32)
    requires at + |keys| <= ks.Length && keys == ks[at..at + |keys|]
    requires IsRun(b, keys, ws) && j + 3 < |ws| && l == ws[j] && r == ws[j + 1]
    ensures left == ws[j + 2] && right == ws[j + 3]
  {
    var k0, k1 := NextPair(ks, at, j, keys);
    var k2, k3 := NextPair(ks, at, j + 1, keys);
    left := NextWord(b, k0, k1, r, l, keys, ws, j);
    right := NextWord(b, k2, k3, left, r, keys, ws, j + 1);
  }

  /** Rounds in pairs. */
  method Rounds(b: Boxes, ks: array<bv32>, at: nat, n: nat, p: Block, ghost keys: seq<bv32>, ghost ws: seq<bv32>)
    returns (left: bv32, right: bv32)
    requires at + |keys| <= ks.Length && keys == ks[at..at + |keys|]
    requires IsRun(b, keys, ws) && |ws| == 2 * n + 2 && ws[0] == p.left && ws[1] == p.right
    ensures left == ws[2 * n] && right == ws[2 * n + 1]
  {
    left, right := p.left, p.right;
    for i := 0 to n
      invariant left == ws[2 * i] && right == ws[2 * i + 1]
    {
      left, right := TwoRounds(b, ks, at, left, right, keys, ws, 2 * i);
    }
  }

  /** The sixteen rounds, which the code writes out. */
  method SixteenRounds(b: Boxes, ks: array<bv32>, at: nat, p: Block, ghost keys: seq<bv32>) returns (q: Block)
    requires at + 32 <= ks.Length && |keys| == 32 && keys == ks[at..at + 32]
    ensures q == Sixteen(b, keys, p)
  {
    var n := 8;
    WordsRun(b, keys, p);
    FirstWords(b, keys, p);
    var left, right := Rounds(b, ks, at, n, p, keys, Words(b, keys, p));
    LastWords(b, keys, p, 2 * n);
    q := Block(right, left);
  }

  /** The forty-eight rounds; the middle sixteen start with the other word, so the words change
      places between the three runs. */
  method FortyEightRounds(b: Boxes, ks: array<bv32>, p: Block) returns (q: Block)
    requires ks.Length == 96
    ensures q == FortyEight(b, ks[..], p)
  {
    ghost var keys := ks[..];
    assert keys[..32] == ks[0..32] && keys[32..64] == ks[32..64] && keys[64..] == ks[64..96];
    q := SixteenRounds(b, ks, 0, p, keys[..32]);
    q := SixteenRounds(b, ks, 32, q, keys[32..64]);
    q := SixteenRounds(b, ks, 64, q, keys[64..]);
  }

  // ---------- Contexts ----------

  /** The loop of des_setkey; it does not look at the subkeys. */
  method FillDecrypt<T>(enc: array<T>, dec: array<T>)
    requires enc.Length == 32 && dec.Length == 32 && enc != dec
    modifies dec
    ensures dec[..] == ReversedKeys(enc[..])
  {
    var i := 0;
    while i < 32
      invariant 0 <= i <= 32 && i % 2 == 0
      invariant forall k {:trigger dec[k]} :: 0 <= k < i ==> dec[k] == ReversedKeys(enc[..])[k]
    {
      dec[i] := enc[30 - i];
      dec[i + 1] := enc[31 - i];
      i := i + 2;
    }
  }

  /** WRITE_64BIT_DATA. */
  method StoreBlock(to: array<bv8>, q: Block)
    requires to.Length == 8
    modifies to
    ensures to[..] == WriteBlock(q)
  {
    to[0], to[1], to[2], to[3] := Byte0(q.left), Byte1(q.left), Byte2(q.left), Byte3(q.left);
    to[4], to[5], to[6], to[7] := Byte0(q.right), Byte1(q.right), Byte2(q.right), Byte3(q.right);
  }

  /** The subkeys of one DES key. */
  class DesContext {
    const encryptSubkeys: array<bv32>
    const decryptSubkeys: array<bv32>

    ghost predicate Valid() {
      encryptSubkeys.Length == 32 && decryptSubkeys.Length == 32 && encryptSubkeys != decryptSubkeys
    }

    /** The context holds the subkeys of the key. */
    ghost predicate HasKey(key: seq<bv8>)
      requires Valid() && IsBytes8(key)
      reads encryptSubkeys, decryptSubkeys
    {
      encryptSubkeys[..] == Schedule(key) && decryptSubkeys[..] == ReversedKeys(Schedule(key))
    }

    constructor ()
      ensures Valid() && fresh(encryptSubkeys) && fresh(decryptSubkeys)
    {
      encryptSubkeys := new bv32[32];
      decryptSubkeys := new bv32[32];
    }

    /** des_setkey; nothing is done after a failed self test. */
    method SetKey(key: array<bv8>, selftestFailed: bool) returns (ok: bool)
      requires Valid() && key.Length == 8
      modifies encryptSubkeys, decryptSubkeys
      ensures ok == !selftestFailed
      ensures ok ==> HasKey(key[..])
      ensures !ok ==>
        && encryptSubkeys[..] == old(encryptSubkeys[..])
        && decryptSubkeys[..] == old(decryptSubkeys[..])
    {
      if selftestFailed {
        return false;
      }
      KeySchedule(key, encryptSubkeys, 0);
      FillDecrypt(encryptSubkeys, decryptSubkeys);
      return true;
    }

    /** des_ecb_crypt; `from` and `to` may be the same buffer. */
    method EcbCrypt(b: Boxes, from: array<bv8>, to: array<bv8>, decrypt: bool, ghost key: seq<bv8>)
      requires Valid() && IsBytes8(key) && HasKey(key) && from.Length == 8 && to.Length == 8
      modifies to
      ensures to[..] == if decrypt then Decrypt(b, key, old(from[..])) else Encrypt(b, key, old(from[..]))
    {
      var keys := if decrypt then decryptSubkeys else encryptSubkeys;
      ghost var subkeys := keys[..];
      assert keys[0..32] == subkeys;
      var p := InitialPermutation(ReadBlock(from[..]));
      var q := SixteenRounds(b, keys, 0, p, subkeys);
      StoreBlock(to, FinalPermutation(q));
    }
  }

  /** Copies a pair of subkeys. */
  method CopyPair<T>(src: array<T>, at: nat, dst: array<T>, to: nat)
    requires at + 2 <= src.Length && to + 2 <= dst.Length && (src == dst ==> at + 2 <= to)
    modifies dst
    ensures forall k {:trigger dst[k]} :: 0 <= k < dst.Length ==>
      dst[k] == if k == to then old(src[at]) else if k == to + 1 then old(src[at + 1]) else old(dst[k])
  {
    dst[to] := src[at];
    dst[to + 1] := src[at + 1];
  }

  lemma PairReversed<T>(keys: seq<T>, i: nat)
    requires |keys| == 32 && i < 32 && i % 2 == 0
    ensures ReversedKeys(keys)[i] == keys[30 - i] && ReversedKeys(keys)[i + 1] == keys[31 - i]
  {
  }

  /** A turn of the loop of tripledes_set2keys, for keys whose reversals are `r1` and `r2`. */
  method TurnTwo<T>(enc: array<T>, dec: array<T>, i: nat, ghost k1: seq<T>, ghost k2: seq<T>,
                    ghost r1: seq<T>, ghost r2: seq<T>)
    requires enc.Length == 96 && dec.Length == 96 && enc != dec && i + 2 <= 32
    requires |k1| == 32 && |k2| == 32 && |r1| == 32 && |r2| == 32
    requires enc[..32] == k1 && dec[32..64] == k2
    requires r1[i] == k1[30 - i] && r1[i + 1] == k1[31 - i] && r2[i] == k2[30 - i] && r2[i + 1] == k2[31 - i]
    modifies enc, dec
    ensures forall k {:trigger enc[k]} :: 0 <= k < 96 ==>
      enc[k] == if 32 + i <= k < 34 + i then r2[k - 32] else if 64 + i <= k < 66 + i then k1[k - 64] else old(enc[k])
    ensures forall k {:trigger dec[k]} :: 0 <= k < 96 ==>
      dec[k] == if i <= k < i + 2 then r1[k] else if 64 + i <= k < 66 + i then r1[k - 64] else old(dec[k])
  {
    CopyPair(enc, 30 - i, dec, i);
    CopyPair(dec, 62 - i, enc, i + 32);
    CopyPair(enc, i, enc, i + 64);
    CopyPair(dec, i, dec, i + 64);
  }

  /** The loop of tripledes_set2keys. */
  method FillTwo<T>(enc: array<T>, dec: array<T>, ghost k1: seq<T>, ghost k2: seq<T>)
    requires enc.Length == 96 && dec.Length == 96 && enc != dec && |k1| == 32 && |k2| == 32
    requires enc[..32] == k1 && dec[32..64] == k2
    modifies enc, dec
    ensures enc[..] == k1 + ReversedKeys(k2) + k1
    ensures dec[..] == ReversedKeys(k1) + k2 + ReversedKeys(k1)
  {
    ghost var r1, r2 := ReversedKeys(k1), ReversedKeys(k2);
    var i := 0;
    while i < 32
      invariant 0 <= i <= 32 && i % 2 == 0
      invariant enc[..32] == k1 && dec[32..64] == k2
      invariant forall k {:trigger enc[k]} :: 32 <= k < 32 + i ==> enc[k] == r2[k - 32]
      invariant forall k {:trigger enc[k]} :: 64 <= k < 64 + i ==> enc[k] == k1[k - 64]
      invariant forall k {:trigger dec[k]} :: 0 <= k < i ==> dec[k] == r1[k]
      invariant forall k {:trigger dec[k]} :: 64 <= k < 64 + i ==> dec[k] == r1[k - 64]
    {
      PairReversed(k1, i);
      PairReversed(k2, i);
      TurnTwo(enc, dec, i, k1, k2, r1, r2);
      i := i + 2;
    }
  }

  /** A turn of the loop of tripledes_set3keys. */
  method TurnThree<T>(enc: array<T>, dec: array<T>, i: nat, ghost k1: seq<T>, ghost k2: seq<T>, ghost k3: seq<T>,
                      ghost r1: seq<T>, ghost r2: seq<T>, ghost r3: seq<T>)
    requires enc.Length == 96 && dec.Length == 96 && enc != dec && i + 2 <= 32
    requires |k1| == 32 && |k2| == 32 && |k3| == 32 && |r1| == 32 && |r2| == 32 && |r3| == 32
    requires enc[..32] == k1 && dec[32..64] == k2 && enc[64..] == k3
    requires r1[i] == k1[30 - i] && r1[i + 1] == k1[31 - i] && r2[i] == k2[30 - i] && r2[i + 1] == k2[31 - i]
    requires r3[i] == k3[30 - i] && r3[i + 1] == k3[31 - i]
    modifies enc, dec
    ensures forall k {:trigger enc[k]} :: 0 <= k < 96 ==>
      enc[k] == if 32 + i <= k < 34 + i then r2[k - 32] else old(enc[k])
    ensures forall k {:trigger dec[k]} :: 0 <= k < 96 ==>
      dec[k] == if i <= k < i + 2 then r3[k] else if 64 + i <= k < 66 + i then r1[k - 64] else old(dec[k])
  {
    CopyPair(enc, 94 - i, dec, i);
    CopyPair(dec, 62 - i, enc, i + 32);
    CopyPair(enc, 30 - i, dec, i + 64);
  }

  /** The loop of tripledes_set3keys. */
  method FillThree<T>(enc: array<T>, dec: array<T>, ghost k1: seq<T>, ghost k2: seq<T>, ghost k3: seq<T>)
    requires enc.Length == 96 && dec.Length == 96 && enc != dec && |k1| == 32 && |k2| == 32 && |k3| == 32
    requires enc[..32] == k1 && dec[32..64] == k2 && enc[64..] == k3
    modifies enc, dec
    ensures enc[..] == k1 + ReversedKeys(k2) + k3
    ensures dec[..] == ReversedKeys(k3) + k2 + ReversedKeys(k1)
  {
    ghost var r1, r2, r3 := ReversedKeys(k1), ReversedKeys(k2), ReversedKeys(k3);
    var i := 0;
    while i < 32
      invariant 0 <= i <= 32 && i % 2 == 0
      invariant enc[..32] == k1 && dec[32..64] == k2 && enc[64..] == k3
      invariant forall k {:trigger enc[k]} :: 32 <= k < 32 + i ==> enc[k] == r2[k - 32]
      invariant forall k {:trigger dec[k]} :: 0 <= k < i ==> dec[k] == r3[k]
      invariant forall k {:trigger dec[k]} :: 64 <= k < 64 + i ==> dec[k] == r1[k - 64]
    {
      PairReversed(k1, i);
      PairReversed(k2, i);
      PairReversed(k3, i);
      TurnThree(enc, dec, i, k1, k2, k3, r1, r2, r3);
      i := i + 2;
    }
  }

  /** The subkeys of two or three DES keys. */
  class TripleContext {
    const encryptSubkeys: array<bv32>
    const decryptSubkeys: array<bv32>

    ghost predicate Valid() {
      encryptSubkeys.Length == 96 && decryptSubkeys.Length == 96 && encryptSubkeys != decryptSubkeys
    }

    /** The context holds the subkeys of the three keys. */
    ghost predicate HasKeys(key1: seq<bv8>, key2: seq<bv8>, key3: seq<bv8>)
      requires Valid() && IsBytes8(key1) && IsBytes8(key2) && IsBytes8(key3)
      reads encryptSubkeys, decryptSubkeys
    {
      encryptSubkeys[..] == EncryptKeys(key1, key2, key3) && decryptSubkeys[..] == DecryptKeys(key1, key2, key3)
    }

    constructor ()
      ensures Valid() && fresh(encryptSubkeys) && fresh(decryptSubkeys)
    {
      encryptSubkeys := new bv32[96];
      decryptSubkeys := new bv32[96];
    }

    /** tripledes_set2keys: the first key is also the third. */
    method Set2Keys(key1: array<bv8>, key2: array<bv8>)
      requires Valid() && key1.Length == 8 && key2.Length == 8
      modifies encryptSubkeys, decryptSubkeys
      ensures HasKeys(key1[..], key2[..], key1[..])
    {
      ghost var k1, k2 := Schedule(key1[..]), Schedule(key2[..]);
      KeySchedule(key1, encryptSubkeys, 0);
      assert encryptSubkeys[..32] == k1;
      KeySchedule(key2, decryptSubkeys, 32);
      assert decryptSubkeys[32..64] == k2;
      FillTwo(encryptSubkeys, decryptSubkeys, k1, k2);
    }

    /** tripledes_set3keys. */
    method Set3Keys(key1: array<bv8>, key2: array<bv8>, key3: array<bv8>)
      requires Valid() && key1.Length == 8 && key2.Length == 8 && key3.Length == 8
      modifies encryptSubkeys, decryptSubkeys
      ensures HasKeys(key1[..], key2[..], key3[..])
    {
      ghost var k1, k2, k3 := Schedule(key1[..]), Schedule(key2[..]), Schedule(key3[..]);
      KeySchedule(key1, encryptSubkeys, 0);
      assert encryptSubkeys[..32] == k1;
      KeySchedule(key2, decryptSubkeys, 32);
      assert decryptSubkeys[32..64] == k2;
      KeySchedule(key3, encryptSubkeys, 64);
      assert encryptSubkeys[..32] == k1 && encryptSubkeys[64..] == k3;
      FillThree(encryptSubkeys, decryptSubkeys, k1, k2, k3);
    }

    /** tripledes_ecb_crypt. */
    method EcbCrypt(b: Boxes, from: array<bv8>, to: array<bv8>, decrypt: bool,
                    ghost key1: seq<bv8>, ghost key2: seq<bv8>, ghost key3: seq<bv8>)
      requires Valid() && IsBytes8(key1) && IsBytes8(key2) && IsBytes8(key3) && HasKeys(key1, key2, key3)
      requires from.Length == 8 && to.Length == 8
      modifies to
      ensures to[..] == TripleCrypt(b,
        if decrypt then DecryptKeys(key1, key2, key3) else EncryptKeys(key1, key2, key3), old(from[..]))
    {
      var keys := if decrypt then decryptSubkeys else encryptSubkeys;
      var p := InitialPermutation(ReadBlock(from[..]));
      var q := FortyEightRounds(b, keys, p);
      StoreBlock(to, FinalPermutation(q));
    }
  }
}
