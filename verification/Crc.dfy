/** The table-driven 16-bit cyclic redundancy check of benchmark/crc.c. */
module Crc {

  function Hi(x: bv16): bv8 {
    (x >> 8) as bv8
  }

  function Lo(x: bv16): bv8 {
    (x & 0xFF) as bv8
  }

  function Xor(x: bv16, y: bv16): bv16 {
    x ^ y
  }

  function Xor8(b: bv8, c: bv8): bv8 {
    b ^ c
  }

  /** A byte as the high, or as the low byte of a word. */
  function High(b: bv8): bv16 {
    (b as bv16) << 8
  }

  function Low(b: bv8): bv16 {
    b as bv16
  }

  /** The 16-bit word with the given high and low byte. */
  function Word(high: bv8, low: bv8): bv16 {
    High(high) | Low(low)
  }

  /** Multiplication by x modulo the generator x^16 + x^12 + x^5 + 1. */
  function Step(x: bv16): bv16 {
    (x << 1) ^ (x >> 15) ^ ((x >> 15) << 5) ^ ((x >> 15) << 12)
  }

  function Steps(x: bv16, n: nat): bv16 {
    if n == 0 then x else Step(Steps(x, n - 1))
  }

  /** The check value after one more byte, bit by bit. */
  function Update(crc: bv16, b: bv8): bv16 {
    Steps(Xor(crc, High(b)), 8)
  }

  /** The check value of a message, byte by byte. */
  function Fold(crc: bv16, msg: seq<bv8>): bv16 {
    if msg == [] then crc else Update(Fold(crc, msg[..|msg| - 1]), msg[|msg| - 1])
  }

  // ---------- The division step ----------

  lemma StepOverXor(x: bv16, y: bv16)
    ensures Step(x ^ y) == Step(x) ^ Step(y)
  {
  }

  lemma StepLinear(x: bv16, y: bv16)
    ensures Step(Xor(x, y)) == Xor(Step(x), Step(y))
  {
    StepOverXor(x, y);
  }

  lemma {:induction false} StepsLinear(x: bv16, y: bv16, n: nat)
    ensures Steps(Xor(x, y), n) == Xor(Steps(x, n), Steps(y, n))
  {
    if n > 0 {
      StepsLinear(x, y, n - 1);
      StepLinear(Steps(x, n - 1), Steps(y, n - 1));
    }
  }

  lemma StepInjective(x: bv16, y: bv16)
    requires Step(x) == Step(y)
    ensures x == y
  {
  }

  /** No two values are divided alike. */
  lemma {:induction false} StepsInjective(x: bv16, y: bv16, n: nat)
    requires Steps(x, n) == Steps(y, n)
    ensures x == y
  {
    if n > 0 {
      StepInjective(Steps(x, n - 1), Steps(y, n - 1));
      StepsInjective(x, y, n - 1);
    }
  }

  lemma LowShifts(b: bv8) returns (x1: bv16, x2: bv16, x3: bv16, x4: bv16, x5: bv16, x6: bv16, x7: bv16)
    ensures Step(Low(b)) == x1 && Step(x1) == x2 && Step(x2) == x3 && Step(x3) == x4
    ensures Step(x4) == x5 && Step(x5) == x6 && Step(x6) == x7 && Step(x7) == High(b)
  {
    var x := Low(b);
    x1, x2, x3, x4, x5, x6, x7 := x << 1, x << 2, x << 3, x << 4, x << 5, x << 6, x << 7;
  }

  /** Eight steps shift a low byte up. */
  lemma LowSteps(b: bv8)
    ensures Steps(Low(b), 8) == High(b)
  {
    var x1, x2, x3, x4, x5, x6, x7 := LowShifts(b);
    assert Steps(Low(b), 1) == x1;
    assert Steps(Low(b), 2) == x2;
    assert Steps(Low(b), 3) == x3;
    assert Steps(Low(b), 4) == x4;
    assert Steps(Low(b), 5) == x5;
    assert Steps(Low(b), 6) == x6;
    assert Steps(Low(b), 7) == x7;
  }

  lemma {:induction false} StepsAdd(x: bv16, m: nat, n: nat)
    ensures Steps(x, m + n) == Steps(Steps(x, m), n)
  {
    if n > 0 {
      StepsAdd(x, m, n - 1);
    }
  }

  lemma {:induction false} StepsOfZero(n: nat)
    ensures Steps(0, n) == 0
  {
    if n > 0 {
      StepsOfZero(n - 1);
    }
  }

  // ---------- The table ----------

  /** What the table holds for an index. */
  function Entry(j: bv8): bv16 {
    Update(High(j), 0)
  }

  lemma ZeroByte(x: bv16)
    ensures Xor(x, High(0)) == x
  {
  }

  lemma EntryIsSteps(j: bv8)
    ensures Entry(j) == Steps(High(j), 8)
  {
    ZeroByte(High(j));
  }

  lemma XorHigh(x: bv16, b: bv8)
    ensures Hi(Xor(x, High(b))) == Xor8(b, Hi(x)) && Lo(Xor(x, High(b))) == Lo(x)
  {
  }

  lemma WordIsXor(x: bv16)
    ensures x == Xor(High(Hi(x)), Low(Lo(x)))
  {
  }

  lemma SplitWord(crc: bv16, b: bv8)
    ensures Xor(crc, High(b)) == Xor(High(Xor8(b, Hi(crc))), Low(Lo(crc)))
  {
    XorHigh(crc, b);
    WordIsXor(Xor(crc, High(b)));
  }

  /** The table step is the eight bit steps. */
  lemma TableStep(crc: bv16, b: bv8)
    ensures Update(crc, b) == Xor(Entry(Xor8(b, Hi(crc))), High(Lo(crc)))
  {
    EntryIsSteps(Xor8(b, Hi(crc)));
    SplitWord(crc, b);
    StepsLinear(High(Xor8(b, Hi(crc))), Low(Lo(crc)), 8);
    LowSteps(Lo(crc));
  }

  lemma GeneratorShifts() returns (x1: bv16, x2: bv16, x3: bv16, x4: bv16, x5: bv16, x6: bv16, x7: bv16)
    ensures Step(0x0100) == x1 && Step(x1) == x2 && Step(x2) == x3 && Step(x3) == x4
    ensures Step(x4) == x5 && Step(x5) == x6 && Step(x6) == x7 && Step(x7) == 0x1021
  {
    x1, x2, x3, x4, x5, x6, x7 := 0x0200, 0x0400, 0x0800, 0x1000, 0x2000, 0x4000, 0x8000;
  }

  /** Dividing x^16 by the generator x^16 + x^12 + x^5 + 1 leaves x^12 + x^5 + 1. */
  lemma GeneratorRemainder()
    ensures Entry(1) == 0x1021
  {
    var x1, x2, x3, x4, x5, x6, x7 := GeneratorShifts();
    EntryIsSteps(1);
    var x: bv16 := 0x0100;
    assert High(1) == x;
    assert Steps(x, 1) == x1;
    assert Steps(x, 2) == x2;
    assert Steps(x, 3) == x3;
    assert Steps(x, 4) == x4;
    assert Steps(x, 5) == x5;
    assert Steps(x, 6) == x6;
    assert Steps(x, 7) == x7;
  }

  // ---------- Detection ----------

  lemma {:induction false} FoldAdd(crc: bv16, a: seq<bv8>, b: seq<bv8>)
    ensures Fold(crc, a + b) == Fold(Fold(crc, a), b)
  {
    if b == [] {
      assert a + b == a;
    } else {
      FoldAdd(crc, a, b[..|b| - 1]);
      assert (a + b)[..|a + b| - 1] == a + b[..|b| - 1];
    }
  }

  lemma FoldOne(crc: bv16, b: bv8)
    ensures Fold(crc, [b]) == Update(crc, b)
  {
    assert [b][..0] == [];
  }

  lemma FoldTwo(crc: bv16, high: bv8, low: bv8)
    ensures Fold(crc, [high, low]) == Update(Update(crc, high), low)
  {
    assert [high, low][..1] == [high];
    FoldOne(crc, high);
  }

  lemma WordOf(crc: bv16, high: bv8, low: bv8)
    ensures Xor(Xor(crc, High(high)), Low(low)) == Xor(crc, Word(high, low))
  {
  }

  /** Two bytes are divided as one word. */
  lemma TwoBytes(crc: bv16, high: bv8, low: bv8)
    ensures Fold(crc, [high, low]) == Steps(Xor(crc, Word(high, low)), 16)
  {
    var x := Xor(crc, High(high));
    FoldTwo(crc, high, low);
    WordOf(crc, high, low);
    LowSteps(low);
    StepsLinear(x, Low(low), 8);
    StepsAdd(Xor(x, Low(low)), 8, 8);
  }

  lemma XorZero(x: bv16, y: bv16)
    ensures Xor(x, y) == 0 <==> x == y
  {
  }

  /** A message followed by two bytes has residue 0 exactly when these are its check value,
      high byte first. */
  lemma ResidueZero(crc: bv16, msg: seq<bv8>, high: bv8, low: bv8)
    ensures Fold(crc, msg + [high, low]) == 0 <==> Word(high, low) == Fold(crc, msg)
  {
    FoldAdd(crc, msg, [high, low]);
    var r := Fold(crc, msg);
    TwoBytes(r, high, low);
    XorZero(r, Word(high, low));
    StepsOfZero(16);
    if Steps(Xor(r, Word(high, low)), 16) == 0 {
      StepsInjective(Xor(r, Word(high, low)), 0, 16);
    }
  }

  lemma XorInjective(x: bv16, y: bv16, z: bv16)
    requires Xor(x, y) == Xor(x, z) || Xor(y, x) == Xor(z, x)
    ensures y == z
  {
  }

  lemma UpdateInjective(crc: bv16, crc': bv16, b: bv8)
    requires Update(crc, b) == Update(crc', b)
    ensures crc == crc'
  {
    StepsInjective(Xor(crc, High(b)), Xor(crc', High(b)), 8);
    XorInjective(High(b), crc, crc');
  }

  /** Different check values stay different over the same bytes. */
  lemma {:induction false} FoldInjective(crc: bv16, crc': bv16, msg: seq<bv8>)
    requires Fold(crc, msg) == Fold(crc', msg)
    ensures crc == crc'
  {
    if msg != [] {
      var m := msg[..|msg| - 1];
      UpdateInjective(Fold(crc, m), Fold(crc', m), msg[|msg| - 1]);
      FoldInjective(crc, crc', m);
    }
  }

  lemma WordInjective(h: bv8, l: bv8, h': bv8, l': bv8)
    requires Word(h, l) == Word(h', l')
    ensures h == h' && l == l'
  {
    WordBytes(h, l);
    WordBytes(h', l');
  }

  lemma TwoBytesInjective(crc: bv16, h: bv8, l: bv8, h': bv8, l': bv8)
    requires Fold(crc, [h, l]) == Fold(crc, [h', l'])
    ensures h == h' && l == l'
  {
    TwoBytes(crc, h, l);
    TwoBytes(crc, h', l');
    StepsInjective(Xor(crc, Word(h, l)), Xor(crc, Word(h', l')), 16);
    XorInjective(crc, Word(h, l), Word(h', l'));
    WordInjective(h, l, h', l');
  }

  /** An error burst within two adjacent bytes is always detected. */
  lemma BurstDetected(crc: bv16, a: seq<bv8>, h: bv8, l: bv8, h': bv8, l': bv8, b: seq<bv8>)
    requires (h, l) != (h', l')
    ensures Fold(crc, a + [h, l] + b) != Fold(crc, a + [h', l'] + b)
  {
    FoldAdd(crc, a + [h, l], b);
    FoldAdd(crc, a + [h', l'], b);
    FoldAdd(crc, a, [h, l]);
    FoldAdd(crc, a, [h', l']);
    if Fold(crc, a + [h, l] + b) == Fold(crc, a + [h', l'] + b) {
      FoldInjective(Fold(crc, a + [h, l]), Fold(crc, a + [h', l']), b);
      TwoBytesInjective(Fold(crc, a), h, l, h', l');
    }
  }

  lemma OneByteInjective(crc: bv16, b: bv8, c: bv8)
    requires Update(crc, b) == Update(crc, c)
    ensures b == c
  {
    StepsInjective(Xor(crc, High(b)), Xor(crc, High(c)), 8);
    XorInjective(crc, High(b), High(c));
    assert Hi(High(b)) == b && Hi(High(c)) == c;
  }

  /** Two messages that differ in exactly one byte have different check values. */
  lemma ByteDetected(crc: bv16, m: seq<bv8>, k: nat, b: bv8)
    requires k < |m| && m[k] != b
    ensures Fold(crc, m) != Fold(crc, m[k := b])
  {
    var a, c := m[..k], m[k + 1..];
    assert m == a + [m[k]] + c && m[k := b] == a + [b] + c;
    FoldAdd(crc, a + [m[k]], c);
    FoldAdd(crc, a + [b], c);
    FoldAdd(crc, a, [m[k]]);
    FoldAdd(crc, a, [b]);
    FoldOne(Fold(crc, a), m[k]);
    FoldOne(Fold(crc, a), b);
    if Fold(crc, m) == Fold(crc, m[k := b]) {
      FoldInjective(Fold(crc, a + [m[k]]), Fold(crc, a + [b]), c);
      OneByteInjective(Fold(crc, a), m[k], b);
    }
  }

  // ---------- Bursts of bits ----------

  predicate Has(b: bv8, mask: bv8) {
    b & mask != 0
  }

  /** The bits of a byte, the highest first. */
  function Bits(b: bv8): (r: seq<bool>)
    ensures |r| == 8
  {
    [Has(b, 0x80), Has(b, 0x40), Has(b, 0x20), Has(b, 0x10), Has(b, 0x08), Has(b, 0x04), Has(b, 0x02), Has(b, 0x01)]
  }

  /** The bits of a message in the order of transmission. */
  function BitsOf(msg: seq<bv8>): (r: seq<bool>)
    ensures |r| == 8 * |msg|
  {
    if msg == [] then [] else BitsOf(msg[..|msg| - 1]) + Bits(msg[|msg| - 1])
  }

  function Top(bit: bool): bv16 {
    if bit then 0x8000 else 0
  }

  function BitStep(crc: bv16, bit: bool): bv16 {
    Step(Xor(crc, Top(bit)))
  }

  /** The check value of a string of bits. */
  function BitFold(crc: bv16, bits: seq<bool>): bv16 {
    if bits == [] then crc else BitStep(BitFold(crc, bits[..|bits| - 1]), bits[|bits| - 1])
  }

  lemma {:induction false} BitFoldAdd(crc: bv16, a: seq<bool>, b: seq<bool>)
    ensures BitFold(crc, a + b) == BitFold(BitFold(crc, a), b)
  {
    if b == [] {
      assert a + b == a;
    } else {
      BitFoldAdd(crc, a, b[..|b| - 1]);
      assert (a + b)[..|a + b| - 1] == a + b[..|b| - 1];
    }
  }

  lemma {:induction false} BitFoldInjective(crc: bv16, crc': bv16, bits: seq<bool>)
    requires BitFold(crc, bits) == BitFold(crc', bits)
    ensures crc == crc'
  {
    if bits != [] {
      var b, t := bits[..|bits| - 1], Top(bits[|bits| - 1]);
      StepInjective(Xor(BitFold(crc, b), t), Xor(BitFold(crc', b), t));
      XorInjective(t, BitFold(crc, b), BitFold(crc', b));
      BitFoldInjective(crc, crc', b);
    }
  }

  lemma TopSplits(b: bv8)
    ensures High(b) == Xor(Top(Has(b, 0x80)), High(b & 0x7f))
  {
  }

  lemma RestShifts(b: bv8)
    ensures Step(High(b & 0x7f)) == High(b << 1)
  {
  }

  lemma XorAssoc(x: bv16, y: bv16, z: bv16)
    ensures Xor(Xor(x, y), z) == Xor(x, Xor(y, z))
  {
  }

  /** The highest bit of a byte is divided before the others. */
  lemma NextBit(x: bv16, b: bv8)
    ensures Step(Xor(x, High(b))) == Xor(BitStep(x, Has(b, 0x80)), High(b << 1))
  {
    var t := Top(Has(b, 0x80));
    TopSplits(b);
    XorAssoc(x, t, High(b & 0x7f));
    StepLinear(Xor(x, t), High(b & 0x7f));
    RestShifts(b);
  }

  /** The first bits of a byte, and the byte without them. */
  function FirstBits(b: bv8, n: nat): seq<bool> {
    if n == 0 then [] else FirstBits(b, n - 1) + [Has(Rest(b, n - 1), 0x80)]
  }

  function Rest(b: bv8, n: nat): bv8 {
    if n == 0 then b else Rest(b, n - 1) << 1
  }

  lemma {:induction false} BitsDivided(x: bv16, b: bv8, n: nat)
    ensures Steps(Xor(x, High(b)), n) == Xor(BitFold(x, FirstBits(b, n)), High(Rest(b, n)))
  {
    if n > 0 {
      BitsDivided(x, b, n - 1);
      var w := FirstBits(b, n);
      assert w[..|w| - 1] == FirstBits(b, n - 1) && w[|w| - 1] == Has(Rest(b, n - 1), 0x80);
      NextBit(BitFold(x, FirstBits(b, n - 1)), Rest(b, n - 1));
    }
  }

  lemma RestBits(b: bv8)
    ensures Rest(b, 1) == b << 1 && Rest(b, 2) == b << 2 && Rest(b, 3) == b << 3 && Rest(b, 4) == b << 4
    ensures Rest(b, 5) == b << 5 && Rest(b, 6) == b << 6 && Rest(b, 7) == b << 7 && Rest(b, 8) == 0
  {
  }

  lemma ShiftedBits(b: bv8)
    ensures Has(b << 1, 0x80) == Has(b, 0x40) && Has(b << 2, 0x80) == Has(b, 0x20)
    ensures Has(b << 3, 0x80) == Has(b, 0x10) && Has(b << 4, 0x80) == Has(b, 0x08)
    ensures Has(b << 5, 0x80) == Has(b, 0x04) && Has(b << 6, 0x80) == Has(b, 0x02)
    ensures Has(b << 7, 0x80) == Has(b, 0x01)
  {
  }

  lemma {:induction false} FirstBitAt(b: bv8, n: nat, i: nat)
    requires i < n
    ensures |FirstBits(b, n)| == n && FirstBits(b, n)[i] == Has(Rest(b, i), 0x80)
  {
    if n > 1 {
      FirstBitAt(b, n - 1, if i < n - 1 then i else 0);
    }
  }

  lemma BitAt(b: bv8, i: nat)
    requires i < 8
    ensures Bits(b)[i] == Has(Rest(b, i), 0x80)
  {
    RestBits(b);
    ShiftedBits(b);
  }

  lemma EightBits(b: bv8, n: nat)
    requires n == 8
    ensures FirstBits(b, n) == Bits(b)
  {
    var w, v := FirstBits(b, n), Bits(b);
    FirstBitAt(b, n, 0);
    forall i | 0 <= i < n ensures w[i] == v[i] {
      FirstBitAt(b, n, i);
      BitAt(b, i);
    }
  }

  lemma UpdateIsBitFold(crc: bv16, b: bv8)
    ensures Update(crc, b) == BitFold(crc, Bits(b))
  {
    BitsDivided(crc, b, 8);
    EightBits(b, 8);
    RestBits(b);
    ZeroByte(BitFold(crc, Bits(b)));
  }

  /** The check value of a message is that of its bits. */
  lemma {:induction false} FoldIsBitFold(crc: bv16, msg: seq<bv8>)
    ensures Fold(crc, msg) == BitFold(crc, BitsOf(msg))
  {
    if msg != [] {
      var m, b := msg[..|msg| - 1], msg[|msg| - 1];
      FoldIsBitFold(crc, m);
      BitFoldAdd(crc, BitsOf(m), Bits(b));
      UpdateIsBitFold(Fold(crc, m), b);
    }
  }

  function Mark(bit: bool, mask: bv8): bv8 {
    if bit then mask else 0
  }

  /** The byte with the given bits. */
  function Byte(w: seq<bool>): bv8
    requires |w| == 8
  {
    Mark(w[0], 0x80) | Mark(w[1], 0x40) | Mark(w[2], 0x20) | Mark(w[3], 0x10)
    | Mark(w[4], 0x08) | Mark(w[5], 0x04) | Mark(w[6], 0x02) | Mark(w[7], 0x01)
  }

  lemma BitsOfByte(w: seq<bool>)
    requires |w| == 8
    ensures Bits(Byte(w)) == w
  {
  }

  /** Sixteen bits, whatever their place in the bytes of a message, are divided as two bytes. */
  lemma SixteenBits(crc: bv16, w: seq<bool>)
    requires |w| == 16
    ensures BitFold(crc, w) == Fold(crc, [Byte(w[..8]), Byte(w[8..])])
  {
    BitsOfByte(w[..8]);
    BitsOfByte(w[8..]);
    BitFoldAdd(crc, w[..8], w[8..]);
    assert w[..8] + w[8..] == w;
    UpdateIsBitFold(crc, Byte(w[..8]));
    UpdateIsBitFold(BitFold(crc, w[..8]), Byte(w[8..]));
    FoldTwo(crc, Byte(w[..8]), Byte(w[8..]));
  }

  lemma SixteenBitsInjective(crc: bv16, w: seq<bool>, w': seq<bool>)
    requires |w| == |w'| == 16 && BitFold(crc, w) == BitFold(crc, w')
    ensures w == w'
  {
    SixteenBits(crc, w);
    SixteenBits(crc, w');
    TwoBytesInjective(crc, Byte(w[..8]), Byte(w[8..]), Byte(w'[..8]), Byte(w'[8..]));
    BitsOfByte(w[..8]);
    BitsOfByte(w[8..]);
    BitsOfByte(w'[..8]);
    BitsOfByte(w'[8..]);
    assert w == w[..8] + w[8..] && w' == w'[..8] + w'[8..];
  }

  /** Up to sixteen bits in a row are told apart by the register. */
  lemma FewBitsInjective(crc: bv16, w: seq<bool>, w': seq<bool>)
    requires |w| == |w'| <= 16 && BitFold(crc, w) == BitFold(crc, w')
    ensures w == w'
  {
    var zeros := seq(16 - |w|, i => false);
    BitFoldAdd(crc, w, zeros);
    BitFoldAdd(crc, w', zeros);
    SixteenBitsInjective(crc, w + zeros, w' + zeros);
    assert w == (w + zeros)[..|w|] && w' == (w' + zeros)[..|w|];
  }

  lemma BitStringDetected(crc: bv16, a: seq<bool>, w: seq<bool>, w': seq<bool>, c: seq<bool>)
    requires |w| == |w'| <= 16 && w != w'
    ensures BitFold(crc, a + w + c) != BitFold(crc, a + w' + c)
  {
    BitFoldAdd(crc, a + w, c);
    BitFoldAdd(crc, a + w', c);
    BitFoldAdd(crc, a, w);
    BitFoldAdd(crc, a, w');
    if BitFold(crc, a + w + c) == BitFold(crc, a + w' + c) {
      BitFoldInjective(BitFold(crc, a + w), BitFold(crc, a + w'), c);
      FewBitsInjective(BitFold(crc, a), w, w');
    }
  }

  lemma BitsInjective(b: bv8, c: bv8)
    requires Bits(b) == Bits(c)
    ensures b == c
  {
    UpdateIsBitFold(0, b);
    UpdateIsBitFold(0, c);
    OneByteInjective(0, b, c);
  }

  lemma SplitEqual(a: seq<bool>, b: seq<bool>, c: seq<bool>, d: seq<bool>)
    requires a + b == c + d && |a| == |c|
    ensures a == c && b == d
  {
    assert a == (a + b)[..|a|] && b == (a + b)[|a|..];
  }

  lemma {:induction false} BitsOfInjective(m: seq<bv8>, m': seq<bv8>)
    requires |m| == |m'| && BitsOf(m) == BitsOf(m')
    ensures m == m'
  {
    if m != [] {
      var a, b, c, d := m[..|m| - 1], m[|m| - 1], m'[..|m| - 1], m'[|m| - 1];
      SplitEqual(BitsOf(a), Bits(b), BitsOf(c), Bits(d));
      BitsInjective(b, d);
      BitsOfInjective(a, c);
      assert m == a + [b] && m' == c + [d];
    }
  }

  /** Two strings of bits that differ within sixteen bits in a row at most. */
  ghost predicate Close(s: seq<bool>, s': seq<bool>, i: nat) {
    |s| == |s'| && forall k :: 0 <= k < |s| && !(i <= k < i + 16) ==> s[k] == s'[k]
  }

  lemma CloseSplits(s: seq<bool>, s': seq<bool>, i: nat)
      returns (a: seq<bool>, w: seq<bool>, w': seq<bool>, c: seq<bool>)
    requires Close(s, s', i)
    ensures |w| == |w'| <= 16 && s == a + w + c && s' == a + w' + c
  {
    var lo, hi := if i < |s| then i else |s|, if i + 16 < |s| then i + 16 else |s|;
    a, w, w', c := s[..lo], s[lo..hi], s'[lo..hi], s[hi..];
  }

  /** A burst of up to sixteen bits is always detected, wherever it starts. */
  lemma BitBurstDetected(crc: bv16, m: seq<bv8>, m': seq<bv8>, i: nat)
    requires |m| == |m'| && m != m' && Close(BitsOf(m), BitsOf(m'), i)
    ensures Fold(crc, m) != Fold(crc, m')
  {
    FoldIsBitFold(crc, m);
    FoldIsBitFold(crc, m');
    if BitsOf(m) == BitsOf(m') {
      BitsOfInjective(m, m');
    }
    var a, w, w', c := CloseSplits(BitsOf(m), BitsOf(m'), i);
    BitStringDetected(crc, a, w, w', c);
  }

  // ---------- Bit reversal ----------

  /** The eight bits in reverse order. */
  function Reverse8(b: bv8): bv8 {
    (b >> 7) | ((b >> 5) & 2) | ((b >> 3) & 4) | ((b >> 1) & 8)
    | ((b << 1) & 16) | ((b << 3) & 32) | ((b << 5) & 64) | (b << 7)
  }

  /** The sixteen bits in reverse order. */
  function Reverse16(x: bv16): bv16 {
    Word(Reverse8(Lo(x)), Reverse8(Hi(x)))
  }

  /** The same multiplication with the bits in reverse order. */
  function ReflectedStep(x: bv16): bv16 {
    (x >> 1) ^ ((x & 1) << 15) ^ ((x & 1) << 10) ^ ((x & 1) << 3)
  }

  function ReflectedSteps(x: bv16, n: nat): bv16 {
    if n == 0 then x else ReflectedStep(ReflectedSteps(x, n - 1))
  }

  function ReflectedUpdate(crc: bv16, b: bv8): bv16 {
    ReflectedSteps(Xor(crc, Low(b)), 8)
  }

  function ReflectedFold(crc: bv16, msg: seq<bv8>): bv16 {
    if msg == [] then crc else ReflectedUpdate(ReflectedFold(crc, msg[..|msg| - 1]), msg[|msg| - 1])
  }

  function ReversedBytes(msg: seq<bv8>): (r: seq<bv8>)
    ensures |r| == |msg|
  {
    if msg == [] then [] else ReversedBytes(msg[..|msg| - 1]) + [Reverse8(msg[|msg| - 1])]
  }

  lemma Reverse8Twice(b: bv8)
    ensures Reverse8(Reverse8(b)) == b
  {
  }

  lemma Reverse8Linear(b: bv8, c: bv8)
    ensures Reverse8(Xor8(b, c)) == Xor8(Reverse8(b), Reverse8(c))
  {
  }

  lemma WordBytes(high: bv8, low: bv8)
    ensures Hi(Word(high, low)) == high && Lo(Word(high, low)) == low
  {
  }

  lemma BytesWord(x: bv16)
    ensures Word(Hi(x), Lo(x)) == x
  {
  }

  lemma ReverseTwice(x: bv16)
    ensures Reverse16(Reverse16(x)) == x
  {
    WordBytes(Reverse8(Lo(x)), Reverse8(Hi(x)));
    Reverse8Twice(Lo(x));
    Reverse8Twice(Hi(x));
    BytesWord(x);
  }

  lemma ReverseStep(x: bv16)
    ensures Reverse16(Step(x)) == ReflectedStep(Reverse16(x))
  {
  }

  lemma XorLow(high: bv8, low: bv8, b: bv8)
    ensures Word(high, Xor8(b, low)) == Xor(Word(high, low), Low(b))
  {
  }

  lemma ReverseXor(x: bv16, b: bv8)
    ensures Reverse16(Xor(x, High(Reverse8(b)))) == Xor(Reverse16(x), Low(b))
  {
    XorHigh(x, Reverse8(b));
    Reverse8Linear(Reverse8(b), Hi(x));
    Reverse8Twice(b);
    XorLow(Reverse8(Lo(x)), Reverse8(Hi(x)), b);
  }

  lemma {:induction false} ReverseSteps(x: bv16, n: nat)
    ensures Reverse16(Steps(x, n)) == ReflectedSteps(Reverse16(x), n)
  {
    if n > 0 {
      ReverseSteps(x, n - 1);
      ReverseStep(Steps(x, n - 1));
    }
  }

  lemma ReverseUpdate(x: bv16, b: bv8)
    ensures Reverse16(Update(x, Reverse8(b))) == ReflectedUpdate(Reverse16(x), b)
  {
    ReverseSteps(Xor(x, High(Reverse8(b))), 8);
    ReverseXor(x, b);
  }

  /** Folding reversed bytes is the reflected check seen in reverse. */
  lemma {:induction false} ReverseFold(crc: bv16, msg: seq<bv8>)
    ensures Reverse16(Fold(crc, ReversedBytes(msg))) == ReflectedFold(Reverse16(crc), msg)
  {
    if msg != [] {
      var m, b := msg[..|msg| - 1], msg[|msg| - 1];
      var r := ReversedBytes(msg);
      ReverseFold(crc, m);
      assert r[..|r| - 1] == ReversedBytes(m) && r[|r| - 1] == Reverse8(b);
      ReverseUpdate(Fold(crc, ReversedBytes(m)), b);
    }
  }

  /** Reversing a byte reverses its bits. */
  lemma ReversedBits(b: bv8)
    ensures Has(Reverse8(b), 0x80) == Has(b, 0x01) && Has(Reverse8(b), 0x40) == Has(b, 0x02)
    ensures Has(Reverse8(b), 0x20) == Has(b, 0x04) && Has(Reverse8(b), 0x10) == Has(b, 0x08)
    ensures Has(Reverse8(b), 0x08) == Has(b, 0x10) && Has(Reverse8(b), 0x04) == Has(b, 0x20)
    ensures Has(Reverse8(b), 0x02) == Has(b, 0x40) && Has(Reverse8(b), 0x01) == Has(b, 0x80)
  {
  }

  // ---------- The code ----------

  lemma StepTop(x: bv16)
    requires x & 0x8000 != 0
    ensures Step(x) == (x << 1) ^ 4129
  {
  }

  lemma StepNoTop(x: bv16)
    requires x & 0x8000 == 0
    ensures Step(x) == x << 1
  {
  }

  /** icrc1: one byte, bit by bit. */
  method Icrc1(crc: bv16, onech: bv8) returns (ans: bv16)
    ensures ans == Update(crc, onech)
  {
    ans := Xor(crc, High(onech));
    for i := 0 to 8
      invariant ans == Steps(Xor(crc, High(onech)), i)
    {
      if ans & 0x8000 != 0 {
        StepTop(ans);
        ans := (ans << 1) ^ 4129;
      } else {
        StepNoTop(ans);
        ans := ans << 1;
      }
    }
  }

  /** The reversed nibbles. */
  const IT: seq<bv8> := [0, 8, 4, 12, 2, 10, 6, 14, 1, 9, 5, 13, 3, 11, 7, 15]

  lemma NibbleCases(n: bv8)
    requires n < 16
    ensures n == 0 || n == 1 || n == 2 || n == 3 || n == 4 || n == 5 || n == 6 || n == 7
      || n == 8 || n == 9 || n == 10 || n == 11 || n == 12 || n == 13 || n == 14 || n == 15
  {
  }

  lemma ReversedNibble(n: bv8)
    requires n < 16
    ensures 0 <= n as int < 16 && IT[n as int] == Reverse8(n) >> 4
  {
    NibbleCases(n);
  }

  lemma ReverseByNibbles(b: bv8)
    ensures Reverse8(b) == ((Reverse8(b & 0xF) >> 4) << 4) | (Reverse8(b >> 4) >> 4)
    ensures b & 0xF < 16 && b >> 4 < 16
  {
  }

  lemma WordOfIndex(j: int)
    requires 0 <= j < 256
    ensures (j as bv16) << 8 == High(j as bv8)
  {
    assert j as bv16 == (j as bv8) as bv16;
  }

  lemma IndexOfByte(b: bv8)
    ensures 0 <= b as int < 256 && (b as int) as bv8 == b
  {
  }

  /** The bytes that `icrc` reads. */
  function Message(line: seq<bv8>, len: nat): seq<bv8>
    requires len < |line|
  {
    line[1..len + 1]
  }

  /** The bytes from the second one on, as many as the length says, and no others. */
  lemma MessageBytes(line: seq<bv8>, line': seq<bv8>, len: nat)
    requires len < |line| && len < |line'|
    ensures |Message(line, len)| == len
    ensures Message(line, len) == Message(line', len) <==> forall k :: 1 <= k <= len ==> line[k] == line'[k]
  {
    var m, m' := Message(line, len), Message(line', len);
    if m == m' {
      forall k | 1 <= k <= len ensures line[k] == line'[k] {
        assert line[k] == m[k - 1] && line'[k] == m'[k - 1];
      }
    }
  }

  function ByteOf(jinit: int): bv8
    requires jinit >= 0
  {
    (jinit % 256) as bv8
  }

  /** The value the register starts from. */
  function Start(crc: bv16, jinit: int, jrev: int): bv16 {
    if jinit >= 0 then Word(ByteOf(jinit), ByteOf(jinit)) else if jrev < 0 then Reverse16(crc) else crc
  }

  /** The check of a message: plain, or reflected. */
  function Check(crc: bv16, msg: seq<bv8>, jinit: int, jrev: int): bv16 {
    if jrev >= 0 then Fold(Start(crc, jinit, jrev), msg)
    else ReflectedFold(Reverse16(Start(crc, jinit, jrev)), msg)
  }

  /** Without a start byte the reflected check starts from the given value itself. */
  lemma ReflectedStart(crc: bv16, msg: seq<bv8>, jinit: int, jrev: int)
    requires jinit < 0 && jrev < 0
    ensures Check(crc, msg, jinit, jrev) == ReflectedFold(crc, msg)
  {
    ReverseTwice(crc);
  }

  lemma WordIs(high: bv8, low: bv8)
    ensures Word(high, low) == ((high as bv16) << 8) | (low as bv16)
  {
  }

  /** The four modes: the register starts from the given value, or from the low byte of the start
      value written twice, and the message is folded plainly or reflected. */
  lemma CheckModes(crc: bv16, msg: seq<bv8>, jinit: int, jrev: int, b: bv8, w: bv16)
    requires jinit >= 0 ==> b as int == jinit % 256 && w == ((b as bv16) << 8) | (b as bv16)
    ensures jinit < 0 && jrev >= 0 ==> Check(crc, msg, jinit, jrev) == Fold(crc, msg)
    ensures jinit >= 0 && jrev >= 0 ==> Check(crc, msg, jinit, jrev) == Fold(w, msg)
    ensures jinit < 0 && jrev < 0 ==> Check(crc, msg, jinit, jrev) == ReflectedFold(crc, msg)
    ensures jinit >= 0 && jrev < 0 ==> Check(crc, msg, jinit, jrev) == ReflectedFold(Reverse16(w), msg)
  {
    if jinit >= 0 {
      IndexOfByte(b);
      WordIs(b, b);
    } else if jrev < 0 {
      ReflectedStart(crc, msg, jinit, jrev);
    }
  }

  function Seen(b: bv8, jrev: int): bv8 {
    if jrev < 0 then Reverse8(b) else b
  }

  /** The message as the loop sees it. */
  function Presented(msg: seq<bv8>, jrev: int): seq<bv8> {
    if jrev < 0 then ReversedBytes(msg) else msg
  }

  /** What is made of the register at the end. */
  function Finished(x: bv16, jrev: int): bv16 {
    if jrev < 0 then Reverse16(x) else x
  }

  lemma CheckIsFold(crc: bv16, msg: seq<bv8>, jinit: int, jrev: int)
    ensures Check(crc, msg, jinit, jrev) == Finished(Fold(Start(crc, jinit, jrev), Presented(msg, jrev)), jrev)
  {
    ReverseFold(Start(crc, jinit, jrev), msg);
  }

  lemma FinishedInjective(x: bv16, y: bv16, jrev: int)
    requires Finished(x, jrev) == Finished(y, jrev)
    ensures x == y
  {
    ReverseTwice(x);
    ReverseTwice(y);
  }

  lemma {:induction false} ReversedByteAt(msg: seq<bv8>, k: nat)
    requires k < |msg|
    ensures ReversedBytes(msg)[k] == Reverse8(msg[k])
  {
    if k < |msg| - 1 {
      ReversedByteAt(msg[..|msg| - 1], k);
    }
  }

  lemma SeenAt(msg: seq<bv8>, k: nat, jrev: int)
    requires k < |msg|
    ensures |Presented(msg, jrev)| == |msg| && Presented(msg, jrev)[k] == Seen(msg[k], jrev)
  {
    ReversedByteAt(msg, k);
  }

  lemma PresentedLength(msg: seq<bv8>, jrev: int)
    ensures |Presented(msg, jrev)| == |msg|
  {
  }

  lemma SeenInjective(b: bv8, c: bv8, jrev: int)
    requires Seen(b, jrev) == Seen(c, jrev)
    ensures b == c
  {
    Reverse8Twice(b);
    Reverse8Twice(c);
  }

  lemma PresentedUpdate(m: seq<bv8>, k: nat, b: bv8, jrev: int)
    requires k < |m|
    ensures |Presented(m, jrev)| == |m| && Presented(m[k := b], jrev) == Presented(m, jrev)[k := Seen(b, jrev)]
  {
    var p, q := Presented(m[k := b], jrev), Presented(m, jrev);
    SeenAt(m, k, jrev);
    SeenAt(m[k := b], k, jrev);
    forall i {:trigger p[i]} | 0 <= i < |m| ensures p[i] == q[k := Seen(b, jrev)][i] {
      SeenAt(m, i, jrev);
      SeenAt(m[k := b], i, jrev);
    }
  }

  lemma PresentedAdd(a: seq<bv8>, b: seq<bv8>, jrev: int)
    ensures Presented(a + b, jrev) == Presented(a, jrev) + Presented(b, jrev)
  {
    var p, q, r := Presented(a + b, jrev), Presented(a, jrev), Presented(b, jrev);
    PresentedLength(a, jrev);
    PresentedLength(b, jrev);
    PresentedLength(a + b, jrev);
    forall i {:trigger p[i]} | 0 <= i < |p| ensures p[i] == (q + r)[i] {
      SeenAt(a + b, i, jrev);
      if i < |a| {
        SeenAt(a, i, jrev);
      } else {
        SeenAt(b, i - |a|, jrev);
      }
    }
  }

  /** In every mode, changing one byte changes the check. */
  lemma CheckDetectsByte(crc: bv16, m: seq<bv8>, k: nat, b: bv8, jinit: int, jrev: int)
    requires k < |m| && m[k] != b
    ensures Check(crc, m, jinit, jrev) != Check(crc, m[k := b], jinit, jrev)
  {
    CheckIsFold(crc, m, jinit, jrev);
    CheckIsFold(crc, m[k := b], jinit, jrev);
    SeenAt(m, k, jrev);
    PresentedUpdate(m, k, b, jrev);
    if Seen(m[k], jrev) == Seen(b, jrev) {
      SeenInjective(m[k], b, jrev);
    }
    ByteDetected(Start(crc, jinit, jrev), Presented(m, jrev), k, Seen(b, jrev));
    if Check(crc, m, jinit, jrev) == Check(crc, m[k := b], jinit, jrev) {
      FinishedInjective(Fold(Start(crc, jinit, jrev), Presented(m, jrev)),
                        Fold(Start(crc, jinit, jrev), Presented(m[k := b], jrev)), jrev);
    }
  }

  lemma PresentedBurst(a: seq<bv8>, h: bv8, l: bv8, b: seq<bv8>, jrev: int)
    ensures Presented(a + [h, l] + b, jrev) ==
      Presented(a, jrev) + [Seen(h, jrev), Seen(l, jrev)] + Presented(b, jrev)
  {
    PresentedAdd(a + [h, l], b, jrev);
    PresentedAdd(a, [h, l], jrev);
    SeenAt([h, l], 0, jrev);
    SeenAt([h, l], 1, jrev);
    assert Presented([h, l], jrev) == [Seen(h, jrev), Seen(l, jrev)];
  }

  /** In every mode, a burst within two adjacent bytes changes the check. */
  lemma CheckDetectsBurst(crc: bv16, a: seq<bv8>, h: bv8, l: bv8, h': bv8, l': bv8, b: seq<bv8>, jinit: int, jrev: int)
    requires (h, l) != (h', l')
    ensures Check(crc, a + [h, l] + b, jinit, jrev) != Check(crc, a + [h', l'] + b, jinit, jrev)
  {
    var start := Start(crc, jinit, jrev);
    CheckIsFold(crc, a + [h, l] + b, jinit, jrev);
    CheckIsFold(crc, a + [h', l'] + b, jinit, jrev);
    PresentedBurst(a, h, l, b, jrev);
    PresentedBurst(a, h', l', b, jrev);
    if Seen(h, jrev) == Seen(h', jrev) && Seen(l, jrev) == Seen(l', jrev) {
      SeenInjective(h, h', jrev);
      SeenInjective(l, l', jrev);
    }
    BurstDetected(start, Presented(a, jrev), Seen(h, jrev), Seen(l, jrev), Seen(h', jrev), Seen(l', jrev),
                  Presented(b, jrev));
    if Check(crc, a + [h, l] + b, jinit, jrev) == Check(crc, a + [h', l'] + b, jinit, jrev) {
      FinishedInjective(Fold(start, Presented(a + [h, l] + b, jrev)), Fold(start, Presented(a + [h', l'] + b,
                        jrev)), jrev);
    }
  }

  lemma PresentedInjective(m: seq<bv8>, m': seq<bv8>, jrev: int)
    requires |m| == |m'| && Presented(m, jrev) == Presented(m', jrev)
    ensures m == m'
  {
    forall k | 0 <= k < |m| ensures m[k] == m'[k] {
      SeenAt(m, k, jrev);
      SeenAt(m', k, jrev);
      SeenInjective(m[k], m'[k], jrev);
    }
  }

  /** In every mode, a burst of up to sixteen bits changes the check. The bits are counted in
      the order in which they are divided: in reversed mode the lowest of a byte first. */
  lemma CheckDetectsBits(crc: bv16, m: seq<bv8>, m': seq<bv8>, i: nat, jinit: int, jrev: int)
    requires |m| == |m'| && m != m' && Close(BitsOf(Presented(m, jrev)), BitsOf(Presented(m', jrev)), i)
    ensures Check(crc, m, jinit, jrev) != Check(crc, m', jinit, jrev)
  {
    var start := Start(crc, jinit, jrev);
    CheckIsFold(crc, m, jinit, jrev);
    CheckIsFold(crc, m', jinit, jrev);
    PresentedLength(m, jrev);
    PresentedLength(m', jrev);
    if Presented(m, jrev) == Presented(m', jrev) {
      PresentedInjective(m, m', jrev);
    }
    BitBurstDetected(start, Presented(m, jrev), Presented(m', jrev), i);
    if Check(crc, m, jinit, jrev) == Check(crc, m', jinit, jrev) {
      FinishedInjective(Fold(start, Presented(m, jrev)), Fold(start, Presented(m', jrev)), jrev);
    }
  }

  lemma FinishedWord(x: bv8, y: bv8, jrev: int)
    ensures Finished(Word(Seen(x, jrev), Seen(y, jrev)), jrev) == if jrev < 0 then Word(y, x) else Word(x, y)
  {
    WordBytes(Reverse8(x), Reverse8(y));
    Reverse8Twice(x);
    Reverse8Twice(y);
  }

  lemma FinishedZero(x: bv16, jrev: int)
    ensures Finished(x, jrev) == 0 <==> x == 0
  {
    ReverseTwice(x);
    assert Reverse16(0) == 0;
  }

  /** In every mode, two bytes behind a message give it residue 0 exactly when they are its
      check: the high byte first, or in reversed mode the low byte. */
  lemma CheckResidueZero(crc: bv16, msg: seq<bv8>, x: bv8, y: bv8, jinit: int, jrev: int)
    ensures Check(crc, msg + [x, y], jinit, jrev) == 0 <==>
      Check(crc, msg, jinit, jrev) == if jrev < 0 then Word(y, x) else Word(x, y)
  {
    var start := Start(crc, jinit, jrev);
    var w, f := Word(Seen(x, jrev), Seen(y, jrev)), Fold(start, Presented(msg, jrev));
    assert msg + [x, y] + [] == msg + [x, y];
    PresentedBurst(msg, x, y, [], jrev);
    assert Presented(msg, jrev) + [Seen(x, jrev), Seen(y, jrev)] + Presented([], jrev) ==
      Presented(msg, jrev) + [Seen(x, jrev), Seen(y, jrev)];
    CheckIsFold(crc, msg + [x, y], jinit, jrev);
    CheckIsFold(crc, msg, jinit, jrev);
    ResidueZero(start, Presented(msg, jrev), Seen(x, jrev), Seen(y, jrev));
    FinishedZero(Fold(start, Presented(msg + [x, y], jrev)), jrev);
    FinishedWord(x, y, jrev);
    if Finished(w, jrev) == Finished(f, jrev) {
      FinishedInjective(w, f, jrev);
    }
  }

  /** icrc with its tables, which are filled on the first call. */
  class Checker {
    const lin: array<bv8>
    const icrctb: array<bv16>
    const rchr: array<bv8>
    var init: bool

    ghost predicate TablesUpTo(n: int)
      requires icrctb.Length == 256 && rchr.Length == 256 && n <= 256
      reads icrctb, rchr
    {
      forall k {:trigger icrctb[k]} {:trigger rchr[k]} :: 0 <= k < n ==>
        icrctb[k] == Entry(k as bv8) && rchr[k] == Reverse8(k as bv8)
    }

    ghost predicate Valid()
      reads this, icrctb, rchr
    {
      && lin.Length == 256 && icrctb.Length == 256 && rchr.Length == 256
      && lin != rchr
      && (init ==> TablesUpTo(256))
    }

    constructor ()
      ensures Valid() && fresh(lin) && fresh(icrctb) && fresh(rchr) && !init
    {
      lin := new bv8[256];
      icrctb := new bv16[256];
      rchr := new bv8[256];
      init := false;
    }

    method FillEntry(j: nat, b: bv8)
      requires icrctb.Length == 256 && rchr.Length == 256 && j < 256 && b == j as bv8
      modifies icrctb, rchr
      ensures icrctb[j] == Entry(b) && rchr[j] == Reverse8(b)
      ensures forall k :: 0 <= k < 256 && k != j ==> icrctb[k] == old(icrctb[k]) && rchr[k] == old(rchr[k])
    {
      WordOfIndex(j);
      icrctb[j] := Icrc1((j as bv16) << 8, 0);
      ReverseByNibbles(b);
      ReversedNibble(b & 0xF);
      ReversedNibble(b >> 4);
      rchr[j] := (IT[(b & 0xF) as int] << 4) | IT[(b >> 4) as int];
    }

    method FillTables()
      requires Valid()
      modifies icrctb, rchr
      ensures Valid() && TablesUpTo(256)
    {
      for j := 0 to 256
        invariant TablesUpTo(j)
      {
        FillEntry(j, j as bv8);
      }
    }

    /** One table look-up. */
    method TableUpdate(cword: bv16, b: bv8) returns (r: bv16)
      requires Valid() && TablesUpTo(256)
      ensures r == Update(cword, b)
    {
      var tmp1 := Xor8(b, Hi(cword));
      IndexOfByte(tmp1);
      TableStep(cword, b);
      r := Xor(icrctb[tmp1 as int], High(Lo(cword)));
    }

    method ReverseByTable(b: bv8) returns (r: bv8)
      requires Valid() && TablesUpTo(256)
      ensures r == Reverse8(b)
    {
      IndexOfByte(b);
      r := rchr[b as int];
    }

    method ReverseWord(x: bv16) returns (r: bv16)
      requires Valid() && TablesUpTo(256)
      ensures r == Reverse16(x)
    {
      var high := ReverseByTable(Hi(x));
      var low := ReverseByTable(Lo(x));
      r := Word(low, high);
    }

    /** icrc: the check of `lin[1..len + 1]`. */
    method Icrc(crc: bv16, len: nat, jinit: int, jrev: int) returns (r: bv16)
      requires Valid() && len <= 255
      modifies this, icrctb, rchr
      ensures Valid() && init
      ensures r == Check(crc, Message(lin[..], len), jinit, jrev)
    {
      if !init {
        FillTables();
        init := true;
      }
      ghost var msg := Message(lin[..], len);
      var cword := crc;
      if jinit >= 0 {
        cword := Word(ByteOf(jinit), ByteOf(jinit));
      } else if jrev < 0 {
        cword := ReverseWord(cword);
      }
      cword := FoldLine(cword, len, jrev);
      if jrev >= 0 {
        r := cword;
      } else {
        ReverseFold(Start(crc, jinit, jrev), msg);
        r := ReverseWord(cword);
      }
    }

    /** One turn of the loop: byte `j` of the line, reversed if asked to. */
    method NextByte(cword: bv16, j: nat, jrev: int) returns (r: bv16)
      requires Valid() && TablesUpTo(256) && j <= 255
      ensures r == Update(cword, Seen(lin[j], jrev))
    {
      if jrev < 0 {
        var b := ReverseByTable(lin[j]);
        r := TableUpdate(cword, b);
      } else {
        r := TableUpdate(cword, lin[j]);
      }
    }

    /** The loop over the bytes of the message. */
    method FoldLine(start: bv16, len: nat, jrev: int) returns (cword: bv16)
      requires Valid() && TablesUpTo(256) && len <= 255
      ensures cword == Fold(start, Presented(Message(lin[..], len), jrev))
    {
      ghost var msg := Message(lin[..], len);
      PresentedEnds(start, msg, jrev);
      cword := start;
      for j := 1 to len + 1
        invariant cword == Fold(start, Presented(msg[..j - 1], jrev))
      {
        PresentedPrefix(start, msg, j, jrev);
        assert lin[j] == msg[j - 1];
        cword := NextByte(cword, j, jrev);
      }
    }

    /** What the benchmark's main does: the check of a line is put behind it, and the check
        of the two together is zero. */
    method AppendAndCheck(n: nat) returns (i1: bv16, i2: bv16)
      requires Valid() && n <= 253
      modifies this, lin, icrctb, rchr
      ensures Valid() && i1 == Fold(0, Message(old(lin[..]), n)) && i2 == 0
      ensures lin[..] == old(lin[..])[n + 1 := Hi(i1)][n + 2 := Lo(i1)]
    {
      ghost var line := lin[..];
      lin[n + 1] := 0;
      MessageStops(line, n, 0, 0);
      i1 := Icrc(0, n, 0, 1);
      ZeroStart(0, 1);
      lin[n + 1] := Hi(i1);
      lin[n + 2] := Lo(i1);
      assert lin[..] == line[n + 1 := Hi(i1)][n + 2 := Lo(i1)];
      MessageStops(line, n, Hi(i1), Lo(i1));
      i2 := Icrc(i1, n + 2, 0, 1);
      ZeroStart(i1, 1);
      BytesWord(i1);
      ResidueZero(0, Message(line, n), Hi(i1), Lo(i1));
    }
  }

  lemma MessageStops(line: seq<bv8>, n: nat, high: bv8, low: bv8)
    requires n + 2 < |line|
    ensures Message(line[n + 1 := high], n) == Message(line, n)
    ensures Message(line[n + 1 := high][n + 2 := low], n + 2) == Message(line, n) + [high, low]
  {
  }

  lemma ZeroStart(crc: bv16, jrev: int)
    ensures Start(crc, 0, jrev) == 0
  {
    assert ByteOf(0) == 0;
  }

  lemma PresentedEnds(crc: bv16, msg: seq<bv8>, jrev: int)
    ensures Fold(crc, Presented(msg[..0], jrev)) == crc
    ensures Fold(crc, Presented(msg[..|msg|], jrev)) == Fold(crc, Presented(msg, jrev))
  {
    assert msg[..|msg|] == msg;
  }

  lemma PresentedPrefix(crc: bv16, msg: seq<bv8>, j: nat, jrev: int)
    requires 0 < j <= |msg|
    ensures Fold(crc, Presented(msg[..j], jrev)) ==
      Update(Fold(crc, Presented(msg[..j - 1], jrev)), Seen(msg[j - 1], jrev))
  {
    assert msg[..j] == msg[..j - 1] + [msg[j - 1]];
    PresentedNext(crc, msg[..j - 1], msg[j - 1], jrev);
  }

  lemma PresentedNext(crc: bv16, msg: seq<bv8>, b: bv8, jrev: int)
    ensures Fold(crc, Presented(msg + [b], jrev)) ==
      Update(Fold(crc, Presented(msg, jrev)), Seen(b, jrev))
  {
    var r := ReversedBytes(msg);
    assert (msg + [b])[..|msg|] == msg;
    assert (r + [Reverse8(b)])[..|r|] == r;
  }
}
