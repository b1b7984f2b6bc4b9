/** CRC-32 (section 8 of RFC 1952), in one go and piece by piece. */
module Crc32 {
  import opened Polynomials

  const CRC_POLYNOMIAL: bv32 := 0xEDB8_8320
  const CRC_START: bv32 := 0xFFFF_FFFF

  /** One bit of input consumed. */
  function BitStep(crc: bv32): bv32 {
    if crc & 1 != 0 then (crc >> 1) ^ CRC_POLYNOMIAL else crc >> 1
  }

  function BitSteps(crc: bv32, n: nat): bv32 {
    if n == 0 then crc else BitStep(BitSteps(crc, n - 1))
  }

  function Xor(x: bv32, y: bv32): bv32 {
    x ^ y
  }

  function Wide(b: bv8): bv32 {
    b as bv32
  }

  function ByteStep(crc: bv32, b: bv8): bv32 {
    BitSteps(Xor(crc, Wide(b)), 8)
  }

  /** The running value after the bytes of data. */
  function Update(crc: bv32, data: seq<bv8>): bv32 {
    if data == [] then crc else ByteStep(Update(crc, data[..|data| - 1]), data[|data| - 1])
  }

  /** crc32_finish */
  function Complement(crc: bv32): bv32 {
    !crc
  }

  /** The CRC of a whole message. */
  function Crc(data: seq<bv8>): bv32 {
    Complement(Update(CRC_START, data))
  }

  /** The bit loop shared by both forms in the source. */
  method ShiftByte(crc: bv32, b: bv8) returns (r: bv32)
    ensures r == ByteStep(crc, b)
  {
    r := crc ^ (b as bv32);
    ghost var first := r;
    for bit := 0 to 8
      invariant r == BitSteps(first, bit)
    {
      if r & 1 != 0 {
        r := (r >> 1) ^ CRC_POLYNOMIAL;
      } else {
        r := r >> 1;
      }
    }
  }

  /** crc32_compute */
  method Crc32Compute(data: seq<bv8>) returns (r: bv32)
    ensures r == Crc(data)
    ensures Flipped(Bits(r, 32)) == Remainder(Flipped(MessageBits(data) + Zeros(32)))
  {
    hide ByteStep;
    var crc := CRC_START;
    for i := 0 to |data|
      invariant crc == Update(CRC_START, data[..i])
    {
      crc := ShiftByte(crc, data[i]);
      assert data[..i + 1][..i] == data[..i];
    }
    assert data[..|data|] == data;
    CrcIsRemainder(data);
    return Complement(crc);
  }

  /** crc32_update */
  method Crc32Update(crc0: bv32, data: seq<bv8>) returns (crc: bv32)
    ensures crc == Update(crc0, data)
    ensures Bits(crc, 32) == Remainder(Add(MessageBits(data) + Zeros(32), Bits(crc0, 32)))
  {
    hide ByteStep;
    crc := crc0;
    for i := 0 to |data|
      invariant crc == Update(crc0, data[..i])
    {
      crc := ShiftByte(crc, data[i]);
      assert data[..i + 1][..i] == data[..i];
    }
    assert data[..|data|] == data;
    UpdateDivides(crc0, data);
  }

  /* ---------- pieces ---------- */

  /** The value after one piece is where the next piece goes on. */
  lemma {:induction false} UpdateSplit(crc: bv32, a: seq<bv8>, b: seq<bv8>)
    ensures Update(crc, a + b) == Update(Update(crc, a), b)
  {
    hide ByteStep;
    if b == [] {
      assert a + b == a;
    } else {
      var n := |b| - 1;
      assert (a + b)[..|a + b| - 1] == a + b[..n];
      UpdateSplit(crc, a, b[..n]);
    }
  }

  function Flat(pieces: seq<seq<bv8>>): seq<bv8> {
    if pieces == [] then [] else Flat(pieces[..|pieces| - 1]) + pieces[|pieces| - 1]
  }

  /** crc32_update over any split of a message, then crc32_finish, is the CRC
      that crc32_compute gives for the whole message. */
  method Crc32Pieces(pieces: seq<seq<bv8>>) returns (r: bv32)
    ensures r == Crc(Flat(pieces))
  {
    var crc := CRC_START;
    for i := 0 to |pieces|
      invariant crc == Update(CRC_START, Flat(pieces[..i]))
    {
      crc := Crc32Update(crc, pieces[i]);
      UpdateSplit(CRC_START, Flat(pieces[..i]), pieces[i]);
      assert pieces[..i + 1][..i] == pieces[..i];
    }
    assert pieces[..|pieces|] == pieces;
    return Complement(crc);
  }

  /* ---------- what a CRC detects ---------- */

  /** The polynomial has its top bit set, so the bit shifted out can be read
      back from the top: a step loses nothing. */
  lemma BitStepInjective(x: bv32, y: bv32)
    requires BitStep(x) == BitStep(y)
    ensures x == y
  {
  }

  lemma BothEven(x: bv32, y: bv32)
    requires x & 1 == 0 && y & 1 == 0
    ensures BitStep(Xor(x, y)) == Xor(BitStep(x), BitStep(y))
  {
  }

  lemma SecondOdd(x: bv32, y: bv32)
    requires x & 1 == 0 && y & 1 != 0
    ensures BitStep(Xor(x, y)) == Xor(BitStep(x), BitStep(y))
  {
  }

  lemma XorCommutes(x: bv32, y: bv32)
    ensures Xor(x, y) == Xor(y, x)
  {
  }

  lemma FirstOdd(x: bv32, y: bv32)
    requires x & 1 != 0 && y & 1 == 0
    ensures BitStep(Xor(x, y)) == Xor(BitStep(x), BitStep(y))
  {
    hide BitStep, Xor;
    SecondOdd(y, x);
    XorCommutes(x, y);
    XorCommutes(BitStep(x), BitStep(y));
  }

  lemma BothOdd(x: bv32, y: bv32)
    requires x & 1 != 0 && y & 1 != 0
    ensures BitStep(Xor(x, y)) == Xor(BitStep(x), BitStep(y))
  {
  }

  lemma BitStepLinear(x: bv32, y: bv32)
    ensures BitStep(Xor(x, y)) == Xor(BitStep(x), BitStep(y))
  {
    hide BitStep, Xor;
    if x & 1 == 0 {
      if y & 1 == 0 {
        BothEven(x, y);
      } else {
        SecondOdd(x, y);
      }
    } else if y & 1 == 0 {
      FirstOdd(x, y);
    } else {
      BothOdd(x, y);
    }
  }

  lemma {:induction false} BitStepsInjective(x: bv32, y: bv32, n: nat)
    requires BitSteps(x, n) == BitSteps(y, n)
    ensures x == y
  {
    hide BitStep;
    if n > 0 {
      BitStepInjective(BitSteps(x, n - 1), BitSteps(y, n - 1));
      BitStepsInjective(x, y, n - 1);
    }
  }

  lemma {:induction false} BitStepsLinear(x: bv32, y: bv32, n: nat)
    ensures BitSteps(Xor(x, y), n) == Xor(BitSteps(x, n), BitSteps(y, n))
  {
    hide BitStep, Xor;
    if n > 0 {
      BitStepsLinear(x, y, n - 1);
      BitStepLinear(BitSteps(x, n - 1), BitSteps(y, n - 1));
    }
  }

  lemma {:induction false} BitStepsAdd(x: bv32, m: nat, n: nat)
    ensures BitSteps(BitSteps(x, m), n) == BitSteps(x, m + n)
  {
    hide BitStep;
    if n > 0 {
      BitStepsAdd(x, m, n - 1);
    }
  }

  lemma XorCancels(c: bv32, x: bv32, y: bv32)
    ensures Xor(c, x) == Xor(c, y) ==> x == y
    ensures Xor(x, c) == Xor(y, c) ==> x == y
  {
  }

  /** Different running values stay different whatever follows. */
  lemma {:induction false} SuffixInjective(x: bv32, y: bv32, s: seq<bv8>)
    requires Update(x, s) == Update(y, s)
    ensures x == y
  {
    hide BitSteps, Xor, Wide;
    if s != [] {
      var n := |s| - 1;
      var x', y', b := Update(x, s[..n]), Update(y, s[..n]), Wide(s[n]);
      BitStepsInjective(Xor(x', b), Xor(y', b), 8);
      XorCancels(b, x', y');
      SuffixInjective(x, y, s[..n]);
    }
  }

  /** A byte below a word shifted up to make room for it. */
  function Under(b: bv8, w: bv32): bv32 {
    (b as bv32) | (w << 8)
  }

  /** Up to four bytes as one little-endian word. */
  function Word(u: seq<bv8>): bv32
    requires |u| <= 4
  {
    if u == [] then 0 else Under(u[0], Word(u[1..]))
  }

  /** Nothing above the lowest n bytes. */
  predicate Fits(w: bv32, n: nat) {
    && (n == 0 ==> w == 0)
    && (n == 1 ==> w & 0xFFFF_FF00 == 0)
    && (n == 2 ==> w & 0xFFFF_0000 == 0)
    && (n == 3 ==> w & 0xFF00_0000 == 0)
  }

  lemma FitsUnder(b: bv8, w: bv32, n: nat)
    requires Fits(w, n)
    ensures Fits(Under(b, w), n + 1)
  {
    if n == 0 {
      UnderNone(b, w);
    } else if n == 1 {
      UnderOne(b, w);
    } else if n == 2 {
      UnderTwo(b, w);
    }
  }

  lemma UnderNone(b: bv8, w: bv32)
    requires w == 0
    ensures Under(b, w) & 0xFFFF_FF00 == 0
  {
  }

  lemma UnderOne(b: bv8, w: bv32)
    requires w & 0xFFFF_FF00 == 0
    ensures Under(b, w) & 0xFFFF_0000 == 0
  {
  }

  lemma UnderTwo(b: bv8, w: bv32)
    requires w & 0xFFFF_0000 == 0
    ensures Under(b, w) & 0xFF00_0000 == 0
  {
  }

  lemma FitsThree(w: bv32, n: nat)
    requires Fits(w, n) && n <= 3
    ensures w & 0xFF00_0000 == 0
  {
    if n == 0 {
      assert w == 0;
    } else if n == 1 {
      OneByteSmall(w);
    } else if n == 2 {
      TwoBytesSmall(w);
    }
  }

  lemma OneByteSmall(w: bv32)
    requires w & 0xFFFF_FF00 == 0
    ensures w & 0xFF00_0000 == 0
  {
  }

  lemma TwoBytesSmall(w: bv32)
    requires w & 0xFFFF_0000 == 0
    ensures w & 0xFF00_0000 == 0
  {
  }

  lemma {:induction false} WordFits(u: seq<bv8>)
    requires |u| <= 4
    ensures Fits(Word(u), |u|)
  {
    hide Under, Fits;
    if u == [] {
      NothingFits();
    } else {
      WordFits(u[1..]);
      FitsUnder(u[0], Word(u[1..]), |u| - 1);
    }
  }

  lemma NothingFits()
    ensures Fits(0, 0)
  {
  }

  lemma UnderInjective(b: bv8, w: bv32, b': bv8, w': bv32)
    requires w & 0xFF00_0000 == 0 && w' & 0xFF00_0000 == 0
    requires Under(b, w) == Under(b', w')
    ensures b == b' && w == w'
  {
  }

  lemma {:induction false} WordInjective(u: seq<bv8>, v: seq<bv8>)
    requires |u| == |v| <= 4 && Word(u) == Word(v)
    ensures u == v
  {
    hide Under, Fits;
    if u != [] {
      WordFits(u[1..]);
      WordFits(v[1..]);
      FitsThree(Word(u[1..]), |u| - 1);
      FitsThree(Word(v[1..]), |v| - 1);
      UnderInjective(u[0], Word(u[1..]), v[0], Word(v[1..]));
      WordInjective(u[1..], v[1..]);
      assert u == [u[0]] + u[1..] && v == [v[0]] + v[1..];
    }
  }

  function Up(w: bv32): bv32 {
    w << 8
  }

  lemma EightSteps(x: bv32)
    ensures BitSteps(x, 8) == BitStep(BitStep(BitStep(BitStep(BitStep(BitStep(BitStep(BitStep(x))))))))
  {
    hide BitStep;
    assert BitSteps(x, 1) == BitStep(BitSteps(x, 0));
    assert BitSteps(x, 2) == BitStep(BitSteps(x, 1));
    assert BitSteps(x, 3) == BitStep(BitSteps(x, 2));
    assert BitSteps(x, 4) == BitStep(BitSteps(x, 3));
    assert BitSteps(x, 5) == BitStep(BitSteps(x, 4));
    assert BitSteps(x, 6) == BitStep(BitSteps(x, 5));
    assert BitSteps(x, 7) == BitStep(BitSteps(x, 6));
  }

  lemma FourShifts(w: bv32)
    requires w & 0xFF00_0000 == 0
    ensures BitStep(BitStep(BitStep(BitStep(w << 8)))) == w << 4
  {
  }

  lemma FourMore(w: bv32)
    requires w & 0xF000_0000 == 0
    ensures BitStep(BitStep(BitStep(BitStep(w << 4)))) == w
  {
  }

  lemma FewerBits(w: bv32)
    requires w & 0xFF00_0000 == 0
    ensures w & 0xF000_0000 == 0
  {
  }

  /** A word whose low byte is clear is only shifted by eight steps. */
  lemma ShiftedOut(w: bv32)
    requires w & 0xFF00_0000 == 0
    ensures BitSteps(Up(w), 8) == w
  {
    hide BitStep, BitSteps;
    EightSteps(w << 8);
    FewerBits(w);
    FourShifts(w);
    FourMore(w);
  }

  lemma XorUnder(crc: bv32, b: bv8, w: bv32)
    ensures Xor(crc, Under(b, w)) == Xor(Xor(crc, Wide(b)), Up(w))
  {
    hide Xor, Under, Wide, Up;
    UnderIsXor(b, w);
    XorAssociates(crc, Wide(b), Up(w));
  }

  lemma UnderIsXor(b: bv8, w: bv32)
    ensures Under(b, w) == Xor(Wide(b), Up(w))
  {
  }

  lemma XorAssociates(x: bv32, y: bv32, z: bv32)
    ensures Xor(x, Xor(y, z)) == Xor(Xor(x, y), z)
  {
  }

  /** Up to four bytes at once: all their bits enter the register together. */
  lemma {:induction false} WordAtOnce(crc: bv32, u: seq<bv8>)
    requires |u| <= 4
    ensures Update(crc, u) == BitSteps(Xor(crc, Word(u)), 8 * |u|)
    decreases |u|
  {
    hide BitSteps, Xor, Under, Up, Wide, Fits;
    if u == [] {
      ZeroSteps(crc);
    } else {
      var b, rest := u[0], u[1..];
      var w := Word(rest);
      var next := ByteStep(crc, b);
      WordFits(rest);
      FitsThree(w, |rest|);
      assert u == [b] + rest;
      UpdateSplit(crc, [b], rest);
      OneByte(crc, b);
      WordAtOnce(next, rest);
      ShiftedOut(w);
      BitStepsLinear(Xor(crc, Wide(b)), Up(w), 8);
      XorUnder(crc, b, w);
      BitStepsAdd(Xor(crc, Word(u)), 8, 8 * |rest|);
    }
  }

  lemma XorZero(crc: bv32)
    ensures Xor(crc, 0) == crc
  {
  }

  lemma ZeroSteps(crc: bv32)
    ensures BitSteps(Xor(crc, Word([])), 0) == crc
  {
    hide Xor, BitStep;
    XorZero(crc);
  }

  lemma OneByte(crc: bv32, b: bv8)
    ensures Update(crc, [b]) == ByteStep(crc, b)
  {
    hide ByteStep;
    assert [b][..0] == [];
  }

  /* ---------- a CRC as a remainder ---------- */

  /** The lowest n bits, the lowest first. */
  function Bits(x: bv32, n: nat): (p: Poly)
    ensures |p| == n
  {
    if n == 0 then [] else [Lowest(x)] + Bits(Half(x), n - 1)
  }

  predicate Lowest(x: bv32) {
    x & 1 != 0
  }

  function Half(x: bv32): bv32 {
    x >> 1
  }

  /** The bits of a message in the order of transmission. */
  function MessageBits(data: seq<bv8>): Poly {
    if data == [] then [] else MessageBits(data[..|data| - 1]) + Bits(Wide(data[|data| - 1]), 8)
  }

  /** The first 32 coefficients complemented. */
  function Flipped(p: Poly): (q: Poly)
    ensures |q| == |p| && forall i :: 0 <= i < |p| ==> (q[i] <==> if i < 32 then !p[i] else p[i])
  {
    seq(|p|, i requires 0 <= i < |p| => if i < 32 then !p[i] else p[i])
  }

  function AsWord(t: bool): bv32 {
    if t then 1 else 0
  }

  /** The register after one bit of the message. */
  function Feed(crc: bv32, t: bool): bv32 {
    BitStep(Xor(crc, AsWord(t)))
  }

  function FeedAll(crc: bv32, m: Poly): bv32
    decreases |m|
  {
    if m == [] then crc else FeedAll(Feed(crc, m[0]), m[1..])
  }

  function Halved(x: bv32, n: nat): bv32 {
    if n == 0 then x else Halved(Half(x), n - 1)
  }

  lemma {:induction false} BitsGrow(x: bv32, n: nat)
    ensures Bits(x, n + 1) == Bits(x, n) + [Lowest(Halved(x, n))]
    decreases n
  {
    hide Lowest, Half;
    if n > 0 {
      BitsGrow(Half(x), n - 1);
    }
  }

  function ByteDown(x: bv32): bv32 {
    x >> 8
  }

  lemma EightHalves(x: bv32)
    ensures Halved(x, 8) == ByteDown(x)
  {
    hide Half, ByteDown;
    var x4 := Half(Half(Half(Half(x))));
    assert Halved(x, 8) == Halved(Half(x), 7) == Halved(Half(Half(x)), 6) == Halved(Half(Half(Half(x))), 5) == Halved(x4, 4);
    assert Halved(x4, 4) == Halved(Half(x4), 3) == Halved(Half(Half(x4)), 2);
    assert Halved(Half(Half(x4)), 2) == Halved(Half(Half(Half(x4))), 1) == Halved(Half(Half(Half(Half(x4)))), 0);
    HalvesShift(x);
  }

  lemma HalvesShift(x: bv32)
    ensures Half(Half(Half(Half(Half(Half(Half(Half(x)))))))) == ByteDown(x)
  {
  }

  lemma {:induction false} HalvedAdd(x: bv32, m: nat, n: nat)
    ensures Halved(Halved(x, m), n) == Halved(x, m + n)
    decreases m
  {
    hide Half;
    if m > 0 {
      HalvedAdd(Half(x), m - 1, n);
    }
  }

  lemma NothingLeft(x: bv32)
    ensures Halved(x, 32) == 0
  {
    hide Half, Halved, ByteDown;
    EightHalves(x);
    EightHalves(ByteDown(x));
    EightHalves(ByteDown(ByteDown(x)));
    EightHalves(ByteDown(ByteDown(ByteDown(x))));
    HalvedAdd(x, 8, 8);
    HalvedAdd(x, 16, 8);
    HalvedAdd(x, 24, 8);
    AllOut(x);
  }

  lemma AllOut(x: bv32)
    ensures ByteDown(ByteDown(ByteDown(ByteDown(x)))) == 0
  {
  }

  lemma ByteOut(b: bv8)
    ensures Halved(Wide(b), 8) == 0
  {
    hide Halved, Half, ByteDown, Wide;
    EightHalves(Wide(b));
    WideOut(b);
  }

  lemma WideOut(b: bv8)
    ensures ByteDown(Wide(b)) == 0
  {
  }

  lemma LowestXor(x: bv32, y: bv32)
    ensures Lowest(Xor(x, y)) == (Lowest(x) != Lowest(y))
    ensures Half(Xor(x, y)) == Xor(Half(x), Half(y))
  {
  }

  lemma {:induction false} BitsXor(x: bv32, y: bv32, n: nat)
    ensures Bits(Xor(x, y), n) == Add(Bits(x, n), Bits(y, n))
    decreases n
  {
    hide Lowest, Half, Xor;
    if n > 0 {
      LowestXor(x, y);
      BitsXor(Half(x), Half(y), n - 1);
    }
  }

  lemma HalfZero()
    ensures Half(0) == 0 && !Lowest(0) && Half(1) == 0 && Lowest(1)
  {
  }

  lemma {:induction false} ZeroBits(n: nat)
    ensures Bits(0, n) == Zeros(n)
  {
    hide Lowest, Half;
    HalfZero();
    if n > 0 {
      ZeroBits(n - 1);
    }
  }

  /** The polynomial's bits are the generator without its leading one. */
  lemma PolynomialBits()
    ensures Bits(CRC_POLYNOMIAL, 32) == Generator()[1..]
  {
    hide Bits;
    FourBits(0xEDB8_8320, 28, 0x0EDB_8832, false, false, false, false);
    FourBits(0x0EDB_8832, 24, 0x00ED_B883, false, true, false, false);
    FourBits(0x00ED_B883, 20, 0x000E_DB88, true, true, false, false);
    FourBits(0x000E_DB88, 16, 0x0000_EDB8, false, false, false, true);
    FourBits(0x0000_EDB8, 12, 0x0000_0EDB, false, false, false, true);
    FourBits(0x0000_0EDB, 8, 0x0000_00ED, true, true, false, true);
    FourBits(0x0000_00ED, 4, 0x0000_000E, true, false, true, true);
    FourBits(0x0000_000E, 0, 0, false, true, true, true);
    ZeroBits(0);
  }

  /** Four bits at once: t0 to t3, then those of h. */
  predicate Splits(x: bv32, h: bv32, t0: bool, t1: bool, t2: bool, t3: bool) {
    h == x >> 4 && t0 == (x & 1 != 0) && t1 == (x & 2 != 0) && t2 == (x & 4 != 0) && t3 == (x & 8 != 0)
  }

  lemma FourBits(x: bv32, n: nat, h: bv32, t0: bool, t1: bool, t2: bool, t3: bool)
    requires Splits(x, h, t0, t1, t2, t3)
    ensures Bits(x, n + 4) == [t0, t1, t2, t3] + Bits(h, n)
  {
    hide Half, Lowest, Splits;
    FourParts(x, h, t0, t1, t2, t3);
    var x1, x2, x3 := Half(x), Half(Half(x)), Half(Half(Half(x)));
    assert Bits(x, n + 4) == [t0] + Bits(x1, n + 3);
    assert Bits(x1, n + 3) == [t1] + Bits(x2, n + 2);
    assert Bits(x2, n + 2) == [t2] + Bits(x3, n + 1);
  }

  lemma FourParts(x: bv32, h: bv32, t0: bool, t1: bool, t2: bool, t3: bool)
    requires Splits(x, h, t0, t1, t2, t3)
    ensures Half(Half(Half(Half(x)))) == h
    ensures t0 == Lowest(x) && t1 == Lowest(Half(x)) && t2 == Lowest(Half(Half(x))) && t3 == Lowest(Half(Half(Half(x))))
  {
  }

  /** The register with one more coefficient behind it. */
  lemma ShiftedBits(x: bv32)
    ensures Bits(x, 32) + [false] == [Lowest(x)] + Bits(Half(x), 32)
  {
    hide Lowest, Half, Bits, Halved;
    FirstBit(x);
    BitsGrow(x, 32);
    NothingLeft(x);
    HalfZero();
  }

  /** One bit step on the coefficients: the first one leaves, and takes the
      generator with it. */
  lemma StepBits(x: bv32)
    ensures
      var p := Bits(x, 32) + [false];
      Bits(BitStep(x), 32) == Add(p, if p[0] then Generator() else [])[1..]
  {
    hide Lowest, Half, Xor, Bits, BitStep;
    var p, h := Bits(x, 32) + [false], Bits(Half(x), 32);
    ShiftedBits(x);
    StepParts(x);
    if Lowest(x) {
      BitsXor(Half(x), CRC_POLYNOMIAL, 32);
      PolynomialBits();
      AddBehind(Lowest(x), h, Generator());
    } else {
      AddNothing(p);
    }
  }

  lemma AddBehind(t: bool, h: Poly, g: Poly)
    requires |g| == |h| + 1
    ensures Add([t] + h, g)[1..] == Add(h, g[1..])
  {
  }

  lemma AddNothing(p: Poly)
    ensures Add(p, []) == p
  {
  }

  lemma FirstBit(x: bv32)
    ensures Bits(x, 33) == [Lowest(x)] + Bits(Half(x), 32) && Bits(x, 32)[0] == Lowest(x)
  {
  }

  lemma StepParts(x: bv32)
    ensures BitStep(x) == if Lowest(x) then Xor(Half(x), CRC_POLYNOMIAL) else Half(x)
  {
  }

  lemma {:induction false} OneBit(n: nat)
    ensures Bits(AsWord(true), n) == if n == 0 then [] else [true] + Zeros(n - 1)
    ensures Bits(AsWord(false), n) == Zeros(n)
  {
    hide Lowest, Half;
    HalfZero();
    ZeroBits(n);
    if n > 0 {
      ZeroBits(n - 1);
    }
  }

  /** Feeding one bit of the message is one step of the division. */
  lemma FeedReduces(crc: bv32, m: Poly)
    requires |m| > 32
    ensures Reduced(Add(m, Bits(crc, 32))) == Add(m[1..], Bits(Feed(crc, m[0]), 32))
  {
    hide Xor, BitStep, Bits;
    var x := Xor(crc, AsWord(m[0]));
    BitsXor(crc, AsWord(m[0]), 32);
    OneBit(32);
    StepBits(x);
  }

  /** Feeding a message is dividing it, with 32 zeros behind it. */
  lemma {:induction false} FeedDivides(crc: bv32, m: Poly)
    ensures Remainder(Add(m + Zeros(32), Bits(crc, 32))) == Bits(FeedAll(crc, m), 32)
    decreases |m|
  {
    hide Feed, Bits, Reduced;
    if m == [] {
      assert Add([] + Zeros(32), Bits(crc, 32)) == Bits(crc, 32);
    } else {
      var s := m + Zeros(32);
      FeedReduces(crc, s);
      assert s[1..] == m[1..] + Zeros(32);
      FeedDivides(Feed(crc, m[0]), m[1..]);
    }
  }

  function WithoutLowest(w: bv32): bv32 {
    w & 0xFFFF_FFFE
  }

  lemma SplitLowest(w: bv32)
    ensures w == Xor(AsWord(Lowest(w)), WithoutLowest(w)) && BitStep(WithoutLowest(w)) == Half(w)
  {
  }

  /** Bits that enter together come out as if fed one by one. */
  lemma {:induction false} FedTogether(crc: bv32, w: bv32, n: nat)
    ensures BitSteps(Xor(crc, w), n) == Xor(FeedAll(crc, Bits(w, n)), Halved(w, n))
    decreases n
  {
    hide Xor, BitStep, Lowest, Half, AsWord, WithoutLowest;
    if n == 0 {
      assert BitSteps(Xor(crc, w), 0) == Xor(crc, w) && FeedAll(crc, Bits(w, 0)) == crc && Halved(w, 0) == w;
    } else {
      var t, rest := AsWord(Lowest(w)), WithoutLowest(w);
      SplitLowest(w);
      XorAssociates(crc, t, rest);
      BitStepLinear(Xor(crc, t), rest);
      BitStepsAdd(Xor(crc, w), 1, n - 1);
      assert BitSteps(Xor(crc, w), 1) == BitStep(BitSteps(Xor(crc, w), 0));
      FedTogether(Feed(crc, Lowest(w)), Half(w), n - 1);
      assert Bits(w, n)[1..] == Bits(Half(w), n - 1);
    }
  }

  lemma ByteFed(crc: bv32, b: bv8)
    ensures ByteStep(crc, b) == FeedAll(crc, Bits(Wide(b), 8))
  {
    hide BitSteps, Xor, Wide, FeedAll, Bits, Halved;
    FedTogether(crc, Wide(b), 8);
    ByteOut(b);
    XorZero(FeedAll(crc, Bits(Wide(b), 8)));
  }

  lemma {:induction false} FeedSplit(crc: bv32, a: Poly, b: Poly)
    ensures FeedAll(crc, a + b) == FeedAll(FeedAll(crc, a), b)
    decreases |a|
  {
    hide Feed;
    if a == [] {
      assert a + b == b;
    } else {
      assert (a + b)[1..] == a[1..] + b;
      FeedSplit(Feed(crc, a[0]), a[1..], b);
    }
  }

  lemma {:induction false} MessageFed(crc: bv32, data: seq<bv8>)
    ensures Update(crc, data) == FeedAll(crc, MessageBits(data))
  {
    hide ByteStep, Bits, Wide, Feed;
    if data != [] {
      var n := |data| - 1;
      MessageFed(crc, data[..n]);
      ByteFed(Update(crc, data[..n]), data[n]);
      FeedSplit(crc, MessageBits(data[..n]), Bits(Wide(data[n]), 8));
    }
  }

  /** The running value is what is left of the message, with 32 zeros behind
      it and the value it started from added in front, after division by the
      generator. */
  lemma UpdateDivides(crc: bv32, data: seq<bv8>)
    ensures Bits(Update(crc, data), 32) == Remainder(Add(MessageBits(data) + Zeros(32), Bits(crc, 32)))
  {
    hide Update, FeedAll, Bits, Remainder;
    MessageFed(crc, data);
    FeedDivides(crc, MessageBits(data));
  }

  /** The CRC is the complement of what is left of the message, with 32 zeros
      behind it and its first 32 bits complemented, after division by the
      generator (section 8.1.1.6.2 of ITU-T V.42). */
  lemma CrcIsRemainder(data: seq<bv8>)
    ensures Flipped(Bits(Crc(data), 32)) == Remainder(Flipped(MessageBits(data) + Zeros(32)))
  {
    hide Update, Bits, Remainder, Complement;
    UpdateDivides(CRC_START, data);
    OnesBits();
    var s := MessageBits(data) + Zeros(32);
    assert Add(s, Bits(CRC_START, 32)) == Flipped(s);
    ComplementBits(Update(CRC_START, data), 32);
    assert Flipped(Bits(Crc(data), 32)) == Bits(Update(CRC_START, data), 32);
  }

  lemma ComplementParts(x: bv32)
    ensures Complement(x) == Xor(x, CRC_START)
  {
  }

  lemma ComplementBits(x: bv32, n: nat)
    ensures Bits(Complement(x), n) == Add(Bits(x, n), Bits(CRC_START, n))
  {
    hide Complement, Xor, Bits;
    ComplementParts(x);
    BitsXor(x, CRC_START, n);
  }

  lemma OnesBits()
    ensures forall i :: 0 <= i < 32 ==> Bits(CRC_START, 32)[i]
  {
    hide Bits;
    FourBits(0xFFFF_FFFF, 28, 0x0FFF_FFFF, true, true, true, true);
    FourBits(0x0FFF_FFFF, 24, 0x00FF_FFFF, true, true, true, true);
    FourBits(0x00FF_FFFF, 20, 0x000F_FFFF, true, true, true, true);
    FourBits(0x000F_FFFF, 16, 0x0000_FFFF, true, true, true, true);
    FourBits(0x0000_FFFF, 12, 0x0000_0FFF, true, true, true, true);
    FourBits(0x0000_0FFF, 8, 0x0000_00FF, true, true, true, true);
    FourBits(0x0000_00FF, 4, 0x0000_000F, true, true, true, true);
    FourBits(0x0000_000F, 0, 0, true, true, true, true);
  }

  /** The register after one byte, as a single expression. */
  function EightBits(x: bv32): bv32 {
    BitStep(BitStep(BitStep(BitStep(BitStep(BitStep(BitStep(BitStep(x))))))))
  }

  lemma CheckByte(crc: bv32, before: seq<bv8>, b: bv8, next: bv32)
    requires Update(CRC_START, before) == crc && EightBits(Xor(crc, Wide(b))) == next
    ensures Update(CRC_START, before + [b]) == next
  {
    hide BitStep, Xor, Wide;
    EightSteps(Xor(crc, Wide(b)));
    assert (before + [b])[..|before|] == before;
  }

  lemma CheckSteps()
    ensures EightBits(Xor(0xFFFF_FFFF, Wide(0x31))) == 0x7C23_1048
    ensures EightBits(Xor(0x7C23_1048, Wide(0x32))) == 0xB0AC_BB32
    ensures EightBits(Xor(0xB0AC_BB32, Wide(0x33))) == 0x77B7_9C2D
    ensures EightBits(Xor(0x77B7_9C2D, Wide(0x34))) == 0x641C_1F5C
    ensures EightBits(Xor(0x641C_1F5C, Wide(0x35))) == 0x340A_C5E3
    ensures EightBits(Xor(0x340A_C5E3, Wide(0x36))) == 0xF68D_2C9E
    ensures EightBits(Xor(0xF68D_2C9E, Wide(0x37))) == 0xAFFC_9660
    ensures EightBits(Xor(0xAFFC_9660, Wide(0x38))) == 0x651F_2550
    ensures EightBits(Xor(0x651F_2550, Wide(0x39))) == 0x340B_C6D9
  {
  }

  /** The check value: the CRC of the ASCII digits 1 to 9. */
  lemma CheckValue()
    ensures Crc([0x31, 0x32, 0x33, 0x34, 0x35, 0x36, 0x37, 0x38, 0x39]) == 0xCBF4_3926
  {
    hide Update, EightBits, Xor, Wide;
    NoBytes();
    CheckSteps();
    var s: seq<bv8> := [];
    CheckByte(0xFFFF_FFFF, s, 0x31, 0x7C23_1048);
    s := s + [0x31];
    CheckByte(0x7C23_1048, s, 0x32, 0xB0AC_BB32);
    s := s + [0x32];
    CheckByte(0xB0AC_BB32, s, 0x33, 0x77B7_9C2D);
    s := s + [0x33];
    CheckByte(0x77B7_9C2D, s, 0x34, 0x641C_1F5C);
    s := s + [0x34];
    CheckByte(0x641C_1F5C, s, 0x35, 0x340A_C5E3);
    s := s + [0x35];
    CheckByte(0x340A_C5E3, s, 0x36, 0xF68D_2C9E);
    s := s + [0x36];
    CheckByte(0xF68D_2C9E, s, 0x37, 0xAFFC_9660);
    s := s + [0x37];
    CheckByte(0xAFFC_9660, s, 0x38, 0x651F_2550);
    s := s + [0x38];
    CheckByte(0x651F_2550, s, 0x39, 0x340B_C6D9);
    s := s + [0x39];
    assert s == [0x31, 0x32, 0x33, 0x34, 0x35, 0x36, 0x37, 0x38, 0x39];
  }

  lemma NoBytes()
    ensures Update(CRC_START, []) == 0xFFFF_FFFF
  {
  }

  /* ---------- damage ---------- */

  /** Two messages of one length that differ only inside a run of at most four
      bytes never have the same CRC. */
  lemma BurstDetected(before: seq<bv8>, u: seq<bv8>, v: seq<bv8>, after: seq<bv8>)
    requires |u| == |v| <= 4 && u != v
    ensures Crc(before + u + after) != Crc(before + v + after)
  {
    hide Update, BitSteps, Word, Xor, Complement;
    var c := Update(CRC_START, before);
    UpdateSplit(CRC_START, before + u, after);
    UpdateSplit(CRC_START, before, u);
    UpdateSplit(CRC_START, before + v, after);
    UpdateSplit(CRC_START, before, v);
    ComplementInjective(Update(CRC_START, before + u + after), Update(CRC_START, before + v + after));
    if Crc(before + u + after) == Crc(before + v + after) {
      SuffixInjective(Update(c, u), Update(c, v), after);
      WordAtOnce(c, u);
      WordAtOnce(c, v);
      BitStepsInjective(Xor(c, Word(u)), Xor(c, Word(v)), 8 * |u|);
      XorCancels(c, Word(u), Word(v));
      WordInjective(u, v);
    }
  }

  lemma ComplementInjective(x: bv32, y: bv32)
    ensures Complement(x) == Complement(y) ==> x == y
  {
  }
}
