/**
 * The shift register behind CRC-32 (section 8 of RFC 1952): bits enter at the low end, and the
 * polynomial 0xEDB88320 is fed back (src/crc32.c:4-38).
 */
module CrcRegister {

  type Byte = bv8

  /** X^26+X^23+...+X+1, highest-order term in the lowest bit. */
  const POLY: bv32 := 0xEDB88320

  // Xor and the shifts are functions so that the proofs about the register can hide them and use
  // only the laws stated here.

  function Xor(a: bv32, b: bv32): bv32 {
    a ^ b
  }

  function Shr(a: bv32, n: bv6): bv32
    requires n <= 32
  {
    a >> n
  }

  function Shl8(a: bv32): bv32 {
    a << 8
  }

  function Low(a: bv32): bv32 {
    a & 1
  }

  lemma XorLaws(a: bv32, b: bv32, c: bv32)
    ensures Xor(Xor(a, b), c) == Xor(a, Xor(b, c)) && Xor(a, b) == Xor(b, a)
    ensures Xor(a, a) == 0 && Xor(a, 0) == a
  {
    hide Xor;
    XorAssoc(a, b, c);
    XorComm(a, b);
    XorUnit(a);
  }

  lemma XorAssoc(a: bv32, b: bv32, c: bv32)
    ensures Xor(Xor(a, b), c) == Xor(a, Xor(b, c))
  {
  }

  lemma XorComm(a: bv32, b: bv32)
    ensures Xor(a, b) == Xor(b, a)
  {
  }

  lemma XorUnit(a: bv32)
    ensures Xor(a, a) == 0 && Xor(a, 0) == a
  {
  }

  lemma XorSame(r: bv32, s: bv32, v: bv32)
    requires Xor(r, v) == Xor(s, v) || Xor(v, r) == Xor(v, s)
    ensures r == s
  {
    assert (r ^ v) ^ v == r && (s ^ v) ^ v == s && (v ^ r) ^ v == r && (v ^ s) ^ v == s;
  }

  lemma LowIsBit(a: bv32)
    ensures Low(a) == 0 || Low(a) == 1
  {
  }

  lemma ShrXor(a: bv32, b: bv32)
    ensures Shr(Xor(a, b), 1) == Xor(Shr(a, 1), Shr(b, 1))
    ensures Low(Xor(a, b)) == Xor(Low(a), Low(b))
  {
  }

  lemma ShrShr(a: bv32)
    ensures Shr(Shr(a, 1), 1) == Shr(a, 2) && Shr(Shr(a, 2), 2) == Shr(a, 4) && Shr(Shr(a, 4), 4) == Shr(a, 8)
  {
    hide Shr;
    Shr1(a);
    Shr2(a);
    Shr4(a);
  }

  lemma Shr1(a: bv32)
    ensures Shr(Shr(a, 1), 1) == Shr(a, 2)
  {
  }

  lemma Shr2(a: bv32)
    ensures Shr(Shr(a, 2), 2) == Shr(a, 4)
  {
  }

  lemma Shr4(a: bv32)
    ensures Shr(Shr(a, 4), 4) == Shr(a, 8)
  {
  }

  /** One shift of the register. */
  function Step(r: bv32): bv32 {
    if Low(r) == 1 then Xor(Shr(r, 1), POLY) else Shr(r, 1)
  }

  function Step2(r: bv32): bv32 {
    Step(Step(r))
  }

  function Step4(r: bv32): bv32 {
    Step2(Step2(r))
  }

  /** Eight shifts. */
  function Step8(r: bv32): bv32 {
    Step4(Step4(r))
  }

  /** One message bit: it is added to the low end of the register before the shift. */
  function ShiftIn(r: bv32, bit: bv32): bv32 {
    if Xor(Low(r), bit) == 1 then Xor(Shr(r, 1), POLY) else Shr(r, 1)
  }

  /** The two, four and eight lowest bits of v, lowest first. */
  function ShiftIn2(r: bv32, v: bv32): bv32 {
    ShiftIn(ShiftIn(r, Low(v)), Low(Shr(v, 1)))
  }

  function ShiftIn4(r: bv32, v: bv32): bv32 {
    ShiftIn2(ShiftIn2(r, v), Shr(v, 2))
  }

  function ShiftIn8(r: bv32, v: bv32): bv32 {
    ShiftIn4(ShiftIn4(r, v), Shr(v, 4))
  }

  /** The bit-serial register on the eight bits of a byte. */
  function SerialByte(r: bv32, b: Byte): bv32 {
    ShiftIn8(r, b as bv32)
  }

  /** The register after a whole message. */
  function Serial(r: bv32, message: seq<Byte>): bv32
    decreases |message|
  {
    if message == [] then r else Serial(SerialByte(r, message[0]), message[1..])
  }

  // ---- linearity ----

  lemma StepLinear(r: bv32, s: bv32)
    ensures Step(Xor(r, s)) == Xor(Step(r), Step(s))
  {
    LowIsBit(r);
    LowIsBit(s);
    ShrXor(r, s);
    var a, b := Shr(r, 1), Shr(s, 1);
    PolyMoves(a, b);
  }

  lemma PolyMoves(a: bv32, b: bv32)
    ensures Xor(a, b) == Xor(Xor(a, POLY), Xor(b, POLY))
    ensures Xor(Xor(a, b), POLY) == Xor(Xor(a, POLY), b) == Xor(a, Xor(b, POLY))
  {
    hide Xor;
    XorLaws(a, b, POLY);
    XorLaws(a, POLY, b);
    XorLaws(POLY, b, POLY);
    XorLaws(a, POLY, Xor(b, POLY));
    XorLaws(b, POLY, POLY);
    XorLaws(POLY, 0, 0);
    XorLaws(b, 0, 0);
  }

  lemma Step2Linear(r: bv32, s: bv32)
    ensures Step2(Xor(r, s)) == Xor(Step2(r), Step2(s))
  {
    hide Step, Xor;
    StepLinear(r, s);
    StepLinear(Step(r), Step(s));
  }

  lemma Step4Linear(r: bv32, s: bv32)
    ensures Step4(Xor(r, s)) == Xor(Step4(r), Step4(s))
  {
    hide Step2, Xor;
    Step2Linear(r, s);
    Step2Linear(Step2(r), Step2(s));
  }

  lemma Step8Linear(r: bv32, s: bv32)
    ensures Step8(Xor(r, s)) == Xor(Step8(r), Step8(s))
  {
    hide Step4, Xor;
    Step4Linear(r, s);
    Step4Linear(Step4(r), Step4(s));
  }

  // ---- a clear low byte is shifted out without feedback ----

  lemma StepEven(r: bv32)
    requires Low(r) == 0
    ensures Step(r) == Shr(r, 1)
  {
  }

  lemma Step8High(r: bv32)
    requires r & 0xFF == 0
    ensures Step8(r) == Shr(r, 8)
  {
    hide Step;
    EvenBits(r);
    ShrShr(r);
    ShrShr(Shr(r, 2));
    ShrShr(Shr(r, 4));
    ShrShr(Shr(Shr(r, 4), 2));
    StepEven(r);
    StepEven(Shr(r, 1));
    StepEven(Shr(r, 2));
    StepEven(Shr(Shr(r, 2), 1));
    hide Shr;
    var q := Shr(r, 4);
    StepEven(q);
    StepEven(Shr(q, 1));
    StepEven(Shr(q, 2));
    StepEven(Shr(Shr(q, 2), 1));
  }

  lemma EvenBits(r: bv32)
    requires r & 0xFF == 0
    ensures Low(r) == 0 && Low(Shr(r, 1)) == 0 && Low(Shr(r, 2)) == 0 && Low(Shr(Shr(r, 2), 1)) == 0
    ensures var q := Shr(r, 4);
            Low(q) == 0 && Low(Shr(q, 1)) == 0 && Low(Shr(q, 2)) == 0 && Low(Shr(Shr(q, 2), 1)) == 0
  {
  }

  // ---- the feedback shows in the highest bit, so a shift can be undone ----

  lemma StepInjective(r: bv32, s: bv32)
    requires Step(r) == Step(s)
    ensures r == s
  {
    LowIsBit(r);
    LowIsBit(s);
  }

  lemma Step2Injective(r: bv32, s: bv32)
    requires Step2(r) == Step2(s)
    ensures r == s
  {
    hide Step;
    StepInjective(Step(r), Step(s));
    StepInjective(r, s);
  }

  lemma Step4Injective(r: bv32, s: bv32)
    requires Step4(r) == Step4(s)
    ensures r == s
  {
    hide Step2;
    Step2Injective(Step2(r), Step2(s));
    Step2Injective(r, s);
  }

  lemma Step8Injective(r: bv32, s: bv32)
    requires Step8(r) == Step8(s)
    ensures r == s
  {
    hide Step4;
    Step4Injective(Step4(r), Step4(s));
    Step4Injective(r, s);
  }

  // ---- eight bits one after the other are a byte at once ----

  lemma ShiftInIsStep(r: bv32, bit: bv32)
    requires bit == 0 || bit == 1
    ensures ShiftIn(r, bit) == Step(Xor(r, bit))
  {
    LowIsBit(r);
    ShrXor(r, bit);
    XorLaws(Shr(r, 1), 0, 0);
    if bit == 0 {
      assert Shr(bit, 1) == 0 && Low(bit) == 0;
    } else {
      assert Shr(bit, 1) == 0 && Low(bit) == 1;
    }
    hide Shr, Low;
  }

  /** A value without its lowest bit. */
  function Rest(v: bv32): bv32 {
    v & 0xFFFFFFFE
  }

  lemma SplitLow(v: bv32)
    ensures v == Xor(Low(v), Rest(v)) && Low(Rest(v)) == 0 && Shr(Rest(v), 1) == Shr(v, 1)
  {
  }

  /** Adding a whole value before a shift is adding its lowest bit before and the others behind it. */
  lemma OneBit(r: bv32, v: bv32)
    ensures Step(Xor(r, v)) == Xor(ShiftIn(r, Low(v)), Shr(v, 1))
  {
    hide Step, ShiftIn, Xor, Shr, Low, Rest;
    SplitLow(v);
    XorLaws(r, Low(v), Rest(v));
    StepLinear(Xor(r, Low(v)), Rest(v));
    StepEven(Rest(v));
    LowIsBit(v);
    ShiftInIsStep(r, Low(v));
  }

  lemma TwoBits(r: bv32, v: bv32)
    ensures Step2(Xor(r, v)) == Xor(ShiftIn2(r, v), Shr(v, 2))
  {
    hide Step, ShiftIn, Xor, Shr, Low;
    OneBit(r, v);
    OneBit(ShiftIn(r, Low(v)), Shr(v, 1));
    ShrShr(v);
  }

  lemma FourBits(r: bv32, v: bv32)
    ensures Step4(Xor(r, v)) == Xor(ShiftIn4(r, v), Shr(v, 4))
  {
    hide Step2, ShiftIn2, Xor, Shr;
    TwoBits(r, v);
    TwoBits(ShiftIn2(r, v), Shr(v, 2));
    ShrShr(v);
  }

  lemma EightBits(r: bv32, v: bv32)
    ensures Step8(Xor(r, v)) == Xor(ShiftIn8(r, v), Shr(v, 8))
  {
    hide Step4, ShiftIn4, Xor, Shr;
    FourBits(r, v);
    FourBits(ShiftIn4(r, v), Shr(v, 4));
    ShrShr(v);
  }

  lemma ByteHasEightBits(b: Byte)
    ensures Shr(b as bv32, 8) == 0
  {
  }

  lemma SerialIsStep8(r: bv32, b: Byte)
    ensures SerialByte(r, b) == Step8(Xor(r, b as bv32))
  {
    hide Step8, ShiftIn8, Xor, Shr;
    EightBits(r, b as bv32);
    ByteHasEightBits(b);
    XorLaws(ShiftIn8(r, b as bv32), 0, 0);
  }

  // ---- whole messages ----

  lemma {:induction false} SerialAppend(r: bv32, a: seq<Byte>, b: seq<Byte>)
    ensures Serial(r, a + b) == Serial(Serial(r, a), b)
    decreases |a|
  {
    if a == [] {
      assert a + b == b;
    } else {
      assert (a + b)[1..] == a[1..] + b;
      SerialAppend(SerialByte(r, a[0]), a[1..], b);
    }
  }

  /** For a fixed message the register is an injective function of its start value. */
  lemma {:induction false} SerialInjective(r: bv32, s: bv32, message: seq<Byte>)
    requires Serial(r, message) == Serial(s, message)
    ensures r == s
    decreases |message|
  {
    hide SerialByte, Step8, Xor;
    if message != [] {
      var b := message[0];
      SerialInjective(SerialByte(r, b), SerialByte(s, b), message[1..]);
      SerialIsStep8(r, b);
      SerialIsStep8(s, b);
      Step8Injective(Xor(r, b as bv32), Xor(s, b as bv32));
      XorSame(r, s, b as bv32);
    }
  }

  /** The bytes of a window as one number, first byte lowest. */
  function Pack(w: seq<Byte>): bv32
    decreases |w|
  {
    if w == [] then 0 else Xor(w[0] as bv32, Shl8(Pack(w[1..])))
  }

  /** The register shifted over n bytes without input. */
  function Shifts(n: nat, r: bv32): bv32 {
    if n == 0 then r else Shifts(n - 1, Step8(r))
  }

  /** p has at most n bytes. */
  predicate Fits(p: bv32, n: nat) {
    if n == 0 then p == 0
    else if n == 1 then p < 0x100
    else if n == 2 then p < 0x10000
    else if n == 3 then p < 0x1000000
    else true
  }

  lemma PackFitsStep(b: Byte, p: bv32, n: nat)
    requires n <= 3 && Fits(p, n)
    ensures Fits(Xor(b as bv32, Shl8(p)), n + 1)
  {
  }

  lemma PackTail(b: Byte, p: bv32)
    requires p < 0x1000000
    ensures Shr(Xor(b as bv32, Shl8(p)), 8) == p
  {
  }

  /** The index expression (x & 0xFF) of the table lookup. */
  function LowByte(x: bv32): Byte {
    (x & 0xFF) as Byte
  }

  lemma PackHead(b: Byte, p: bv32)
    ensures LowByte(Xor(b as bv32, Shl8(p))) == b
  {
  }

  lemma Shifted(p: bv32)
    requires p < 0x1000000
    ensures Shr(Shl8(p), 8) == p && Shl8(p) & 0xFF == 0
  {
  }

  lemma FitsThree(p: bv32, n: nat)
    requires n <= 3 && Fits(p, n)
    ensures p < 0x1000000
  {
  }

  lemma {:induction false} PackFits(w: seq<Byte>)
    requires |w| <= 4
    ensures Fits(Pack(w), |w|)
    decreases |w|
  {
    hide Xor, Shl8;
    if w != [] {
      PackFits(w[1..]);
      PackFitsStep(w[0], Pack(w[1..]), |w| - 1);
    }
  }

  lemma PackParts(b: Byte, w: seq<Byte>)
    requires |w| <= 3
    ensures LowByte(Pack([b] + w)) == b && Shr(Pack([b] + w), 8) == Pack(w)
  {
    hide Xor, Shl8, Shr, Fits, LowByte;
    assert ([b] + w)[1..] == w;
    PackFits(w);
    FitsThree(Pack(w), |w|);
    PackTail(b, Pack(w));
    PackHead(b, Pack(w));
  }

  /** A packed window determines its bytes. */
  lemma {:induction false} PackInjective(v: seq<Byte>, w: seq<Byte>)
    requires |v| == |w| <= 4 && Pack(v) == Pack(w)
    ensures v == w
    decreases |v|
  {
    hide Pack, Shr, LowByte;
    if v != [] {
      PackParts(v[0], v[1..]);
      PackParts(w[0], w[1..]);
      assert v == [v[0]] + v[1..] && w == [w[0]] + w[1..];
      PackInjective(v[1..], w[1..]);
    }
  }

  /** A window of at most four bytes acts like one addition to the register in front of it. */
  lemma {:induction false} WindowIsXor(r: bv32, w: seq<Byte>)
    requires |w| <= 4
    ensures Serial(r, w) == Shifts(|w|, Xor(r, Pack(w)))
    decreases |w|
  {
    hide SerialByte, Step8, Xor, Shl8, Shr, Fits;
    if w == [] {
      XorLaws(r, 0, 0);
    } else {
      var b, p := w[0] as bv32, Pack(w[1..]);
      WindowIsXor(SerialByte(r, w[0]), w[1..]);
      SerialIsStep8(r, w[0]);
      PackFits(w[1..]);
      FitsThree(p, |w| - 1);
      Shifted(p);
      Step8High(Shl8(p));
      Step8Linear(Xor(r, b), Shl8(p));
      XorLaws(r, b, Shl8(p));
    }
  }

  lemma {:induction false} ShiftsInjective(n: nat, r: bv32, s: bv32)
    requires Shifts(n, r) == Shifts(n, s)
    ensures r == s
  {
    hide Step8;
    if n > 0 {
      ShiftsInjective(n - 1, Step8(r), Step8(s));
      Step8Injective(r, s);
    }
  }

  /** Different windows of at most four bytes leave different registers. */
  lemma WindowInjective(r: bv32, v: seq<Byte>, w: seq<Byte>)
    requires |v| == |w| <= 4 && Serial(r, v) == Serial(r, w)
    ensures v == w
  {
    hide Serial, Pack, Shifts, Xor;
    WindowIsXor(r, v);
    WindowIsXor(r, w);
    ShiftsInjective(|v|, Xor(r, Pack(v)), Xor(r, Pack(w)));
    XorSame(Pack(v), Pack(w), r);
    PackInjective(v, w);
  }
}
