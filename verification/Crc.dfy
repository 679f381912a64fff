/** Cyclic redundancy checks, bit by bit, and the one property they share: a change
    of one byte never goes unnoticed. */
module Crc {

  /** The state after a byte string. */
  function Run<S>(step: (S, bv8) -> S, s: S, data: seq<bv8>): S {
    if data == [] then s else step(Run(step, s, data[..|data| - 1]), data[|data| - 1])
  }

  /** The digits 1 to 9, over which CRCs are compared. */
  const DIGITS: seq<bv8> := [0x31, 0x32, 0x33, 0x34, 0x35, 0x36, 0x37, 0x38, 0x39]

  lemma RunEmpty<S>(step: (S, bv8) -> S, s: S)
    ensures Run(step, s, []) == s
  {}

  lemma RunNext<S>(step: (S, bv8) -> S, s: S, data: seq<bv8>, c: bv8, more: seq<bv8>)
    requires more == data + [c]
    ensures Run(step, s, more) == step(Run(step, s, data), c)
  {
    assert more[..|data|] == data;
  }

  /** For every byte a step is one-to-one on states, and for every state on bytes. */
  ghost predicate OneToOne<S(!new)>(step: (S, bv8) -> S) {
    && (forall s, t, c: bv8 :: step(s, c) == step(t, c) ==> s == t)
    && (forall s, c: bv8, d: bv8 :: step(s, c) == step(s, d) ==> c == d)
  }

  /** Two strings of the same length that differ in exactly one byte end in different
      states. */
  lemma {:induction false} OneByteNoticed<S(!new)>(step: (S, bv8) -> S, s: S, a: seq<bv8>, b: seq<bv8>, i: nat)
    requires OneToOne(step) && |a| == |b| && i < |a| && a[i] != b[i]
    requires forall j :: 0 <= j < |a| && j != i ==> a[j] == b[j]
    ensures Run(step, s, a) != Run(step, s, b)
  {
    var n := |a| - 1;
    if i == n {
      assert a[..n] == b[..n];
    } else {
      OneByteNoticed(step, s, a[..n], b[..n], i);
    }
  }
}

/** The fragment checksum of the multicast protocol (libota.c,
    ota_calculate_checksum_over_one_fragment). */
module Crc16 {
  import opened Crc

  /** One bit of the reflected CCITT polynomial. */
  function Bit(s: bv16): bv16 {
    if s & 1 == 1 then (s >> 1) ^ 0x8408 else s >> 1
  }

  function Unbit(s: bv16): bv16 {
    if s & 0x8000 == 0x8000 then ((s ^ 0x8408) << 1) | 1 else s << 1
  }

  lemma UnbitBit(s: bv16)
    ensures Unbit(Bit(s)) == s
  {}

  function Bits(s: bv16, n: nat): bv16
    decreases n
  {
    if n == 0 then s else Bits(Bit(s), n - 1)
  }

  lemma {:induction false} BitsOneToOne(s: bv16, t: bv16, n: nat)
    requires Bits(s, n) == Bits(t, n)
    ensures s == t
    decreases n
  {
    if n > 0 {
      BitsOneToOne(Bit(s), Bit(t), n - 1);
      UnbitBit(s);
      UnbitBit(t);
    }
  }

  /** One byte, bit by bit. */
  function Step(s: bv16, c: bv8): bv16 {
    Bits(s ^ (c as bv16), 8)
  }

  /** The bit-serial checksum. */
  function Checksum(data: seq<bv8>): bv16 {
    Run(Step, 0, data)
  }

  /** The check value of this CRC, that of the digits 1 to 9. */
  lemma CheckValue()
    ensures Checksum(DIGITS) == 0x2189
  {
    hide Step, Run;
    StepValues();
    RunEmpty(Step, 0x0000);
    assert DIGITS[..0] == [] && DIGITS[..9] == DIGITS;
    RunNext(Step, 0x0000, DIGITS[..0], DIGITS[0], DIGITS[..1]);
    RunNext(Step, 0x0000, DIGITS[..1], DIGITS[1], DIGITS[..2]);
    RunNext(Step, 0x0000, DIGITS[..2], DIGITS[2], DIGITS[..3]);
    RunNext(Step, 0x0000, DIGITS[..3], DIGITS[3], DIGITS[..4]);
    RunNext(Step, 0x0000, DIGITS[..4], DIGITS[4], DIGITS[..5]);
    RunNext(Step, 0x0000, DIGITS[..5], DIGITS[5], DIGITS[..6]);
    RunNext(Step, 0x0000, DIGITS[..6], DIGITS[6], DIGITS[..7]);
    RunNext(Step, 0x0000, DIGITS[..7], DIGITS[7], DIGITS[..8]);
    RunNext(Step, 0x0000, DIGITS[..8], DIGITS[8], DIGITS[..9]);
  }

  lemma StepValues()
    ensures Step(0x0000, 0x31) == 0x200a && Step(0x200a, 0x32) == 0xbdeb && Step(0xbdeb, 0x33) == 0x5a78
    ensures Step(0x5a78, 0x34) == 0x8832 && Step(0x8832, 0x35) == 0x7437 && Step(0x7437, 0x36) == 0x11fd
    ensures Step(0x11fd, 0x37) == 0x6947 && Step(0x6947, 0x38) == 0x8b19 && Step(0x8b19, 0x39) == 0x2189
  {}

  lemma StepOneToOne()
    ensures OneToOne(Step)
  {
    forall s: bv16, t: bv16, c: bv8 | Step(s, c) == Step(t, c)
      ensures s == t
    {
      BitsOneToOne(s ^ (c as bv16), t ^ (c as bv16), 8);
      assert s ^ (c as bv16) ^ (c as bv16) == s;
    }
    forall s: bv16, c: bv8, d: bv8 | Step(s, c) == Step(s, d)
      ensures c == d
    {
      BitsOneToOne(s ^ (c as bv16), s ^ (d as bv16), 8);
    }
  }

  // ---- Four bits at a time -----------------------------------------------------------

  lemma {:induction false} BitsTwice(s: bv16, m: nat, n: nat)
    ensures Bits(Bits(s, m), n) == Bits(s, m + n)
    decreases m
  {
    if m > 0 {
      BitsTwice(Bit(s), m - 1, n);
    }
  }

  /** The operations of the source, under names that keep the proof from looking
      into their bits. */
  function Xor(a: bv16, b: bv16): bv16 { a ^ b }
  function Drop4(a: bv16): bv16 { a >> 4 }
  function Low4(a: bv16): bv16 { a & 0xf }
  function Spread(q: bv16): bv16 { q * 0x1081 }
  function Wide(c: bv8): bv16 { c as bv16 }

  /** One round of the source, for the low four bits of `d`. */
  function Round(s: bv16, d: bv16): bv16 {
    Xor(Drop4(s), Spread(Low4(Xor(s, d))))
  }

  function Half(s: bv16): bv16 { s >> 1 }
  predicate Odd(s: bv16) { s & 1 == 1 }

  lemma HalfXor(a: bv16, b: bv16)
    ensures Half(Xor(a, b)) == Xor(Half(a), Half(b))
  {}

  lemma OddXor(a: bv16, b: bv16)
    ensures Odd(Xor(a, b)) <==> Odd(a) != Odd(b)
  {}

  lemma XorMoves(a: bv16, b: bv16, p: bv16)
    ensures Xor(Xor(a, b), p) == Xor(Xor(a, p), b) == Xor(a, Xor(b, p))
    ensures Xor(a, b) == Xor(Xor(a, p), Xor(b, p))
  {}

  lemma BitIs(s: bv16)
    ensures Bit(s) == if Odd(s) then Xor(Half(s), 0x8408) else Half(s)
  {}

  lemma BitXor(a: bv16, b: bv16)
    ensures Bit(Xor(a, b)) == Xor(Bit(a), Bit(b))
  {
    hide Bit, Xor, Half, Odd;
    BitIs(a);
    BitIs(b);
    BitIs(Xor(a, b));
    HalfXor(a, b);
    OddXor(a, b);
    XorMoves(Half(a), Half(b), 0x8408);
  }

  function Four(x: bv16): bv16 {
    Bit(Bit(Bit(Bit(x))))
  }

  lemma FourXor(a: bv16, b: bv16)
    ensures Four(Xor(a, b)) == Xor(Four(a), Four(b))
  {
    hide Bit, Xor;
    BitXor(a, b);
    BitXor(Bit(a), Bit(b));
    BitXor(Bit(Bit(a)), Bit(Bit(b)));
    BitXor(Bit(Bit(Bit(a))), Bit(Bit(Bit(b))));
  }

  /** Without the low four bits there is only the shift. */
  lemma FourHigh(x: bv16)
    ensures Four(x & 0xfff0) == Drop4(x)
  {
    assert Bit(x & 0xfff0) == (x >> 1) & 0x7ff8;
    assert Bit((x >> 1) & 0x7ff8) == (x >> 2) & 0x3ffc;
    assert Bit((x >> 2) & 0x3ffc) == (x >> 3) & 0x1ffe;
    assert Bit((x >> 3) & 0x1ffe) == x >> 4;
  }

  /** The sixteen values of the low four bits. */
  lemma FourLow(q: bv16)
    requires q < 16
    ensures Four(q) == Spread(q)
  {
    assert q == 0 || q == 1 || q == 2 || q == 3 || q == 4 || q == 5 || q == 6 || q == 7
        || q == 8 || q == 9 || q == 10 || q == 11 || q == 12 || q == 13 || q == 14 || q == 15;
  }

  lemma Halves(x: bv16)
    ensures x == Xor(x & 0xfff0, Low4(x)) && Low4(x) < 16
  {}

  lemma FourBits(x: bv16)
    ensures Four(x) == Xor(Drop4(x), Spread(Low4(x)))
  {
    hide Four, Xor, Drop4, Low4, Spread;
    Halves(x);
    FourXor(x & 0xfff0, Low4(x));
    FourHigh(x);
    FourLow(Low4(x));
  }

  /** Four bits by a multiplication. */
  lemma Nibble(x: bv16)
    ensures Bits(x, 4) == Xor(Drop4(x), Spread(Low4(x)))
  {
    hide Bit, Xor, Drop4, Low4, Spread;
    var a := Bit(x);
    var b := Bit(a);
    var c := Bit(b);
    assert Bits(c, 1) == Bit(c) && Bits(b, 2) == Bits(c, 1) && Bits(a, 3) == Bits(b, 2);
    FourBits(x);
  }

  lemma Shifts(s: bv16, d: bv16, q: bv16)
    ensures Xor(Drop4(Xor(s, d)), q) == Xor(Xor(Drop4(s), q), Drop4(d))
  {}

  lemma ShiftOut(r: bv16, c: bv8)
    ensures Drop4(Xor(r, Drop4(Wide(c)))) == Drop4(r)
  {}

  lemma StepIs(s: bv16, c: bv8)
    ensures Step(s, c) == Bits(Xor(s, Wide(c)), 8)
  {}

  /** The two halves of a byte. */
  lemma TwoRounds(s: bv16, c: bv8)
    ensures Round(Round(s, Wide(c)), Drop4(Wide(c))) == Step(s, c)
  {
    hide Bits, Xor, Drop4, Low4, Spread, Wide, Step;
    var d := Wide(c);
    Nibble(Xor(s, d));
    Shifts(s, d, Spread(Low4(Xor(s, d))));
    Nibble(Xor(Round(s, d), Drop4(d)));
    ShiftOut(Round(s, d), c);
    BitsTwice(Xor(s, d), 4, 4);
    StepIs(s, c);
  }

  method NibbleRound(crc: bv16, d: bv16) returns (r: bv16)
    ensures r == Round(crc, d)
  {
    var q := (crc ^ d) & 0x0f;
    r := (crc >> 4) ^ (q * 0x1081);
  }

  /** ota_calculate_checksum_over_one_fragment */
  method ChecksumByNibbles(data: seq<bv8>) returns (crc: bv16)
    ensures crc == Checksum(data)
  {
    hide Step, Round;
    crc := 0;
    for i := 0 to |data|
      invariant crc == Checksum(data[..i])
    {
      assert data[..i + 1][..i] == data[..i];
      TwoRounds(crc, data[i]);
      var c := data[i] as bv16;
      crc := NibbleRound(crc, c);
      crc := NibbleRound(crc, c >> 4);
    }
    assert data[..|data|] == data;
  }

  /** A fragment with one corrupted byte does not have the checksum of the original. */
  lemma CorruptByteNoticed(a: seq<bv8>, b: seq<bv8>, i: nat)
    requires |a| == |b| && i < |a| && a[i] != b[i] && forall j :: 0 <= j < |a| && j != i ==> a[j] == b[j]
    ensures Checksum(a) != Checksum(b)
  {
    StepOneToOne();
    OneByteNoticed(Step, 0, a, b, i);
  }
}
