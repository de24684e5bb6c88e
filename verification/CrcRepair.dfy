/** Single-bit repair of a frame that failed its CRC, and exactly what it can and cannot be trusted with. */
module CrcRepair {
  import opened Bytes
  import opened Gf2
  import opened Crc16
  import opened CrcOrder

  const BITS_PER_BYTE := 8

  /** The longest frame whose single-bit damage is always told apart. */
  const MAX_UNIQUE_LEN := 4095

  datatype Position = Position(offset: nat, bit: nat)

  predicate InFrame(p: Position, length: nat) {
    p.offset < length && p.bit < BITS_PER_BYTE
  }

  function Mask(bit: nat): bv8
    requires bit < BITS_PER_BYTE
  {
    1 << bit
  }

  function XorByte(a: bv8, b: bv8): bv8 {
    a ^ b
  }

  function Flip(frame: Bytes, p: Position): (flipped: Bytes)
    requires InFrame(p, |frame|)
    ensures |flipped| == |frame|
  {
    frame[p.offset := XorByte(frame[p.offset], Mask(p.bit))]
  }

  /** How many bit steps separate a bit from the end of its frame: 1 for the last, 8 * length for the first. */
  function Distance(length: nat, p: Position): (k: nat)
    requires InFrame(p, length)
    ensures 1 <= k <= 8 * length
  {
    8 * (length - p.offset) - p.bit
  }

  /** What flipping a bit adds to the CRC of any frame of this length. */
  function Effect(length: nat, p: Position): bv16
    requires InFrame(p, length)
  {
    Iterate(1, Distance(length, p))
  }

  // ----- the effect of a flip

  lemma MaskedByte(b: bv8, m: bv8)
    ensures XorByte(b, m) as bv16 == Xor(b as bv16, m as bv16)
  {}

  lemma OneStep(s: bv16)
    ensures Iterate(s, 1) == Advance(s)
  {}

  lemma MaskSteps(bit: nat)
    requires bit < BITS_PER_BYTE
    ensures Iterate(Mask(bit) as bv16, 8) == Iterate(1, 8 - bit)
  {
    hide Iterate, Mask;
    MaskReachesOne(bit);
    IterateAdd(Mask(bit) as bv16, bit, 8 - bit);
  }

  /** A one at bit `bit` is shifted down to the low end in that many steps. */
  lemma {:induction false} MaskReachesOne(bit: nat)
    requires bit < BITS_PER_BYTE
    ensures Iterate(Mask(bit) as bv16, bit) == 1
  {
    hide Iterate, Mask;
    if bit == 0 {
      FirstMask();
    } else {
      MaskReachesOne(bit - 1);
      MaskHalves(bit);
      OneStep(Mask(bit) as bv16);
      IterateAdd(Mask(bit) as bv16, 1, bit - 1);
    }
  }

  lemma FirstMask()
    ensures Mask(0) == 1 && Iterate(Mask(0) as bv16, 0) == 1
  {}

  lemma MaskHalves(bit: nat)
    requires 0 < bit < BITS_PER_BYTE
    ensures Advance(Mask(bit) as bv16) == Mask(bit - 1) as bv16
  {}

  lemma FlipInLastByte(c: bv16, last: bv16, m: bv16)
    ensures Iterate(Xor(c, Xor(last, m)), 8) == Xor(Iterate(Xor(c, last), 8), Iterate(m, 8))
  {
    hide Xor, Iterate;
    Assoc(c, last, m);
    IterateLinear(Xor(c, last), m, 8);
  }

  lemma FlipBeforeLastByte(c: bv16, e: bv16, last: bv16)
    ensures Iterate(Xor(Xor(c, e), last), 8) == Xor(Iterate(Xor(c, last), 8), Iterate(e, 8))
  {
    hide Xor, Iterate;
    Assoc(c, e, last);
    Comm(e, last);
    FlipInLastByte(c, last, e);
  }

  lemma CrcOfLastByteFlip(front: Bytes, last: bv8, bit: nat)
    requires bit < BITS_PER_BYTE
    ensures Crc(0, front + [XorByte(last, Mask(bit))]) == Xor(Crc(0, front + [last]), Iterate(1, 8 - bit))
  {
    hide Xor, Iterate, Mask, XorByte, Crc;
    CrcSnoc(0, front, last);
    CrcSnoc(0, front, XorByte(last, Mask(bit)));
    MaskedByte(last, Mask(bit));
    FlipInLastByte(Crc(0, front), last as bv16, Mask(bit) as bv16);
    MaskSteps(bit);
  }

  lemma CrcOfEarlierFlip(front: Bytes, flipped: Bytes, last: bv8, k: nat)
    requires Crc(0, flipped) == Xor(Crc(0, front), Iterate(1, k))
    ensures Crc(0, flipped + [last]) == Xor(Crc(0, front + [last]), Iterate(1, k + 8))
  {
    hide Xor, Iterate, Crc;
    CrcSnoc(0, front, last);
    CrcSnoc(0, flipped, last);
    FlipBeforeLastByte(Crc(0, front), Iterate(1, k), last as bv16);
    IterateAdd(1, k, 8);
  }

  /** A flip changes the CRC by an amount that depends only on how far it is from the end. */
  lemma {:induction false} FlipChangesCrc(frame: Bytes, p: Position)
    requires InFrame(p, |frame|)
    ensures Crc(0, Flip(frame, p)) == Xor(Crc(0, frame), Effect(|frame|, p))
  {
    hide Xor, Iterate, Mask, XorByte, Crc;
    var n := |frame| - 1;
    var front, last := frame[..n], frame[n];
    assert frame == front + [last];
    if p.offset == n {
      assert Flip(frame, p) == front + [XorByte(last, Mask(p.bit))];
      CrcOfLastByteFlip(front, last, p.bit);
    } else {
      FlipChangesCrc(front, p);
      assert Flip(frame, p) == Flip(front, p) + [last];
      CrcOfEarlierFlip(front, Flip(front, p), last, Distance(n, p));
    }
  }

  // ----- telling the effects apart

  lemma OneIsAPower()
    ensures Power(15) == 1
  {
    hide Advance;
    IterateAdd(0x8000, 8, 7);
    EightSteps(0x8000);
    SevenMoreSteps();
  }

  lemma SevenMoreSteps()
    ensures Advance(Advance(Advance(Advance(Advance(Advance(Advance(Advance(0x8000)))))))) == 0x80
    ensures Iterate(0x80, 7) == 1
  {}

  lemma EffectIsPower(length: nat, p: Position)
    requires InFrame(p, length)
    ensures Effect(length, p) == Power(15 + Distance(length, p))
  {
    hide Iterate;
    OneIsAPower();
    IterateAdd(0x8000, 15, Distance(length, p));
  }

  lemma SamePosition(length: nat, p: Position, q: Position)
    requires InFrame(p, length) && InFrame(q, length) && Distance(length, p) == Distance(length, q)
    ensures p == q
  {}

  ghost predicate EffectsDistinct(length: nat) {
    forall p, q :: InFrame(p, length) && InFrame(q, length) && p != q ==> Effect(length, p) != Effect(length, q)
  }

  /** The bits of a frame have pairwise distinct effects exactly when the frame is at most 4095 bytes long. */
  lemma EffectsDistinctExactly(length: nat)
    ensures EffectsDistinct(length) <==> length <= MAX_UNIQUE_LEN
  {
    hide Effect, Power;
    if length <= MAX_UNIQUE_LEN {
      forall p, q | InFrame(p, length) && InFrame(q, length) && p != q
        ensures Effect(length, p) != Effect(length, q)
      {
        EffectsDiffer(length, p, q);
      }
    } else {
      var p, q := Indistinguishable(length);
      assert !EffectsDistinct(length);
    }
  }

  lemma EffectsDiffer(length: nat, p: Position, q: Position)
    requires length <= MAX_UNIQUE_LEN && InFrame(p, length) && InFrame(q, length) && p != q
    ensures Effect(length, p) != Effect(length, q)
  {
    hide Effect, Power;
    EffectIsPower(length, p);
    EffectIsPower(length, q);
    var i, j := Distance(length, p), Distance(length, q);
    if i == j {
      SamePosition(length, p, q);
    } else if i < j {
      PowersDistinct(15 + i, 15 + j);
    } else {
      PowersDistinct(15 + j, 15 + i);
    }
  }

  /** In any longer frame the last bit and the one 32767 before it cannot be told apart. */
  lemma Indistinguishable(length: nat) returns (p: Position, q: Position)
    requires length > MAX_UNIQUE_LEN
    ensures InFrame(p, length) && InFrame(q, length) && p != q && Effect(length, p) == Effect(length, q)
  {
    hide Effect, Power;
    p, q := Position(length - 1, 7), Position(length - 4096, 0);
    assert Distance(length, q) == Distance(length, p) + ORDER;
    EffectIsPower(length, p);
    EffectIsPower(length, q);
    PowersRepeat(15 + Distance(length, p));
  }

  /** The table entry for a byte. */
  function TableAt(b: bv8): (entry: bv16)
    ensures entry == Iterate(b as bv16, 8)
  {
    TableStepIsTableEntry(b);
    TableStepped(0, b)
  }

  lemma ZeroByteStep(s: bv16)
    ensures TableStepped(s, 0) == Iterate(s, 8)
  {
    hide Iterate, Xor, TableStepped;
    TableStep(s, 0);
    Zero(s);
  }

  lemma TableStepIsTableEntry(b: bv8)
    ensures TableStepped(0, b) == Iterate(b as bv16, 8)
  {
    hide Iterate, Xor, TableStepped;
    TableStep(0, b);
    Zero(b as bv16);
  }

  /** Every state moved past one more zero byte. */
  method NextStates(states: seq<bv16>, steps: nat) returns (next: seq<bv16>)
    requires |states| == BITS_PER_BYTE <= steps
    requires forall b :: 0 <= b < BITS_PER_BYTE ==> states[b] == Iterate(1, steps - b)
    ensures |next| == BITS_PER_BYTE
    ensures forall b :: 0 <= b < BITS_PER_BYTE ==> next[b] == Iterate(1, steps + 8 - b)
  {
    hide Iterate, Xor, TableStepped;
    next := [];
    for bit := 0 to BITS_PER_BYTE
      invariant |next| == bit
      invariant forall b :: 0 <= b < bit ==> next[b] == Iterate(1, steps + 8 - b)
    {
      ZeroByteStep(states[bit]);
      IterateAdd(1, steps - bit, 8);
      next := next + [TableStepped(states[bit], 0)];
    }
  }

  /** The client's table of effects, filled from the last byte to the first. */
  method FlipEffects(length: nat) returns (effects: map<Position, bv16>)
    ensures forall p :: p in effects <==> InFrame(p, length)
    ensures forall p :: InFrame(p, length) ==> effects[p] == Effect(length, p)
  {
    hide Iterate, Mask, Table, TableStepped, Xor;
    effects := map[];
    var states: seq<bv16> := [];
    for bit := 0 to BITS_PER_BYTE
      invariant |states| == bit
      invariant forall b :: 0 <= b < bit ==> states[b] == Iterate(1, 8 - b)
    {
      MaskSteps(bit);
      states := states + [TableAt(Mask(bit))];
    }
    for offset := length downto 0
      invariant |states| == BITS_PER_BYTE
      invariant forall b :: 0 <= b < BITS_PER_BYTE ==> states[b] == Iterate(1, 8 * (length - offset + 1) - b)
      invariant forall p :: p in effects <==> InFrame(p, length) && p.offset >= offset
      invariant forall p :: p in effects ==> effects[p] == Effect(length, p)
    {
      for bit := 0 to BITS_PER_BYTE
        invariant forall p :: p in effects <==>
                              InFrame(p, length) && (p.offset > offset || (p.offset == offset && p.bit < bit))
        invariant forall p :: p in effects ==> effects[p] == Effect(length, p)
      {
        effects := effects[Position(offset, bit) := states[bit]];
      }
      states := NextStates(states, 8 * (length - offset));
    }
  }

  // ----- the repair search

  /** The k-th bit of a frame in the order the search visits them: last byte first, low bit first. */
  function Visited(length: nat, k: nat): (p: Position)
    requires k < BITS_PER_BYTE * length
    ensures InFrame(p, length)
  {
    Position(length - 1 - k / BITS_PER_BYTE, k % BITS_PER_BYTE)
  }

  /** Of the first k bits visited, those whose flip alone makes the frame pass its check. */
  function RepairsAmong(frame: Bytes, k: nat): seq<Position>
    requires k <= BITS_PER_BYTE * |frame|
  {
    if k == 0 then []
    else
      var p := Visited(|frame|, k - 1);
      RepairsAmong(frame, k - 1) + if IsValid(Flip(frame, p)) then [p] else []
  }

  function Repairs(frame: Bytes): seq<Position> {
    RepairsAmong(frame, BITS_PER_BYTE * |frame|)
  }

  lemma {:induction false} RepairsAmongExactly(frame: Bytes, k: nat, p: Position)
    requires k <= BITS_PER_BYTE * |frame|
    ensures p in RepairsAmong(frame, k) <==>
            InFrame(p, |frame|) && BITS_PER_BYTE * (|frame| - 1 - p.offset) + p.bit < k && IsValid(Flip(frame, p))
  {
    hide IsValid, Flip;
    if k > 0 {
      RepairsAmongExactly(frame, k - 1, p);
    }
  }

  /** The search finds a bit exactly when flipping it makes the frame pass. */
  lemma RepairsExactly(frame: Bytes, p: Position)
    ensures p in Repairs(frame) <==> InFrame(p, |frame|) && IsValid(Flip(frame, p))
  {
    hide IsValid, Flip, RepairsAmong;
    RepairsAmongExactly(frame, BITS_PER_BYTE * |frame|, p);
  }

  lemma {:induction false} RepairsAmongOnce(frame: Bytes, k: nat, i: nat, j: nat)
    requires k <= BITS_PER_BYTE * |frame| && i < j < |RepairsAmong(frame, k)|
    ensures RepairsAmong(frame, k)[i] != RepairsAmong(frame, k)[j]
  {
    hide IsValid, Flip;
    var before := RepairsAmong(frame, k - 1);
    if j < |before| {
      RepairsAmongOnce(frame, k - 1, i, j);
    } else {
      RepairsAmongExactly(frame, k - 1, before[i]);
    }
  }

  /** Repairing means adding to the CRC exactly what it is off by. */
  lemma RepairingEffect(frame: Bytes, p: Position)
    requires InFrame(p, |frame|)
    ensures IsValid(Flip(frame, p)) <==> Effect(|frame|, p) == Xor(Crc(0, frame), RESIDUE)
  {
    hide Xor, Effect, Flip, Crc;
    FlipChangesCrc(frame, p);
    Solve(Crc(0, frame), Effect(|frame|, p), RESIDUE);
  }

  /** The client's search: look the needed change up in the table of effects. */
  method RepairingBits(frame: Bytes) returns (found: seq<Position>)
    ensures found == Repairs(frame)
  {
    hide Effect, Xor, Flip, Crc, IsValid;
    var crc := Crc16.Crc16(frame);
    var needed := Xor(crc, RESIDUE);
    var effects := FlipEffects(|frame|);
    found := [];
    for k := 0 to BITS_PER_BYTE * |frame|
      invariant found == RepairsAmong(frame, k)
    {
      var p := Visited(|frame|, k);
      RepairingEffect(frame, p);
      if effects[p] == needed {
        found := found + [p];
      }
    }
  }

  // ----- damage: any number of flips, one after another

  function FlipAll(frame: Bytes, ps: seq<Position>): (damaged: Bytes)
    requires forall p <- ps :: InFrame(p, |frame|)
    ensures |damaged| == |frame|
    decreases |ps|
  {
    if ps == [] then frame else FlipAll(Flip(frame, ps[0]), ps[1..])
  }

  lemma NoFlips(frame: Bytes)
    ensures FlipAll(frame, []) == frame
  {}

  lemma OneFlip(frame: Bytes, p: Position)
    requires InFrame(p, |frame|)
    ensures FlipAll(frame, [p]) == Flip(frame, p)
  {}

  lemma BothFlips(frame: Bytes, p: Position, q: Position)
    requires InFrame(p, |frame|) && InFrame(q, |frame|)
    ensures FlipAll(frame, [p, q]) == Flip(Flip(frame, p), q)
  {
    hide Flip;
    assert [p, q][1..] == [q];
    OneFlip(Flip(frame, p), q);
  }

  lemma ThreeFlips(frame: Bytes, p: Position, q: Position, r: Position)
    requires InFrame(p, |frame|) && InFrame(q, |frame|) && InFrame(r, |frame|)
    ensures FlipAll(frame, [p, q, r]) == Flip(Flip(Flip(frame, p), q), r)
  {
    hide Flip;
    assert [p, q, r][1..] == [q, r];
    BothFlips(Flip(frame, p), q, r);
  }

  lemma FlipTwice(frame: Bytes, p: Position)
    requires InFrame(p, |frame|)
    ensures Flip(Flip(frame, p), p) == frame
  {}

  /** Two different flips leave a frame passing exactly when their effects are the same. */
  lemma TwoFlips(frame: Bytes, p: Position, q: Position)
    requires IsValid(frame) && InFrame(p, |frame|) && InFrame(q, |frame|)
    ensures IsValid(Flip(Flip(frame, p), q)) <==> Effect(|frame|, p) == Effect(|frame|, q)
  {
    hide Xor, Effect, Flip, Crc;
    FlipChangesCrc(frame, p);
    RepairingEffect(Flip(frame, p), q);
    Comm(RESIDUE, Effect(|frame|, p));
    Cancel(Effect(|frame|, p), RESIDUE);
  }

  /** One flipped bit in a frame of at most 4095 bytes: the search names that bit and no other. */
  lemma UniqueRepair(frame: Bytes, p: Position)
    requires IsValid(frame) && |frame| <= MAX_UNIQUE_LEN && InFrame(p, |frame|)
    ensures Repairs(Flip(frame, p)) == [p]
    ensures Flip(Flip(frame, p), p) == frame
  {
    hide IsValid, Flip, Repairs, Effect;
    var damaged := Flip(frame, p);
    var found := Repairs(damaged);
    forall q
      ensures q in found <==> q == p
    {
      RepairsExactly(damaged, q);
      if InFrame(q, |frame|) {
        TwoFlips(frame, p, q);
        if q != p {
          EffectsDiffer(|frame|, p, q);
        }
      }
    }
    FlipTwice(frame, p);
    OnlyElement(damaged, p);
  }

  lemma OnlyElement(frame: Bytes, p: Position)
    requires forall q :: q in Repairs(frame) <==> q == p
    ensures Repairs(frame) == [p]
  {
    hide RepairsAmong;
    var found := Repairs(frame);
    assert p in found;
    assert found[0] in found;
    if |found| > 1 {
      assert found[1] in found;
      RepairsAmongOnce(frame, BITS_PER_BYTE * |frame|, 0, 1);
    }
  }

  /** A frame that passes has no repairing bit, whatever its length. */
  lemma ValidNeedsNoRepair(frame: Bytes)
    requires IsValid(frame)
    ensures Repairs(frame) == []
  {
    EvenDamageNotRepaired(frame, []);
  }

  lemma EffectIsOdd(length: nat, p: Position)
    requires InFrame(p, length)
    ensures Odd(Effect(length, p))
  {
    hide Odd, Iterate;
    IterateKeepsParity(1, Distance(length, p));
    OneIsOdd();
  }

  lemma OneIsOdd()
    ensures Odd(1)
  {}

  lemma ResidueIsEven()
    ensures !Odd(RESIDUE)
  {
    hide Odd;
    ZeroIsEven();
    OddStep(0xB001); OddStep(0x5800); OddStep(0x2C00); OddStep(0x1600); OddStep(0xB00); OddStep(0x580);
    OddStep(0x2C0); OddStep(0x160); OddStep(0xB0); OddStep(0x58); OddStep(0x2C); OddStep(0x16); OddStep(0xB);
    OddStep(5); OddStep(2); OddStep(1);
  }

  /** Every flip turns the parity of the CRC over. */
  lemma {:induction false} DamageParity(frame: Bytes, ps: seq<Position>)
    requires forall p <- ps :: InFrame(p, |frame|)
    ensures Odd(Crc(0, FlipAll(frame, ps))) <==> (Odd(Crc(0, frame)) != (|ps| % 2 == 1))
    decreases |ps|
  {
    hide Odd, Crc, Flip, Effect;
    if ps != [] {
      FlipChangesCrc(frame, ps[0]);
      EffectIsOdd(|frame|, ps[0]);
      OddLinear(Crc(0, frame), Effect(|frame|, ps[0]));
      DamageParity(Flip(frame, ps[0]), ps[1..]);
    }
  }

  /** An odd number of flips always fails the check, in a frame of any length. */
  lemma OddDamageDetected(frame: Bytes, ps: seq<Position>)
    requires IsValid(frame) && (forall p <- ps :: InFrame(p, |frame|)) && |ps| % 2 == 1
    ensures !IsValid(FlipAll(frame, ps))
  {
    hide Odd, Crc, FlipAll;
    DamageParity(frame, ps);
    ResidueIsEven();
  }

  /** An even number of flips is never taken for a single one, in a frame of any length. */
  lemma EvenDamageNotRepaired(frame: Bytes, ps: seq<Position>)
    requires IsValid(frame) && (forall p <- ps :: InFrame(p, |frame|)) && |ps| % 2 == 0
    ensures Repairs(FlipAll(frame, ps)) == []
  {
    hide Odd, IsValid, FlipAll, Flip, Repairs;
    var damaged := FlipAll(frame, ps);
    var found := Repairs(damaged);
    if found != [] {
      var p := found[0];
      assert p in found;
      RepairsExactly(damaged, p);
      FlipAllSnoc(frame, ps, p);
      OddDamageDetected(frame, ps + [p]);
    }
  }

  lemma {:induction false} FlipAllSnoc(frame: Bytes, ps: seq<Position>, p: Position)
    requires (forall q <- ps :: InFrame(q, |frame|)) && InFrame(p, |frame|)
    ensures FlipAll(frame, ps + [p]) == Flip(FlipAll(frame, ps), p)
    decreases |ps|
  {
    hide Flip;
    if ps == [] {
      assert FlipAll(Flip(frame, p), []) == Flip(frame, p);
      assert (ps + [p])[1..] == [];
    } else {
      FlipAllSnoc(Flip(frame, ps[0]), ps[1..], p);
      assert (ps + [p])[1..] == ps[1..] + [p];
    }
  }

  /** Two different bits flipped in a frame of at most 4095 bytes: the check fails, and no repair is offered. */
  lemma DoubleDamageDetected(frame: Bytes, p: Position, q: Position)
    requires IsValid(frame) && |frame| <= MAX_UNIQUE_LEN && InFrame(p, |frame|) && InFrame(q, |frame|) && p != q
    ensures !IsValid(Flip(Flip(frame, p), q))
    ensures Repairs(Flip(Flip(frame, p), q)) == []
  {
    hide IsValid, Flip, FlipAll, Repairs, Effect;
    TwoFlips(frame, p, q);
    EffectsDiffer(|frame|, p, q);
    BothFlips(frame, p, q);
    EvenDamageNotRepaired(frame, [p, q]);
  }

  // ----- where the guarantees stop

  /** Above 4095 bytes some single flip has more than one repairing bit, and some pair of flips passes unseen. */
  lemma LongFramesAmbiguous(frame: Bytes) returns (p: Position, q: Position)
    requires IsValid(frame) && |frame| > MAX_UNIQUE_LEN
    ensures InFrame(p, |frame|) && InFrame(q, |frame|) && p != q
    ensures p in Repairs(Flip(frame, p)) && q in Repairs(Flip(frame, p))
    ensures IsValid(Flip(Flip(frame, p), q)) && Flip(Flip(frame, p), q) != frame
  {
    hide IsValid, Flip, Repairs, Effect;
    p, q := Indistinguishable(|frame|);
    TwoFlips(frame, p, p);
    TwoFlips(frame, p, q);
    RepairsExactly(Flip(frame, p), p);
    RepairsExactly(Flip(frame, p), q);
    DifferentFlips(frame, p, q);
  }

  lemma DifferentFlips(frame: Bytes, p: Position, q: Position)
    requires InFrame(p, |frame|) && InFrame(q, |frame|) && p != q
    ensures Flip(frame, p) != Flip(frame, q) && Flip(Flip(frame, p), q) != frame
  {}

  /**
   Three flips can be repaired into the wrong frame. The generator itself has four terms, so flipping bits 7 and 5 of
   the last byte and bit 0 of the one before looks exactly like damage to bit 7 of the last data byte.
   */
  lemma ThreeFlipsMiscorrected(frame: Bytes) returns (damaged: Bytes, wrong: Position)
    requires IsValid(frame) && 3 <= |frame| <= MAX_UNIQUE_LEN
    ensures var n := |frame|;
      damaged == FlipAll(frame, [Position(n - 1, 7), Position(n - 1, 5), Position(n - 2, 0)])
    ensures wrong == Position(|frame| - 3, 7)
    ensures Repairs(damaged) == [wrong]
    ensures Flip(damaged, wrong) != frame
  {
    hide IsValid, Flip, FlipAll, Repairs, Effect, Crc;
    var n := |frame|;
    var a, b, c := Position(n - 1, 7), Position(n - 1, 5), Position(n - 2, 0);
    wrong := Position(n - 3, 7);
    damaged := Flip(Flip(Flip(frame, a), b), c);
    ThreeFlips(frame, a, b, c);
    FourFlipsPass(frame, a, b, c, wrong);
    UniqueRepair(Flip(damaged, wrong), wrong);
    FlipTwice(damaged, wrong);
    FlippedByte(frame, a, n - 3);
    FlippedByte(Flip(frame, a), b, n - 3);
    FlippedByte(Flip(Flip(frame, a), b), c, n - 3);
    FlippedByte(damaged, wrong, n - 3);
  }

  lemma FlippedByte(frame: Bytes, p: Position, i: nat)
    requires InFrame(p, |frame|) && i < |frame|
    ensures Flip(frame, p)[i] == frame[i] <==> p.offset != i
  {}

  lemma FourFlipsPass(frame: Bytes, a: Position, b: Position, c: Position, d: Position)
    requires IsValid(frame) && |frame| >= 3
    requires a == Position(|frame| - 1, 7) && b == Position(|frame| - 1, 5)
    requires c == Position(|frame| - 2, 0) && d == Position(|frame| - 3, 7)
    ensures IsValid(Flip(Flip(Flip(Flip(frame, a), b), c), d))
  {
    hide Flip, Iterate, Crc, Xor;
    FlipChangesCrc(frame, a);
    FlipChangesCrc(Flip(frame, a), b);
    FlipChangesCrc(Flip(Flip(frame, a), b), c);
    FlipChangesCrc(Flip(Flip(Flip(frame, a), b), c), d);
    GeneratorTerms();
    Zero(0);
  }

  /** x^0, x^2, x^15 and x^16 of the generator, each one step on, add up to nothing. */
  lemma GeneratorTerms()
    ensures Xor(Xor(Xor(Xor(RESIDUE, Iterate(1, 1)), Iterate(1, 3)), Iterate(1, 16)), Iterate(1, 17)) == RESIDUE
  {}
}
