/** The pump protocol's CRC-16: the client's table-driven form and the bit-at-a-time form it must agree with. */
module Crc16 {
  import opened Bytes
  import opened Gf2

  const TABLE_SIZE := 256
  const ODD_PARITY_TERM: bv16 := 0xC001
  const FEEDBACK: bv16 := 0xA001
  const CRC_LEN := 2
  const RESIDUE: bv16 := 0xB001

  /** One bit step of the CRC register. */
  function Advance(s: bv16): bv16 {
    if s & 1 == 1 then Xor(s >> 1, FEEDBACK) else s >> 1
  }

  function Iterate(s: bv16, steps: nat): bv16 {
    if steps == 0 then s else Advance(Iterate(s, steps - 1))
  }

  /** The register after a byte string, eight bit steps per byte. */
  function Crc(c: bv16, data: Bytes): bv16 {
    if data == [] then c
    else Iterate(Xor(Crc(c, data[..|data| - 1]), data[|data| - 1] as bv16), 8)
  }

  // ----- the bit step is linear, invertible and keeps parity

  lemma AdvanceLinear(a: bv16, b: bv16)
    ensures Advance(Xor(a, b)) == Xor(Advance(a), Advance(b))
  {
    hide Xor;
    Halve(a, b);
    var u, v := a >> 1, b >> 1;
    Assoc(u, v, FEEDBACK);
    Interchange(u, FEEDBACK, v, FEEDBACK);
    Interchange(u, FEEDBACK, v, 0);
    Zero(FEEDBACK);
    Zero(v);
    Zero(Xor(u, v));
  }

  lemma {:induction false} IterateLinear(a: bv16, b: bv16, n: nat)
    ensures Iterate(Xor(a, b), n) == Xor(Iterate(a, n), Iterate(b, n))
  {
    hide Xor, Advance;
    if n > 0 {
      IterateLinear(a, b, n - 1);
      AdvanceLinear(Iterate(a, n - 1), Iterate(b, n - 1));
    }
  }

  lemma {:induction false} IterateAdd(s: bv16, m: nat, n: nat)
    ensures Iterate(Iterate(s, m), n) == Iterate(s, m + n)
  {
    hide Advance;
    if n > 0 {
      IterateAdd(s, m, n - 1);
    }
  }

  lemma AdvanceInjective(a: bv16, b: bv16)
    requires Advance(a) == Advance(b)
    ensures a == b
  {}

  lemma {:induction false} IterateInjective(a: bv16, b: bv16, n: nat)
    requires Iterate(a, n) == Iterate(b, n)
    ensures a == b
  {
    hide Advance;
    if n > 0 {
      AdvanceInjective(Iterate(a, n - 1), Iterate(b, n - 1));
      IterateInjective(a, b, n - 1);
    }
  }

  lemma {:induction false} IterateZero(n: nat)
    ensures Iterate(0, n) == 0
  {
    if n > 0 {
      IterateZero(n - 1);
    }
  }

  lemma FeedbackIsOdd()
    ensures Odd(FEEDBACK)
  {
    hide Odd;
    ZeroIsEven();
    OddStep(0xA001); OddStep(0x5000); OddStep(0x2800); OddStep(0x1400); OddStep(0xA00); OddStep(0x500);
    OddStep(0x280); OddStep(0x140); OddStep(0xA0); OddStep(0x50); OddStep(0x28); OddStep(0x14); OddStep(0xA);
    OddStep(5); OddStep(2); OddStep(1);
  }

  lemma AdvanceKeepsParity(s: bv16)
    ensures Odd(Advance(s)) == Odd(s)
  {
    hide Odd, Xor;
    OddStep(s);
    OddLinear(s >> 1, FEEDBACK);
    FeedbackIsOdd();
  }

  lemma {:induction false} IterateKeepsParity(s: bv16, n: nat)
    ensures Odd(Iterate(s, n)) == Odd(s)
  {
    hide Odd, Advance;
    if n > 0 {
      IterateKeepsParity(s, n - 1);
      AdvanceKeepsParity(Iterate(s, n - 1));
    }
  }

  lemma EightSteps(s: bv16)
    ensures Iterate(s, 8) == Advance(Advance(Advance(Advance(Advance(Advance(Advance(Advance(s))))))))
  {
    hide Advance;
    assert Iterate(s, 1) == Advance(Iterate(s, 0));
    assert Iterate(s, 3) == Advance(Advance(Iterate(s, 1)));
    assert Iterate(s, 5) == Advance(Advance(Iterate(s, 3)));
    assert Iterate(s, 7) == Advance(Advance(Iterate(s, 5)));
  }

  lemma HighByteOnlyShifts(s: bv16)
    requires s & 0xFF == 0
    ensures Iterate(s, 8) == s >> 8
  {
    EightSteps(s);
  }

  // ----- the lookup table

  /** Entry i of the reference table: i times x^7 + x^6, and a term for odd parity. */
  function TableEntry(i: bv16): bv16 {
    Xor(Xor(i << 7, i << 6), if Odd(i) then ODD_PARITY_TERM else 0)
  }

  function Table(): (table: seq<bv16>)
    ensures |table| == TABLE_SIZE
  {
    seq(TABLE_SIZE, i requires 0 <= i < TABLE_SIZE => TableEntry(i as bv16))
  }

  method BuildTable() returns (table: seq<bv16>)
    ensures table == Table()
  {
    hide Table, Ones, TableEntry;
    table := [];
    for i := 0 to TABLE_SIZE
      invariant |table| == i && forall j :: 0 <= j < i ==> table[j] == Table()[j]
    {
      var entry := i as bv16;
      var parity := Ones(entry) % 2;
      EntryByParity(entry);
      EntryAt(i);
      table := table + [Xor(Xor(entry << 7, entry << 6), if parity == 1 then ODD_PARITY_TERM else 0)];
    }
  }

  lemma EntryByParity(i: bv16)
    ensures TableEntry(i) == Xor(Xor(i << 7, i << 6), if Ones(i) % 2 == 1 then ODD_PARITY_TERM else 0)
  {
    hide Xor, Ones;
  }

  lemma EntryAt(i: nat)
    requires i < TABLE_SIZE
    ensures Table()[i] == TableEntry(i as bv16)
  {
    hide TableEntry;
  }

  lemma TableEntryLinear(a: bv16, b: bv16)
    ensures TableEntry(Xor(a, b)) == Xor(TableEntry(a), TableEntry(b))
  {
    hide Xor, Odd;
    OddLinear(a, b);
    ShiftLeftLinear(a, b);
    var pa: bv16 := if Odd(a) then ODD_PARITY_TERM else 0;
    var pb: bv16 := if Odd(b) then ODD_PARITY_TERM else 0;
    Zero(ODD_PARITY_TERM);
    Zero(0);
    Interchange(a << 7, b << 7, a << 6, b << 6);
    Interchange(Xor(a << 7, a << 6), Xor(b << 7, b << 6), pa, pb);
  }

  lemma ShiftLeftLinear(a: bv16, b: bv16)
    ensures Xor(a, b) << 7 == Xor(a << 7, b << 7)
    ensures Xor(a, b) << 6 == Xor(a << 6, b << 6)
  {}

  /** The table entry and the eight bit steps of a byte with a single one in it. */
  lemma OneBitEntry(i: bv16)
    requires i == 1 || i == 2 || i == 4 || i == 8 || i == 16 || i == 32 || i == 64 || i == 128
    ensures TableEntry(i) == Iterate(i, 8)
  {}

  /** The parity formula gives exactly eight bit steps of every byte. */
  lemma {:induction false} TableEntryIsEightSteps(i: bv16)
    requires i < 256
    ensures TableEntry(i) == Iterate(i, 8)
    decreases i
  {
    hide TableEntry, Iterate, Xor;
    if i == 0 {
      IterateZero(8);
      ZeroEntry();
    } else {
      var top, rest := TopBit(i);
      OneBitEntry(top);
      TableEntryIsEightSteps(rest);
      TableEntryLinear(rest, top);
      IterateLinear(rest, top, 8);
    }
  }

  lemma ZeroEntry()
    ensures TableEntry(0) == 0
  {}

  lemma TopBit(i: bv16) returns (top: bv16, rest: bv16)
    requires 0 < i < 256
    ensures top == 1 || top == 2 || top == 4 || top == 8 || top == 16 || top == 32 || top == 64 || top == 128
    ensures rest < i && i == Xor(rest, top)
  {
    top := if i >= 128 then 128 else if i >= 64 then 64 else if i >= 32 then 32 else if i >= 16 then 16
           else if i >= 8 then 8 else if i >= 4 then 4 else if i >= 2 then 2 else 1;
    rest := i ^ top;
  }

  // ----- the two ways of computing the CRC

  lemma SplitRegister(c: bv16, b: bv8) returns (low: bv16, high: bv16)
    ensures low == Xor(b as bv16, c) & 0xFF && Xor(c, b as bv16) == Xor(low, high)
    ensures high & 0xFF == 0 && high >> 8 == c >> 8
  {
    var x := c ^ (b as bv16);
    low, high := x & 0xFF, x & 0xFF00;
  }

  /** The register after one more byte, by table lookup. */
  function TableStepped(c: bv16, b: bv8): bv16 {
    var index := Xor(b as bv16, c) & 0xFF;
    Xor(Table()[index as int], c >> 8)
  }

  /** One table lookup is eight bit steps with the byte added in. */
  lemma TableStep(c: bv16, b: bv8)
    ensures TableStepped(c, b) == Iterate(Xor(c, b as bv16), 8)
  {
    hide Table, TableEntry, Iterate, Xor;
    LowByte(Xor(b as bv16, c));
    TableLookup(Xor(b as bv16, c) & 0xFF);
    var low, high := SplitRegister(c, b);
    HighByteOnlyShifts(high);
    TableEntryIsEightSteps(low);
    IterateLinear(low, high, 8);
  }

  lemma LowByte(i: bv16)
    ensures i & 0xFF < 256 && 0 <= (i & 0xFF) as int < TABLE_SIZE
  {}

  lemma TableLookup(i: bv16)
    requires i < 256
    ensures i as int < TABLE_SIZE && Table()[i as int] == TableEntry(i)
  {}

  lemma CrcOfNothing(c: bv16)
    ensures Crc(c, []) == c
  {}

  lemma CrcSnoc(c: bv16, data: Bytes, b: bv8)
    ensures Crc(c, data + [b]) == Iterate(Xor(Crc(c, data), b as bv16), 8)
  {}

  /** The client's CRC: one table lookup per byte. */
  method Crc16(data: Bytes) returns (crc: bv16)
    ensures crc == Crc(0, data)
  {
    hide Xor, Iterate, TableStepped;
    crc := 0;
    CrcOfNothing(0);
    for i := 0 to |data|
      invariant crc == Crc(0, data[..i])
    {
      assert data[..i + 1] == data[..i] + [data[i]];
      CrcSnoc(0, data[..i], data[i]);
      TableStep(crc, data[i]);
      crc := TableStepped(crc, data[i]);
    }
    assert data[..|data|] == data;
  }

  /** The emulator's CRC: one bit at a time, no table. */
  method Crc16Bitwise(data: Bytes) returns (crc: bv16)
    ensures crc == Crc(0, data)
  {
    hide Xor;
    crc := 0;
    for i := 0 to |data|
      invariant crc == Crc(0, data[..i])
    {
      assert data[..i + 1] == data[..i] + [data[i]];
      CrcSnoc(0, data[..i], data[i]);
      crc := Xor(crc, data[i] as bv16);
      ghost var start := crc;
      for bit := 0 to 8
        invariant crc == Iterate(start, bit)
      {
        if crc & 1 == 1 {
          crc := Xor(crc >> 1, 0xA001);
        } else {
          crc := crc >> 1;
        }
      }
    }
    assert data[..|data|] == data;
  }

  // ----- the complemented CRC at the end of a frame

  /** A register as two bytes, low byte first. */
  function LittleEndian(w: bv16): (b: Bytes)
    ensures |b| == CRC_LEN
  {
    [(w & 0xFF) as bv8, (w >> 8) as bv8]
  }

  /** The complemented CRC that ends a frame. */
  function Check(data: Bytes): bv16 {
    !Crc(0, data)
  }

  function AppendCrc(data: Bytes): Bytes {
    data + LittleEndian(Check(data))
  }

  predicate IsValid(frame: Bytes) {
    Crc(0, frame) == RESIDUE
  }

  function Joined(lo: bv8, hi: bv8): bv16 {
    (lo as bv16) | ((hi as bv16) << 8)
  }

  lemma JoinedBytes(lo: bv8, hi: bv8)
    ensures Joined(lo, hi) == Xor(lo as bv16, (hi as bv16) << 8)
    ensures ((hi as bv16) << 8) & 0xFF == 0 && ((hi as bv16) << 8) >> 8 == hi as bv16
  {}

  lemma JoinedIsLittleEndian(lo: bv8, hi: bv8, w: bv16)
    ensures Joined(lo, hi) == w <==> [lo, hi] == LittleEndian(w)
  {
    assert Joined((w & 0xFF) as bv8, (w >> 8) as bv8) == w;
    assert (Joined(lo, hi) & 0xFF) as bv8 == lo && (Joined(lo, hi) >> 8) as bv8 == hi;
  }

  /** Two bytes are sixteen steps of the register with the little endian word they make added in. */
  lemma TwoBytesAreOneWord(c: bv16, data: Bytes, lo: bv8, hi: bv8)
    ensures Crc(c, data + [lo, hi]) == Iterate(Xor(Crc(c, data), Joined(lo, hi)), 16)
  {
    hide Xor, Iterate, Joined;
    var r, l, h := Crc(c, data), lo as bv16, (hi as bv16) << 8;
    assert data + [lo, hi] == data + [lo] + [hi];
    CrcSnoc(c, data, lo);
    CrcSnoc(c, data + [lo], hi);
    JoinedBytes(lo, hi);
    HighByteOnlyShifts(h);
    IterateLinear(Xor(r, l), h, 8);
    Assoc(r, l, h);
    IterateAdd(Xor(Xor(r, l), h), 8, 8);
  }

  lemma ResidueMeansAllOnes(w: bv16)
    ensures Iterate(w, 16) == RESIDUE <==> w == 0xFFFF
  {
    hide Iterate;
    AllOnesGiveResidue();
    if Iterate(w, 16) == RESIDUE {
      IterateInjective(w, 0xFFFF, 16);
    }
  }

  lemma AllOnesGiveResidue()
    ensures Iterate(0xFFFF, 16) == RESIDUE
  {
    IterateAdd(0xFFFF, 8, 8);
    EightSteps(0xFFFF);
    EightSteps(Iterate(0xFFFF, 8));
  }

  lemma SumIsAllOnes(c: bv16, w: bv16)
    ensures Xor(c, w) == 0xFFFF <==> w == !c
  {
    hide Xor;
    Solve(c, w, 0xFFFF);
    Complement(c);
  }

  lemma Complement(c: bv16)
    ensures Xor(c, 0xFFFF) == !c
  {}

  /** The client's residue check and the emulator's stored-complement check accept the same frames. */
  lemma ValidityChecksAgree(frame: Bytes)
    requires |frame| >= CRC_LEN
    ensures IsValid(frame) <==> frame[|frame| - CRC_LEN..] == LittleEndian(Check(frame[..|frame| - CRC_LEN]))
  {
    hide Xor, Iterate, Crc, Joined, LittleEndian;
    var rest := frame[..|frame| - CRC_LEN];
    var lo, hi := frame[|frame| - 2], frame[|frame| - 1];
    assert frame == rest + [lo, hi] && frame[|frame| - CRC_LEN..] == [lo, hi];
    var c := Crc(0, rest);
    TwoBytesAreOneWord(0, rest, lo, hi);
    ResidueMeansAllOnes(Xor(c, Joined(lo, hi)));
    SumIsAllOnes(c, Joined(lo, hi));
    JoinedIsLittleEndian(lo, hi, Check(rest));
  }

  lemma TailOf(data: Bytes, tail: Bytes)
    requires |tail| == CRC_LEN
    ensures |data + tail| >= CRC_LEN
    ensures (data + tail)[..|data + tail| - CRC_LEN] == data && (data + tail)[|data + tail| - CRC_LEN..] == tail
  {}

  lemma AppendedCrcIsValid(data: Bytes)
    ensures IsValid(AppendCrc(data))
  {
    hide Check, IsValid, LittleEndian;
    var tail := LittleEndian(Check(data));
    TailOf(data, tail);
    ValidityChecksAgree(data + tail);
  }
}
