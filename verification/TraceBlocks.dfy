/** Traces as the emulator builds them, from blocks: their samples, their encoding, and what damage does. */
module TraceBlocks {
  import opened Bytes
  import opened Results
  import opened TraceCodec

  const MAX_RUN := 0x8000

  datatype Block =
    | Run(value: int, count: nat)
    | Deltas(first: int, deltas: seq<int>)
    | Raw(values: seq<int>)

  /** What the format can hold: a lead word says the block's kind by its range, and deltas are five bits. */
  predicate Encodable(b: Block) {
    match b
    case Run(_, count) => 1 <= count <= MAX_RUN
    case Deltas(_, deltas) => |deltas| < DELTA_BLOCK && forall d <- deltas :: -16 <= d <= DELTA_MAX
    case Raw(values) => |values| < DELTA_BLOCK
  }

  function Sum(deltas: seq<int>, k: nat): int
    requires k <= |deltas|
  {
    if k == 0 then 0 else Sum(deltas, k - 1) + deltas[k - 1]
  }

  function Wrapped(values: seq<int>): (s: seq<word>)
    ensures |s| == |values|
  {
    seq(|values|, i requires 0 <= i < |values| => Wrap(values[i]))
  }

  /** A first value, then one lower by each delta in turn. */
  function Falling(first: int, deltas: seq<int>): (s: seq<word>)
    ensures |s| == |deltas| + 1
  {
    seq(|deltas| + 1, k requires 0 <= k <= |deltas| => Wrap(first - Sum(deltas, k)))
  }

  function BlockSamples(b: Block): seq<word> {
    match b
    case Run(value, count) => seq(count, _ => Wrap(value))
    case Deltas(first, deltas) => Falling(first, deltas)
    case Raw(values) => Wrapped(values)
  }

  /** The i-th delta, with zeros to pad the last word. */
  function DeltaAt(deltas: seq<int>, i: nat): int {
    if i < |deltas| then deltas[i] else 0
  }

  function Pack(deltas: seq<int>, j: nat): word {
    DeltaAt(deltas, 3 * j) % 32 * 1024 + DeltaAt(deltas, 3 * j + 1) % 32 * 32 + DeltaAt(deltas, 3 * j + 2) % 32
  }

  function PackedDeltas(deltas: seq<int>): (w: seq<word>)
    ensures |w| == PackedLen(|deltas|)
  {
    seq(PackedLen(|deltas|), j requires 0 <= j < PackedLen(|deltas|) => Pack(deltas, j))
  }

  function BlockWords(b: Block): seq<word>
    requires Encodable(b)
  {
    match b
    case Run(value, count) => [WORD_RANGE - count, Wrap(value)]
    case Deltas(first, deltas) => [DELTA_BLOCK + |deltas|, Wrap(first)] + PackedDeltas(deltas)
    case Raw(values) => [|values|] + Wrapped(values)
  }

  function Samples(blocks: seq<Block>): seq<word> {
    if blocks == [] then [] else BlockSamples(blocks[0]) + Samples(blocks[1..])
  }

  ghost predicate AllEncodable(blocks: seq<Block>) {
    forall b <- blocks :: Encodable(b)
  }

  function Words(blocks: seq<Block>): seq<word>
    requires AllEncodable(blocks)
  {
    if blocks == [] then [] else BlockWords(blocks[0]) + Words(blocks[1..])
  }

  // ----- the emulator's own loops

  lemma Associated(a: seq<word>, b: seq<word>, c: seq<word>)
    ensures (a + b) + c == a + (b + c)
  {}

  lemma SamplesFrom(blocks: seq<Block>, i: nat)
    requires i < |blocks|
    ensures Samples(blocks[i..]) == BlockSamples(blocks[i]) + Samples(blocks[i + 1..])
  {}

  method BlocksToSamples(blocks: seq<Block>) returns (samples: seq<word>)
    ensures samples == Samples(blocks)
  {
    hide BlockSamples;
    samples := [];
    assert blocks[0..] == blocks && [] + Samples(blocks) == Samples(blocks);
    for i := 0 to |blocks|
      invariant samples + Samples(blocks[i..]) == Samples(blocks)
    {
      SamplesFrom(blocks, i);
      Associated(samples, BlockSamples(blocks[i]), Samples(blocks[i + 1..]));
      samples := AddSamples(samples, blocks[i]);
    }
    assert Samples(blocks[|blocks|..]) == [];
  }

  method AddSamples(before: seq<word>, block: Block) returns (samples: seq<word>)
    ensures samples == before + BlockSamples(block)
  {
    hide Wrap, Sum, Wrapped;
    match block {
      case Run(value, count) =>
        samples := before + seq(count, _ => Wrap(value));
      case Deltas(first, deltas) =>
        var value := first;
        samples := before + [Wrap(value)];
        NoSum(deltas);
        for k := 0 to |deltas|
          invariant value == first - Sum(deltas, k)
          invariant samples == before + Falling(first, deltas)[..k + 1]
        {
          SumStep(deltas, k);
          value := value - deltas[k];
          samples := samples + [Wrap(value)];
        }
      case Raw(values) =>
        samples := before + Wrapped(values);
    }
  }

  lemma NoSum(deltas: seq<int>)
    ensures Sum(deltas, 0) == 0
  {}

  lemma SumStep(deltas: seq<int>, k: nat)
    requires k < |deltas|
    ensures Sum(deltas, k + 1) == Sum(deltas, k) + deltas[k]
  {}

  lemma WordsFrom(blocks: seq<Block>, i: nat)
    requires AllEncodable(blocks) && i < |blocks|
    ensures Words(blocks[i..]) == BlockWords(blocks[i]) + Words(blocks[i + 1..])
  {}

  method BlocksToWords(blocks: seq<Block>) returns (words: seq<word>)
    requires AllEncodable(blocks)
    ensures words == Words(blocks)
  {
    hide BlockWords, Encodable;
    words := [];
    assert blocks[0..] == blocks && [] + Words(blocks) == Words(blocks);
    for i := 0 to |blocks|
      invariant words + Words(blocks[i..]) == Words(blocks)
    {
      WordsFrom(blocks, i);
      Associated(words, BlockWords(blocks[i]), Words(blocks[i + 1..]));
      words := AddWords(words, blocks[i]);
    }
    assert Words(blocks[|blocks|..]) == [];
  }

  method AddWords(before: seq<word>, block: Block) returns (words: seq<word>)
    requires Encodable(block)
    ensures words == before + BlockWords(block)
  {
    hide Wrap, Wrapped, Pack;
    match block {
      case Run(value, count) =>
        words := before + [WORD_RANGE - count, Wrap(value)];
      case Deltas(first, deltas) =>
        words := before + [DELTA_BLOCK + |deltas|, Wrap(first)];
        for j := 0 to PackedLen(|deltas|)
          invariant words == before + [DELTA_BLOCK + |deltas|, Wrap(first)] + PackedDeltas(deltas)[..j]
        {
          words := words + [Pack(deltas, j)];
        }
      case Raw(values) =>
        words := before + ([|values|] + Wrapped(values));
    }
  }

  // ----- decoding one encoded block

  lemma PackedDelta(deltas: seq<int>, k: nat)
    requires k < |deltas| && forall d <- deltas :: -16 <= d <= DELTA_MAX
    ensures Delta(PackedDeltas(deltas)[k / 3], k % 3) == deltas[k]
  {
    var j := k / 3;
    var a, b, c := DeltaAt(deltas, 3 * j) % 32, DeltaAt(deltas, 3 * j + 1) % 32, DeltaAt(deltas, 3 * j + 2) % 32;
    Unpacked(a, b, c);
    assert deltas[k] in deltas;
  }

  lemma Unpacked(a: nat, b: nat, c: nat)
    requires a < 64 && b < 32 && c < 32
    ensures var w := a * 1024 + b * 32 + c;
      (a < 32 ==> w < 0x8000) && w / 1024 == a && w / 32 % 32 == b && w % 32 == c
  {}

  lemma {:induction false} PackedSum(deltas: seq<int>, k: nat)
    requires k <= |deltas| && forall d <- deltas :: -16 <= d <= DELTA_MAX
    ensures DeltaSum(PackedDeltas(deltas), k) == Sum(deltas, k)
  {
    hide Delta, PackedDeltas;
    if k > 0 {
      PackedSum(deltas, k - 1);
      PackedDelta(deltas, k - 1);
    }
  }

  lemma WrapWrapped(first: int, sum: int)
    ensures Wrap(Wrap(first) - sum) == Wrap(first - sum)
  {}

  lemma DecodedDelta(first: int, deltas: seq<int>, k: nat)
    requires k <= |deltas| && forall d <- deltas :: -16 <= d <= DELTA_MAX
    ensures Wrap(Wrap(first) - DeltaSum(PackedDeltas(deltas), k)) == Wrap(first - Sum(deltas, k))
  {
    hide Wrap, DeltaSum, PackedDeltas, Sum;
    PackedSum(deltas, k);
    WrapWrapped(first, Sum(deltas, k));
  }

  lemma DecodedDeltas(first: int, deltas: seq<int>, length: nat)
    requires Encodable(Deltas(first, deltas)) && length <= |deltas| + 1
    ensures DeltaSamples(Wrap(first), PackedDeltas(deltas), length) == Falling(first, deltas)[..length]
  {
    hide Wrap, DeltaSum, PackedDeltas, Sum;
    forall k | 0 <= k < length
      ensures DeltaSamples(Wrap(first), PackedDeltas(deltas), length)[k] == Falling(first, deltas)[k]
    {
      DecodedDelta(first, deltas, k);
    }
  }

  lemma PackedIsClear(deltas: seq<int>)
    requires forall d <- deltas :: -16 <= d <= DELTA_MAX
    ensures FirstSet(PackedDeltas(deltas)) == |PackedDeltas(deltas)|
  {}

  /**
   One encoded block in front of anything. A run or a raw block that does not fit ends the trace there and then, a delta
   block only if there is no room at all; otherwise the block expands to its samples, as many as there is room for.
   */
  lemma ExpandBlock(b: Block, tail: seq<word>, room: nat, done: nat)
    requires Encodable(b)
    ensures var e := BlockWords(b) + tail;
      var stops := match b
        case Run(_, count) => count > room
        case Deltas(_, _) => room == 0
        case Raw(values) => |values| > room;
      if stops then Expand(e, room) == Some([]) && FirstNote(e, room, done) == None
      else
        var k := Min(|BlockSamples(b)|, room);
        && Expand(e, room) == Prepend(BlockSamples(b)[..k], Expand(tail, room - k))
        && FirstNote(e, room, done) == FirstNote(tail, room - k, done + k)
  {
    hide Expand, FirstNote, PackedDeltas, Wrapped, Falling, Wrap;
    match b
    case Run(value, count) => ExpandRun(value, count, tail, room, done);
    case Deltas(first, deltas) => ExpandDeltas(first, deltas, tail, room, done);
    case Raw(values) => ExpandRaw(values, tail, room, done);
  }

  lemma ExpandRun(value: int, count: nat, tail: seq<word>, room: nat, done: nat)
    requires 1 <= count <= MAX_RUN
    ensures var e := [WORD_RANGE - count, Wrap(value)] + tail;
      if count > room then Expand(e, room) == Some([]) && FirstNote(e, room, done) == None
      else
        && Expand(e, room) == Prepend(seq(count, _ => Wrap(value))[..count], Expand(tail, room - count))
        && FirstNote(e, room, done) == FirstNote(tail, room - count, done + count)
  {
    hide Wrap;
    var e: seq<word> := [WORD_RANGE - count, Wrap(value)] + tail;
    assert e[2..] == tail;
    assert e[0] == WORD_RANGE - count && e[1] == Wrap(value);
    var run := seq(count, _ => Wrap(value));
    assert seq(count, _ => e[1]) == run == run[..count];
  }

  lemma ExpandRaw(values: seq<int>, tail: seq<word>, room: nat, done: nat)
    requires |values| < DELTA_BLOCK
    ensures var e := [|values|] + Wrapped(values) + tail;
      if |values| > room then Expand(e, room) == Some([]) && FirstNote(e, room, done) == None
      else
        && Expand(e, room) == Prepend(Wrapped(values)[..|values|], Expand(tail, room - |values|))
        && FirstNote(e, room, done) == FirstNote(tail, room - |values|, done + |values|)
  {
    hide Wrapped;
    var n := |values|;
    var e: seq<word> := [n] + Wrapped(values) + tail;
    assert e[0] == n && e[1 + n..] == tail && e[1..1 + n] == Wrapped(values) == Wrapped(values)[..n];
  }

  lemma ExpandDeltas(first: int, deltas: seq<int>, tail: seq<word>, room: nat, done: nat)
    requires Encodable(Deltas(first, deltas))
    ensures var e := [DELTA_BLOCK + |deltas|, Wrap(first)] + PackedDeltas(deltas) + tail;
      if room == 0 then Expand(e, room) == Some([]) && FirstNote(e, room, done) == None
      else
        var k := Min(|deltas| + 1, room);
        && Expand(e, room) == Prepend(Falling(first, deltas)[..k], Expand(tail, room - k))
        && FirstNote(e, room, done) == FirstNote(tail, room - k, done + k)
  {
    hide Wrap, Falling, DeltaSamples, PackedDeltas, Expand, FirstNote, FirstSet;
    ExpandPacked(DELTA_BLOCK + |deltas|, Wrap(first), PackedDeltas(deltas), tail, room, done);
    PackedIsClear(deltas);
    DecodedDeltas(first, deltas, Min(|deltas| + 1, room));
  }

  // ----- the codec's laws

  /** Encoded blocks in front of anything, with room for all their samples. */
  lemma {:induction false} ExpandBlocks(blocks: seq<Block>, tail: seq<word>, room: nat, done: nat)
    requires AllEncodable(blocks) && |Samples(blocks)| <= room
    ensures var n := |Samples(blocks)|;
      && Expand(Words(blocks) + tail, room) == Prepend(Samples(blocks), Expand(tail, room - n))
      && FirstNote(Words(blocks) + tail, room, done) == FirstNote(tail, room - n, done + n)
  {
    hide Expand, FirstNote, BlockWords, BlockSamples;
    if blocks == [] {
      assert Words(blocks) + tail == tail;
      PrependNothing(Expand(tail, room));
    } else {
      var b, more := blocks[0], blocks[1..];
      var out := BlockSamples(b);
      assert Words(blocks) + tail == BlockWords(b) + (Words(more) + tail);
      RoomIsEnough(b, room);
      ExpandBlock(b, Words(more) + tail, room, done);
      assert out[..|out|] == out;
      ExpandBlocks(more, tail, room - |out|, done + |out|);
      PrependTwice(out, Samples(more), Expand(tail, room - |Samples(blocks)|));
    }
  }

  lemma RoomIsEnough(b: Block, room: nat)
    requires |BlockSamples(b)| <= room
    ensures match b
      case Run(_, count) => count <= room
      case Deltas(_, _) => 0 < room
      case Raw(values) => |values| <= room
  {}

  /** Decoding what the emulator encoded gives back its samples, and says nothing suspicious. */
  lemma RoundTrip(blocks: seq<Block>)
    requires AllEncodable(blocks)
    ensures Expand(Words(blocks), |Samples(blocks)|) == Some(Samples(blocks))
    ensures FirstNote(Words(blocks), |Samples(blocks)|, 0) == None
  {
    ExpandNothing();
    hide Samples, Words, Expand, FirstNote;
    ExpandBlocks(blocks, [], |Samples(blocks)|, 0);
    assert Words(blocks) + [] == Words(blocks);
    assert Samples(blocks) + [] == Samples(blocks);
  }

  lemma ExpandNothing()
    ensures forall room: nat :: Expand([], room) == Some([])
    ensures forall room: nat, done: nat :: FirstNote([], room, done) == None
  {}

  // ----- any words at all, a block at a time

  /** How many words a block takes, by its lead word. */
  function BlockLen(lead: word): (n: nat)
    ensures n > 0
  {
    if lead >= NEGATIVE_FROM then 2 else if lead >= DELTA_BLOCK then 2 + PackedLen(lead - DELTA_BLOCK) else 1 + lead
  }

  /** How many samples a block stands for, by its lead word. */
  function BlockCount(lead: word): nat {
    if lead >= NEGATIVE_FROM then WORD_RANGE - lead
    else if lead >= DELTA_BLOCK then lead - DELTA_BLOCK + 1 else lead
  }

  /** Encoded words that end where a block does. */
  predicate WholeBlocks(e: seq<word>) {
    e == [] || (BlockLen(e[0]) <= |e| && WholeBlocks(e[BlockLen(e[0])..]))
  }

  function CountIn(e: seq<word>): nat
    requires WholeBlocks(e)
  {
    if e == [] then 0 else BlockCount(e[0]) + CountIn(e[BlockLen(e[0])..])
  }

  /** Whether the decoder gives up at a block for want of room: a delta block it takes in part. */
  predicate GivesUp(lead: word, room: nat) {
    if DELTA_BLOCK <= lead < NEGATIVE_FROM then room == 0 else BlockCount(lead) > room
  }

  /** The samples the decoder takes from one block, whatever follows it. */
  function Taken(block: seq<word>, room: nat): (out: seq<word>)
    requires block != [] && |block| == BlockLen(block[0]) && !GivesUp(block[0], room)
    ensures |out| == Min(BlockCount(block[0]), room)
  {
    if block[0] >= NEGATIVE_FROM then seq(WORD_RANGE - block[0], _ => block[1])
    else if block[0] >= DELTA_BLOCK then DeltaSamples(block[1], block[2..], Min(BlockCount(block[0]), room))
    else block[1..]
  }

  lemma ExpandOne(block: seq<word>, tail: seq<word>, room: nat)
    requires block != [] && |block| == BlockLen(block[0])
    ensures Expand(block + tail, room) ==
            if GivesUp(block[0], room) then Some([])
            else Prepend(Taken(block, room), Expand(tail, room - |Taken(block, room)|))
  {
    hide DeltaSamples;
    var e, n := block + tail, |block|;
    assert e[0] == block[0] && e[n..] == tail && e[..n] == block;
    if block[0] >= NEGATIVE_FROM {
      assert e[1] == block[1];
    } else if block[0] >= DELTA_BLOCK {
      assert e[1] == block[1] && e[2..n] == block[2..];
    } else {
      assert e[1..n] == block[1..];
    }
  }

  /** A block whose words are not all there ends the decoding, if it does not raise. */
  lemma ExpandCutBlock(e: seq<word>, room: nat)
    requires e != [] && |e| < BlockLen(e[0])
    ensures Expand(e, room) == None || Expand(e, room) == Some([])
  {
    hide DeltaSamples, Prepend, PackedLen;
  }

  ghost predicate WithinRoom(decoded: Option<seq<word>>, room: int) {
    decoded.Some? ==> |decoded.value| <= room
  }

  lemma WithinRoomAfter(out: seq<word>, rest: Option<seq<word>>, room: nat)
    requires |out| <= room && WithinRoom(rest, room - |out|)
    ensures WithinRoom(Prepend(out, rest), room)
  {}

  /** The first block of any words, if it is all there. */
  lemma ExpandFirst(e: seq<word>, room: nat)
    requires e != [] && |e| >= BlockLen(e[0])
    ensures var n := BlockLen(e[0]);
      Expand(e, room) == if GivesUp(e[0], room) then Some([])
                         else Prepend(Taken(e[..n], room), Expand(e[n..], room - |Taken(e[..n], room)|))
  {
    hide Expand, BlockLen, BlockCount, GivesUp, Taken, Prepend;
    var n := BlockLen(e[0]);
    assert e[..n] + e[n..] == e;
    ExpandOne(e[..n], e[n..], room);
  }

  /** The decoder never gives more samples than asked for. */
  lemma {:induction false} NeverMoreThanAsked(e: seq<word>, room: nat)
    ensures WithinRoom(Expand(e, room), room)
    decreases |e|
  {
    if e != [] {
      hide Expand, BlockLen, BlockCount, GivesUp, Taken, Prepend;
      var n := BlockLen(e[0]);
      if |e| < n {
        ExpandCutBlock(e, room);
      } else {
        ExpandFirst(e, room);
        if !GivesUp(e[0], room) {
          var out := Taken(e[..n], room);
          NeverMoreThanAsked(e[n..], room - |out|);
          WithinRoomAfter(out, Expand(e[n..], room - |out|), room);
        }
      }
    }
  }

  /** Whole blocks that fit decode to as many samples as they stand for, in front of whatever the rest decodes to. */
  lemma {:induction false} ExpandWhole(before: seq<word>, tail: seq<word>, room: nat) returns (out: seq<word>)
    requires WholeBlocks(before) && CountIn(before) < room
    ensures |out| == CountIn(before)
    ensures Expand(before + tail, room) == Prepend(out, Expand(tail, room - |out|))
    decreases |before|
  {
    hide Expand, BlockCount, GivesUp, Taken, Prepend;
    if before == [] {
      out := [];
      assert before + tail == tail;
      PrependNothing(Expand(tail, room));
    } else {
      var n := BlockLen(before[0]);
      var block, more := before[..n], before[n..];
      assert before + tail == block + (more + tail);
      FitsMeansGoesOn(block[0], room);
      ExpandOne(block, more + tail, room);
      var first := Taken(block, room);
      var rest := ExpandWhole(more, tail, room - |first|);
      PrependTwice(first, rest, Expand(tail, room - |first| - |rest|));
      out := first + rest;
    }
  }

  lemma FitsMeansGoesOn(lead: word, room: nat)
    requires BlockCount(lead) < room
    ensures !GivesUp(lead, room)
  {}

  /** Words that end inside a block raise, unless the block is a raw one there is no room for anyway. */
  lemma CutBlockExactly(before: seq<word>, cut: seq<word>, room: nat)
    requires WholeBlocks(before) && CountIn(before) < room
    requires cut != [] && |cut| < BlockLen(cut[0])
    ensures Expand(before + cut, room).None? <==> cut[0] >= 0x4000 || cut[0] <= room - CountIn(before)
  {
    var out := ExpandWhole(before, cut, room);
    hide WholeBlocks, CountIn;
    assert Expand(before + cut, room).None? <==> Expand(cut, room - |out|).None?;
  }

  /** One decoded trace begins with another. */
  ghost predicate Begins(shorter: Option<seq<word>>, longer: Option<seq<word>>) {
    shorter.Some? && longer.Some? && shorter.value <= longer.value
  }

  lemma BeginsAfter(out: seq<word>, shorter: Option<seq<word>>, longer: Option<seq<word>>)
    requires Begins(shorter, longer)
    ensures Begins(Prepend(out, shorter), Prepend(out, longer))
  {}

  /** Asking for fewer samples gives a prefix of what asking for more gives. */
  lemma {:induction false} LimitIsMonotone(e: seq<word>, fewer: nat, more: nat)
    requires fewer <= more && Expand(e, more).Some?
    ensures Begins(Expand(e, fewer), Expand(e, more))
    decreases |e|
  {
    hide DeltaSamples, Begins, Prepend;
    if e == [] || e[0] >= NEGATIVE_FROM {
      FewerOfRun(e, fewer, more);
    } else if e[0] >= DELTA_BLOCK {
      FewerOfDeltas(e, fewer, more);
    } else {
      FewerOfRaw(e, fewer, more);
    }
  }

  lemma {:induction false} FewerOfRun(e: seq<word>, fewer: nat, more: nat)
    requires fewer <= more && Expand(e, more).Some? && (e == [] || e[0] >= NEGATIVE_FROM)
    ensures Begins(Expand(e, fewer), Expand(e, more))
    decreases |e|, 0
  {
    if e != [] && WORD_RANGE - e[0] <= fewer {
      var count := WORD_RANGE - e[0];
      LimitIsMonotone(e[2..], fewer - count, more - count);
      BeginsAfter(seq(count, _ => e[1]), Expand(e[2..], fewer - count), Expand(e[2..], more - count));
    }
  }

  lemma {:induction false} FewerOfRaw(e: seq<word>, fewer: nat, more: nat)
    requires fewer <= more && Expand(e, more).Some? && e != [] && e[0] < DELTA_BLOCK
    ensures Begins(Expand(e, fewer), Expand(e, more))
    decreases |e|, 0
  {
    if e[0] <= fewer {
      var end := 1 + e[0];
      LimitIsMonotone(e[end..], fewer - e[0], more - e[0]);
      BeginsAfter(e[1..end], Expand(e[end..], fewer - e[0]), Expand(e[end..], more - e[0]));
    }
  }

  lemma {:induction false} FewerOfDeltas(e: seq<word>, fewer: nat, more: nat)
    requires fewer <= more && Expand(e, more).Some? && e != [] && DELTA_BLOCK <= e[0] < NEGATIVE_FROM
    ensures Begins(Expand(e, fewer), Expand(e, more))
    decreases |e|, 0
  {
    hide DeltaSamples, Expand, FirstNote, FirstSet, Prepend;
    if fewer == 0 {
      NoRoomForDeltas(e, more);
    } else {
      var packed, rest := WholeDeltaBlock(e, more);
      var count := e[0] - DELTA_BLOCK;
      var a, b := Min(count + 1, fewer), Min(count + 1, more);
      ExpandPacked(e[0], e[1], packed, rest, fewer, 0);
      ExpandPacked(e[0], e[1], packed, rest, more, 0);
      PrependFails(DeltaSamples(e[1], packed, b));
      LimitIsMonotone(rest, fewer - a, more - b);
      if a < b {
        NothingMore(rest);
      }
      DeltasBegin(e[1], packed, a, b, Expand(rest, fewer - a), Expand(rest, more - b));
    }
  }

  lemma PrependFails(out: seq<word>)
    ensures Prepend(out, None) == None
  {}

  lemma NoRoomForDeltas(e: seq<word>, more: nat)
    requires Expand(e, more).Some? && e != [] && DELTA_BLOCK <= e[0] < NEGATIVE_FROM
    ensures Begins(Expand(e, 0), Expand(e, more))
  {}

  lemma NothingMore(e: seq<word>)
    ensures Expand(e, 0).Some? ==> Expand(e, 0) == Some([])
  {
    if Expand(e, 0).Some? {
      NeverMoreThanAsked(e, 0);
    }
  }

  /** A delta block that was decoded is all there. */
  lemma WholeDeltaBlock(e: seq<word>, room: nat) returns (packed: seq<word>, rest: seq<word>)
    requires 0 < room && Expand(e, room).Some? && e != [] && DELTA_BLOCK <= e[0] < NEGATIVE_FROM
    ensures |e| >= 2 && |packed| == PackedLen(e[0] - DELTA_BLOCK) && e == [e[0], e[1]] + packed + rest
    ensures |rest| < |e|
  {
    var end := 2 + PackedLen(e[0] - DELTA_BLOCK);
    packed, rest := e[2..end], e[end..];
  }

  lemma DeltasBegin(first: word, packed: seq<word>, a: nat, b: nat, shorter: Option<seq<word>>,
                    longer: Option<seq<word>>)
    requires a <= b <= DELTAS_PER_WORD * |packed| + 1 && Begins(shorter, longer)
    ensures a == b || shorter == Some([]) ==>
              Begins(Prepend(DeltaSamples(first, packed, a), shorter), Prepend(DeltaSamples(first, packed, b), longer))
  {}

  // ----- damage to the unused bit of a packed word

  /** The samples from `lo` up to `hi` lowered by `drop`, everything else as it was. */
  ghost predicate Lowered(s: seq<word>, t: seq<word>, lo: nat, hi: nat, drop: nat) {
    && |t| == |s|
    && forall i :: 0 <= i < |s| ==> t[i] == if lo <= i < hi then Wrap(s[i] - drop) else s[i]
  }

  function WithTopBit(packed: seq<word>, j: nat): (damaged: seq<word>)
    requires j < |packed| && packed[j] < NEGATIVE_FROM
    ensures |damaged| == |packed|
  {
    packed[j := packed[j] + NEGATIVE_FROM]
  }

  /** How much a set top bit lowers the samples that follow: not at all unless the first delta was negative. */
  function Lowering(packed: word): nat {
    if Delta(packed, 0) < 0 then DELTA_RANGE else 0
  }

  lemma TopBitChangesFirstDelta(packed: word, i: nat)
    requires packed < NEGATIVE_FROM && i < DELTAS_PER_WORD
    ensures Delta(packed + NEGATIVE_FROM, i) == Delta(packed, i) + if i == 0 then Lowering(packed) else 0
  {
    var a, b, c := packed / 1024, packed / 32 % 32, packed % 32;
    assert packed == a * 1024 + b * 32 + c;
    Unpacked(a + 32, b, c);
  }

  lemma {:induction false} TopBitChangesSum(packed: seq<word>, j: nat, k: nat)
    requires j < |packed| && packed[j] < NEGATIVE_FROM && k <= DELTAS_PER_WORD * |packed|
    ensures DeltaSum(WithTopBit(packed, j), k) == DeltaSum(packed, k) + if k > 3 * j then Lowering(packed[j]) else 0
  {
    hide Delta, Lowering;
    if k > 0 {
      TopBitChangesSum(packed, j, k - 1);
      if (k - 1) / 3 == j {
        TopBitChangesFirstDelta(packed[j], (k - 1) % 3);
      }
    }
  }

  lemma TopBitChangesSamples(first: word, packed: seq<word>, j: nat, length: nat)
    requires j < |packed| && packed[j] < NEGATIVE_FROM && length <= DELTAS_PER_WORD * |packed| + 1
    ensures Lowered(DeltaSamples(first, packed, length), DeltaSamples(first, WithTopBit(packed, j), length),
                    1 + 3 * j, length, Lowering(packed[j]))
  {
    hide Wrap, DeltaSum, Lowering, WithTopBit;
    var s, t := DeltaSamples(first, packed, length), DeltaSamples(first, WithTopBit(packed, j), length);
    forall i | 0 <= i < length
      ensures t[i] == if 1 + 3 * j <= i < length then Wrap(s[i] - Lowering(packed[j])) else s[i]
    {
      TopBitChangesSum(packed, j, i);
      WrapStep(first, DeltaSum(packed, i), Lowering(packed[j]));
    }
  }

  lemma LoweredThen(s: seq<word>, t: seq<word>, rest: seq<word>, lo: nat, hi: nat, wider: nat, drop: nat)
    requires Lowered(s, t, lo, hi, drop) && |s| <= hi <= wider && (|s| < wider ==> rest == [])
    ensures Lowered(s + rest, t + rest, lo, wider, drop)
  {}

  lemma LoweredAfter(front: seq<word>, s: seq<word>, t: seq<word>, lo: nat, hi: nat, drop: nat)
    requires Lowered(s, t, lo, hi, drop)
    ensures Lowered(front + s, front + t, |front| + lo, |front| + hi, drop)
  {}

  lemma LoweredNowhere(s: seq<word>, lo: nat, hi: nat, drop: nat)
    requires |s| <= lo
    ensures Lowered(s, s, lo, hi, drop)
  {}

  /** What a decoded trace and its damaged twin have to do with each other. */
  ghost predicate Contained(whole: Option<seq<word>>, damaged: Option<seq<word>>, lo: nat, hi: nat, drop: nat) {
    if whole.None? then damaged.None? else damaged.Some? && Lowered(whole.value, damaged.value, lo, hi, drop)
  }

  lemma UnusedBitInFirstBlock(lead: word, first: word, packed: seq<word>, j: nat, rest: seq<word>, room: nat)
    requires DELTA_BLOCK <= lead < NEGATIVE_FROM && |packed| == PackedLen(lead - DELTA_BLOCK)
    requires j < |packed| && packed[j] < NEGATIVE_FROM
    ensures Contained(Expand([lead, first] + packed + rest, room),
                      Expand([lead, first] + WithTopBit(packed, j) + rest, room),
                      1 + 3 * j, 1 + (lead - DELTA_BLOCK), Lowering(packed[j]))
  {
    hide DeltaSamples, WithTopBit, Lowering, Lowered, Expand, FirstNote, FirstSet;
    var damaged := WithTopBit(packed, j);
    ExpandPacked(lead, first, packed, rest, room, 0);
    ExpandPacked(lead, first, damaged, rest, room, 0);
    var count := lead - DELTA_BLOCK;
    if room == 0 {
      LoweredNowhere([], 1 + 3 * j, 1 + count, Lowering(packed[j]));
    } else {
      var emitted := Min(count + 1, room);
      TopBitChangesSamples(first, packed, j, emitted);
      if Expand(rest, room - emitted).Some? {
        var more := Expand(rest, room - emitted).value;
        NeverMoreThanAsked(rest, room - emitted);
        LoweredThen(DeltaSamples(first, packed, emitted), DeltaSamples(first, damaged, emitted), more,
                    1 + 3 * j, emitted, 1 + count, Lowering(packed[j]));
      }
    }
  }

  /**
   Damage to the unused top bit of one packed word, anywhere in a trace: nothing changes if the word's first delta is
   not negative, and otherwise exactly the rest of that block reads 32 too low. No other sample moves.
   */
  lemma {:induction false} UnusedBitContained(before: seq<word>, lead: word, first: word, packed: seq<word>, j: nat,
                                              rest: seq<word>, room: nat)
    requires WholeBlocks(before)
    requires DELTA_BLOCK <= lead < NEGATIVE_FROM && |packed| == PackedLen(lead - DELTA_BLOCK)
    requires j < |packed| && packed[j] < NEGATIVE_FROM
    ensures var base := CountIn(before);
      Contained(Expand(before + ([lead, first] + packed + rest), room),
                Expand(before + ([lead, first] + WithTopBit(packed, j) + rest), room),
                base + 1 + 3 * j, base + 1 + (lead - DELTA_BLOCK), Lowering(packed[j]))
    decreases |before|
  {
    hide Expand, WithTopBit, Lowering, Lowered, BlockLen, BlockCount, Taken, GivesUp, PackedLen;
    var x, y := [lead, first] + packed + rest, [lead, first] + WithTopBit(packed, j) + rest;
    if before == [] {
      assert before + x == x && before + y == y;
      UnusedBitInFirstBlock(lead, first, packed, j, rest, room);
    } else {
      var n := BlockLen(before[0]);
      var block, more := before[..n], before[n..];
      assert before + x == block + (more + x) && before + y == block + (more + y);
      ExpandOne(block, more + x, room);
      ExpandOne(block, more + y, room);
      var lo, hi := CountIn(more) + 1 + 3 * j, CountIn(more) + 1 + (lead - DELTA_BLOCK);
      var base := BlockCount(block[0]);
      if GivesUp(block[0], room) {
        LoweredNowhere([], base + lo, base + hi, Lowering(packed[j]));
      } else {
        var out := Taken(block, room);
        UnusedBitContained(more, lead, first, packed, j, rest, room - |out|);
        ContainedAfter(out, more + x, more + y, room, base, lo, hi, Lowering(packed[j]));
      }
    }
  }

  /** The same behind the samples of one more block, of which there may have been room for only a part. */
  lemma ContainedAfter(out: seq<word>, x: seq<word>, y: seq<word>, room: nat, base: nat, lo: nat, hi: nat, drop: nat)
    requires |out| == Min(base, room) && Contained(Expand(x, room - |out|), Expand(y, room - |out|), lo, hi, drop)
    ensures Contained(Prepend(out, Expand(x, room - |out|)), Prepend(out, Expand(y, room - |out|)),
                      base + lo, base + hi, drop)
  {
    hide Expand, Lowered;
    var p, q := Expand(x, room - |out|), Expand(y, room - |out|);
    if p.Some? {
      if |out| == base {
        LoweredAfter(out, p.value, q.value, lo, hi, drop);
      } else {
        NeverMoreThanAsked(x, 0);
        NeverMoreThanAsked(y, 0);
        LoweredNowhere(out, base + lo, base + hi, drop);
        assert out + p.value == out == out + q.value;
      }
    }
  }

  /** What the emulator makes is whole blocks, standing for its samples. */
  lemma {:induction false} EncodedIsWhole(blocks: seq<Block>)
    requires AllEncodable(blocks)
    ensures WholeBlocks(Words(blocks)) && CountIn(Words(blocks)) == |Samples(blocks)|
  {
    hide PackedDeltas, Wrapped, Falling;
    if blocks != [] {
      var words := BlockWords(blocks[0]);
      EncodedIsWhole(blocks[1..]);
      assert |words| == BlockLen(words[0]) && BlockCount(words[0]) == |BlockSamples(blocks[0])|;
      assert Words(blocks)[0] == words[0] && Words(blocks)[|words|..] == Words(blocks[1..]);
    }
  }

  predicate HasSetBit(block: seq<word>) {
    |block| >= 2 && DELTA_BLOCK <= block[0] < NEGATIVE_FROM && FirstSet(block[2..]) < |block| - 2
  }

  lemma NotePastBlock(block: seq<word>, tail: seq<word>, room: nat, done: nat)
    requires block != [] && |block| == BlockLen(block[0]) && BlockCount(block[0]) <= room && 0 < room
    ensures FirstNote(block + tail, room, done) ==
            if HasSetBit(block) then Some(done + Min(1 + 3 * FirstSet(block[2..]), room))
            else FirstNote(tail, room - BlockCount(block[0]), done + BlockCount(block[0]))
  {
    hide FirstSet, PackedLen;
    var e, n := block + tail, |block|;
    assert e[0] == block[0] && e[n..] == tail;
    if DELTA_BLOCK <= block[0] < NEGATIVE_FROM {
      assert e[2..n] == block[2..];
    }
  }

  lemma CountStep(e: seq<word>)
    requires WholeBlocks(e) && e != []
    ensures var n := BlockLen(e[0]);
      n <= |e| && WholeBlocks(e[n..]) && CountIn(e) == BlockCount(e[0]) + CountIn(e[n..])
  {}

  /** Whole blocks about which there is nothing to note leave it to what follows them. */
  lemma {:induction false} NoteAfter(before: seq<word>, tail: seq<word>, room: nat, done: nat)
    requires WholeBlocks(before) && CountIn(before) < room && FirstNote(before, room, done) == None
    ensures FirstNote(before + tail, room, done) == FirstNote(tail, room - CountIn(before), done + CountIn(before))
    decreases |before|
  {
    hide FirstNote, HasSetBit, BlockLen, BlockCount, FirstSet, Min;
    if before == [] {
      assert before + tail == tail;
    } else {
      CountStep(before);
      hide CountIn, WholeBlocks;
      var n, k := BlockLen(before[0]), BlockCount(before[0]);
      var block, more := before[..n], before[n..];
      NotePastBlock(block, more, room, done);
      NotePastBlock(block, more + tail, room, done);
      assert before == block + more && before + tail == block + (more + tail);
      assert FirstNote(before, room, done) == FirstNote(more, room - k, done + k);
      assert FirstNote(before + tail, room, done) == FirstNote(more + tail, room - k, done + k);
      NoteAfter(more, tail, room - k, done + k);
    }
  }

  /** And it never goes unsaid: if nothing was noted earlier, the note names the sample the damaged word came after. */
  lemma UnusedBitNoted(before: seq<word>, lead: word, first: word, packed: seq<word>, j: nat,
                       rest: seq<word>, room: nat)
    requires WholeBlocks(before) && CountIn(before) < room && FirstNote(before, room, 0) == None
    requires DELTA_BLOCK <= lead < NEGATIVE_FROM && |packed| == PackedLen(lead - DELTA_BLOCK)
    requires j < |packed| && forall i :: 0 <= i <= j ==> packed[i] < NEGATIVE_FROM
    ensures var base := CountIn(before);
      FirstNote(before + ([lead, first] + WithTopBit(packed, j) + rest), room, 0)
      == Some(base + Min(1 + 3 * j, room - base))
  {
    hide FirstSet, CountIn, WholeBlocks, Expand, FirstNote, DeltaSamples;
    var damaged := WithTopBit(packed, j);
    NoteAfter(before, [lead, first] + damaged + rest, room, 0);
    ExpandPacked(lead, first, damaged, rest, room - CountIn(before), CountIn(before));
    FirstSetIs(damaged, j);
  }
}
