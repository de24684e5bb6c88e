/** The compressed trace format: the client's decoder against the emulator's block semantics. */
module TraceCodec {
  import opened Bytes
  import opened Results

  const NEGATIVE_FROM := 0x8000
  const DELTA_BLOCK := 0x4000
  const DELTAS_PER_WORD := 3
  const DELTA_MAX := 15
  const DELTA_RANGE := 32
  const WORD_RANGE := 0x1_0000

  /** A number cut to sixteen bits. */
  function Wrap(n: int): word {
    n % WORD_RANGE
  }

  function Min(a: nat, b: nat): nat {
    if a < b then a else b
  }

  // ----- what encoded words mean, a block at a time

  /** The i-th of the three deltas packed in a word. The first one also takes in the unused top bit. */
  function Delta(packed: word, i: nat): int
    requires i < DELTAS_PER_WORD
  {
    var raw := if i == 0 then packed / 1024 else if i == 1 then packed / 32 % 32 else packed % 32;
    if raw > DELTA_MAX then raw - DELTA_RANGE else raw
  }

  /** The sum of the first k deltas in a list of packed words. */
  function DeltaSum(packed: seq<word>, k: nat): int
    requires k <= DELTAS_PER_WORD * |packed|
  {
    if k == 0 then 0
    else DeltaSum(packed, k - 1) + Delta(packed[(k - 1) / DELTAS_PER_WORD], (k - 1) % DELTAS_PER_WORD)
  }

  /** How many packed words hold this many deltas. */
  function PackedLen(count: nat): nat {
    (count + DELTAS_PER_WORD - 1) / DELTAS_PER_WORD
  }

  /** The first `length` samples of a delta block: each is the first sample lowered by the deltas so far. */
  function DeltaSamples(first: word, packed: seq<word>, length: nat): (s: seq<word>)
    requires length <= DELTAS_PER_WORD * |packed| + 1
    ensures |s| == length
  {
    seq(length, k requires 0 <= k < length => Wrap(first - DeltaSum(packed, k)))
  }

  function Prepend(s: seq<word>, rest: Option<seq<word>>): Option<seq<word>> {
    if rest.None? then None else Some(s + rest.value)
  }

  /** The samples of encoded words when at most `room` are wanted, or None if the words end inside a block. */
  function Expand(e: seq<word>, room: nat): Option<seq<word>>
    decreases |e|
  {
    if e == [] then Some([])
    else if e[0] >= NEGATIVE_FROM then
      var count := WORD_RANGE - e[0];
      if |e| < 2 then None
      else if count > room then Some([])
      else Prepend(seq(count, _ => e[1]), Expand(e[2..], room - count))
    else if e[0] >= DELTA_BLOCK then
      var count := e[0] - DELTA_BLOCK;
      var end := 2 + PackedLen(count);
      if |e| < 2 then None
      else if room == 0 then Some([])
      else if |e| < end then None
      else
        var emitted := Min(count + 1, room);
        Prepend(DeltaSamples(e[1], e[2..end], emitted), Expand(e[end..], room - emitted))
    else
      var end := 1 + e[0];
      if e[0] > room then Some([])
      else if |e| < end then None
      else Prepend(e[1..end], Expand(e[end..], room - e[0]))
  }

  /** The first packed word with its top bit set. */
  function FirstSet(packed: seq<word>): (j: nat)
    ensures j <= |packed|
    ensures j < |packed| ==> packed[j] >= NEGATIVE_FROM
    ensures forall i :: 0 <= i < j ==> packed[i] < NEGATIVE_FROM
  {
    if packed == [] || packed[0] >= NEGATIVE_FROM then 0 else 1 + FirstSet(packed[1..])
  }

  /** How many samples had been produced when the first set top bit was read, if one was, `done` of them before e. */
  function FirstNote(e: seq<word>, room: nat, done: nat): Option<nat>
    decreases |e|
  {
    if e == [] then None
    else if e[0] >= NEGATIVE_FROM then
      var count := WORD_RANGE - e[0];
      if |e| < 2 || count > room then None else FirstNote(e[2..], room - count, done + count)
    else if e[0] >= DELTA_BLOCK then
      var count := e[0] - DELTA_BLOCK;
      var end := 2 + PackedLen(count);
      if |e| < 2 || room == 0 then None
      else
        var packed := e[2..Min(end, |e|)];
        var j := FirstSet(packed);
        var emitted := Min(count + 1, room);
        if j < |packed| then Some(done + Min(1 + DELTAS_PER_WORD * j, room))
        else if |e| < end then None
        else FirstNote(e[end..], room - emitted, done + emitted)
    else
      var end := 1 + e[0];
      if e[0] > room || |e| < end then None else FirstNote(e[end..], room - e[0], done + e[0])
  }

  /** A whole delta block in front of anything. */
  lemma ExpandPacked(lead: word, first: word, packed: seq<word>, rest: seq<word>, room: nat, done: nat)
    requires DELTA_BLOCK <= lead < NEGATIVE_FROM && |packed| == PackedLen(lead - DELTA_BLOCK)
    ensures var e := [lead, first] + packed + rest;
      if room == 0 then Expand(e, room) == Some([]) && FirstNote(e, room, done) == None
      else
        var emitted := Min(lead - DELTA_BLOCK + 1, room);
        && Expand(e, room) == Prepend(DeltaSamples(first, packed, emitted), Expand(rest, room - emitted))
        && FirstNote(e, room, done) ==
           if FirstSet(packed) < |packed| then Some(done + Min(1 + DELTAS_PER_WORD * FirstSet(packed), room))
           else FirstNote(rest, room - emitted, done + emitted)
  {
    hide Expand, FirstNote, DeltaSamples, FirstSet, PackedLen;
    PackedPieces(lead, first, packed, rest);
    ExpandWholeBlock([lead, first] + packed + rest, room);
    NoteWholeBlock([lead, first] + packed + rest, room, done);
  }

  lemma PackedPieces(lead: word, first: word, packed: seq<word>, rest: seq<word>)
    ensures var e := [lead, first] + packed + rest;
      var end := 2 + |packed|;
      |e| >= end && e[0] == lead && e[1] == first && e[2..end] == packed && e[end..] == rest
  {}

  lemma ExpandWholeBlock(e: seq<word>, room: nat)
    requires |e| >= 2 && DELTA_BLOCK <= e[0] < NEGATIVE_FROM && |e| >= 2 + PackedLen(e[0] - DELTA_BLOCK)
    ensures var end := 2 + PackedLen(e[0] - DELTA_BLOCK);
      var emitted := Min(e[0] - DELTA_BLOCK + 1, room);
      Expand(e, room) == if room == 0 then Some([])
                         else Prepend(DeltaSamples(e[1], e[2..end], emitted), Expand(e[end..], room - emitted))
  {
    hide DeltaSamples, Prepend;
  }

  lemma NoteWholeBlock(e: seq<word>, room: nat, done: nat)
    requires |e| >= 2 && DELTA_BLOCK <= e[0] < NEGATIVE_FROM && |e| >= 2 + PackedLen(e[0] - DELTA_BLOCK)
    ensures var end := 2 + PackedLen(e[0] - DELTA_BLOCK);
      var emitted := Min(e[0] - DELTA_BLOCK + 1, room);
      var j := FirstSet(e[2..end]);
      FirstNote(e, room, done) == if room == 0 then None
                                  else if j < end - 2 then Some(done + Min(1 + DELTAS_PER_WORD * j, room))
                                  else FirstNote(e[end..], room - emitted, done + emitted)
  {
    hide FirstSet;
  }

  // ----- the decoder

  datatype Decoded = Decoded(samples: Option<seq<word>>, note: Option<nat>)

  lemma Digits(packed: word) returns (a: nat, b: nat, c: nat)
    ensures packed == 1024 * a + 32 * b + c && b < 32 && c < 32
    ensures b == packed / 32 % 32 && c == packed % 32
  {
    a, b, c := packed / 1024, packed / 32 % 32, packed % 32;
  }

  lemma CutOff(q: nat, r: nat)
    requires r < 0x8000
    ensures (0x8000 * q + r) % 0x8000 == r
  {}

  lemma TopDigit(q: nat, r: nat)
    requires r < 1024
    ensures (1024 * q + r) / 1024 == q
  {}

  lemma ShiftedOut(packed: word)
    ensures packed * 32 % 0x8000 / 1024 == packed / 32 % 32
    ensures packed * 32 % 0x8000 * 32 % 0x8000 / 1024 == packed % 32
  {
    var a, b, c := Digits(packed);
    assert packed * 32 == 0x8000 * a + (1024 * b + 32 * c);
    CutOff(a, 1024 * b + 32 * c);
    TopDigit(b, 32 * c);
    assert (1024 * b + 32 * c) * 32 == 0x8000 * b + 1024 * c;
    CutOff(b, 1024 * c);
    TopDigit(c, 0);
  }

  /** The packed word as the decoder has shifted it before taking its i-th delta. */
  function ShiftedWord(packed: word, i: nat): word
    requires i <= DELTAS_PER_WORD
  {
    if i == 0 then packed else ShiftedWord(packed, i - 1) * 32 % 0x8000
  }

  lemma TakenDelta(packed: word, i: nat)
    requires i < DELTAS_PER_WORD
    ensures var raw := ShiftedWord(packed, i) / 1024;
      Delta(packed, i) == if raw > DELTA_MAX then raw - DELTA_RANGE else raw
  {
    ShiftedOut(packed);
    assert ShiftedWord(packed, 1) == packed * 32 % 0x8000;
    assert ShiftedWord(packed, 2) == ShiftedWord(packed, 1) * 32 % 0x8000;
  }

  lemma WrapStep(first: word, sum: int, delta: int)
    ensures Wrap(Wrap(first - sum) - delta) == Wrap(first - (sum + delta))
  {}

  lemma {:induction false} DeltaSumOfPrefix(packed: seq<word>, n: nat, k: nat)
    requires n <= |packed| && k <= DELTAS_PER_WORD * n
    ensures DeltaSum(packed[..n], k) == DeltaSum(packed, k)
  {
    hide Delta;
    if k > 0 {
      DeltaSumOfPrefix(packed, n, k - 1);
    }
  }

  lemma DeltaSamplesOfPrefix(first: word, packed: seq<word>, n: nat, length: nat)
    requires n <= |packed| && length <= DELTAS_PER_WORD * n + 1
    ensures DeltaSamples(first, packed[..n], length) == DeltaSamples(first, packed, length)
  {
    hide Wrap, DeltaSum;
    forall k | 0 <= k < length
      ensures DeltaSamples(first, packed[..n], length)[k] == DeltaSamples(first, packed, length)[k]
    {
      DeltaSumOfPrefix(packed, n, k);
    }
  }

  lemma OneMoreSample(first: word, packed: seq<word>, n: nat)
    requires n <= DELTAS_PER_WORD * |packed|
    ensures DeltaSamples(first, packed, n + 1) == DeltaSamples(first, packed, n) + [Wrap(first - DeltaSum(packed, n))]
  {
    hide Wrap, DeltaSum;
  }

  lemma FirstSample(first: word, packed: seq<word>)
    ensures DeltaSamples(first, packed, 1) == [first]
    ensures Wrap(first - DeltaSum(packed, 0)) == first
  {}

  lemma NextSum(packed: seq<word>, k: nat)
    requires k < DELTAS_PER_WORD * |packed|
    ensures DeltaSum(packed, k + 1) == DeltaSum(packed, k) + Delta(packed[k / DELTAS_PER_WORD], k % DELTAS_PER_WORD)
  {}

  lemma FirstSetIs(packed: seq<word>, j: nat)
    requires j < |packed| && packed[j] >= NEGATIVE_FROM && forall i :: 0 <= i < j ==> packed[i] < NEGATIVE_FROM
    ensures FirstSet(packed) == j
  {}

  /** The three deltas of one packed word, as many as the block still counts and the limit leaves room for. */
  method TakeDeltas(samples: seq<word>, value: word, packed: word, taken: nat, maxSamples: nat,
                    ghost start: seq<word>, ghost first: word, ghost words: seq<word>, ghost k: nat)
    returns (extended: seq<word>, last: word)
    requires taken <= DELTAS_PER_WORD && k % DELTAS_PER_WORD == 0 && k + taken <= DELTAS_PER_WORD * |words|
    requires k / DELTAS_PER_WORD < |words| && words[k / DELTAS_PER_WORD] == packed
    requires |start| <= maxSamples
    requires samples == start + DeltaSamples(first, words, Min(k + 1, maxSamples - |start|))
    requires |samples| < maxSamples ==> value == Wrap(first - DeltaSum(words, k))
    ensures extended == start + DeltaSamples(first, words, Min(k + taken + 1, maxSamples - |start|))
    ensures |extended| < maxSamples ==> last == Wrap(first - DeltaSum(words, k + taken))
  {
    hide DeltaSamples, DeltaSum, Delta, Wrap, ShiftedWord;
    extended, last := samples, value;
    ghost var room := maxSamples - |start|;
    var shifted: int := packed;
    ShiftedNone(packed);
    for i := 0 to taken
      invariant shifted == ShiftedWord(packed, i)
      invariant extended == start + DeltaSamples(first, words, Min(k + i + 1, room))
      invariant |extended| < maxSamples ==> last == Wrap(first - DeltaSum(words, k + i))
    {
      var delta: int := shifted / 1024;
      if delta > DELTA_MAX {
        delta := delta - DELTA_RANGE;
      }
      TakenDelta(packed, i);
      ShiftedMore(packed, i);
      shifted := shifted * 32 % 0x8000;
      NextSum(words, k + i);
      assert (k + i) / DELTAS_PER_WORD == k / DELTAS_PER_WORD && (k + i) % DELTAS_PER_WORD == i;
      WrapStep(first, DeltaSum(words, k + i), delta);
      last := Wrap(last as int - delta);
      if |extended| >= maxSamples {
        break;
      }
      OneMoreSample(first, words, k + i + 1);
      extended := extended + [last];
    }
  }

  lemma ShiftedNone(packed: word)
    ensures ShiftedWord(packed, 0) == packed
  {}

  lemma ShiftedMore(packed: word, i: nat)
    requires i < DELTAS_PER_WORD
    ensures ShiftedWord(packed, i + 1) == ShiftedWord(packed, i) * 32 % 0x8000
  {}

  /** What is left of a trace, decoded after `samples` have been produced. */
  function Remaining(e: seq<word>, samples: seq<word>, maxSamples: nat): Decoded
    requires |samples| <= maxSamples
  {
    var room := maxSamples - |samples|;
    Decoded(Prepend(samples, Expand(e, room)), FirstNote(e, room, |samples|))
  }

  lemma RemainingNothing(samples: seq<word>, maxSamples: nat)
    requires |samples| <= maxSamples
    ensures Remaining([], samples, maxSamples) == Decoded(Some(samples), None)
  {
    assert samples + [] == samples;
  }

  lemma RemainingRun(e: seq<word>, samples: seq<word>, maxSamples: nat)
    requires |samples| <= maxSamples && e != [] && e[0] >= NEGATIVE_FROM
    ensures |e| < 2 ==> Remaining(e, samples, maxSamples) == Decoded(None, None)
    ensures var count := WORD_RANGE - e[0];
      |e| >= 2 ==> Remaining(e, samples, maxSamples) ==
                   if |samples| + count > maxSamples then Decoded(Some(samples), None)
                   else Remaining(e[2..], samples + seq(count, _ => e[1]), maxSamples)
  {
    assert samples + [] == samples;
    if |e| >= 2 && |samples| + (WORD_RANGE - e[0]) <= maxSamples {
      var count := WORD_RANGE - e[0];
      PrependTwice(samples, seq(count, _ => e[1]), Expand(e[2..], maxSamples - |samples| - count));
    }
  }

  lemma RemainingDeltas(e: seq<word>, samples: seq<word>, maxSamples: nat)
    requires |samples| <= maxSamples && e != [] && DELTA_BLOCK <= e[0] < NEGATIVE_FROM
    ensures |e| < 2 ==> Remaining(e, samples, maxSamples) == Decoded(None, None)
    ensures |e| >= 2 && |samples| == maxSamples ==>
              Remaining(e, samples, maxSamples) == Decoded(Some(samples), None)
    ensures var count := e[0] - DELTA_BLOCK;
      var end := 2 + PackedLen(count);
      |e| >= 2 && |samples| < maxSamples ==>
        var noted := NoteAmong(e[2..Min(end, |e|)], |samples|, maxSamples, None);
        if |e| < end then Remaining(e, samples, maxSamples) == Decoded(None, noted)
        else
          var block := DeltaSamples(e[1], e[2..end], Min(count + 1, maxSamples - |samples|));
          var rest := Remaining(e[end..], samples + block, maxSamples);
          Remaining(e, samples, maxSamples) == if noted.Some? then rest.(note := noted) else rest
  {
    hide DeltaSamples;
    assert samples + [] == samples;
    var end := 2 + PackedLen(e[0] - DELTA_BLOCK);
    if |samples| < maxSamples && |e| >= end {
      var emitted := Min(e[0] - DELTA_BLOCK + 1, maxSamples - |samples|);
      PrependTwice(samples, DeltaSamples(e[1], e[2..end], emitted),
                   Expand(e[end..], maxSamples - |samples| - emitted));
    }
  }

  lemma RemainingRaw(e: seq<word>, samples: seq<word>, maxSamples: nat)
    requires |samples| <= maxSamples && e != [] && e[0] < DELTA_BLOCK
    ensures Remaining(e, samples, maxSamples) ==
            if |samples| + e[0] > maxSamples then Decoded(Some(samples), None)
            else if 1 + e[0] > |e| then Decoded(None, None)
            else Remaining(e[1 + e[0]..], samples + e[1..1 + e[0]], maxSamples)
  {
    assert samples + [] == samples;
    if |samples| + e[0] <= maxSamples && 1 + e[0] <= |e| {
      PrependTwice(samples, e[1..1 + e[0]], Expand(e[1 + e[0]..], maxSamples - |samples| - e[0]));
    }
  }

  /** The decoded rest of a trace with an earlier note, if there was one, in place of a later one. */
  function WithNote(note: Option<nat>, rest: Decoded): Decoded {
    if note.Some? then rest.(note := note) else rest
  }

  /** What is left of a trace from word `pos` on, after `samples` have been produced and perhaps a note made. */
  function RestFrom(encoded: seq<word>, pos: nat, samples: seq<word>, maxSamples: nat, note: Option<nat>): Decoded
    requires pos <= |encoded| && |samples| <= maxSamples
  {
    WithNote(note, Remaining(encoded[pos..], samples, maxSamples))
  }

  lemma RestOfRun(encoded: seq<word>, pos: nat, samples: seq<word>, maxSamples: nat, note: Option<nat>)
    requires pos < |encoded| && |samples| <= maxSamples && encoded[pos] >= NEGATIVE_FROM
    ensures var count := WORD_RANGE - encoded[pos];
      RestFrom(encoded, pos, samples, maxSamples, note) ==
      if pos + 1 >= |encoded| then Decoded(None, note)
      else if |samples| + count > maxSamples then Decoded(Some(samples), note)
      else RestFrom(encoded, pos + 2, samples + seq(count, _ => encoded[pos + 1]), maxSamples, note)
  {
    hide Remaining;
    var e := encoded[pos..];
    RemainingRun(e, samples, maxSamples);
    if pos + 1 < |encoded| {
      assert e[2..] == encoded[pos + 2..];
    }
  }

  lemma RestOfRaw(encoded: seq<word>, pos: nat, samples: seq<word>, maxSamples: nat, note: Option<nat>)
    requires pos < |encoded| && |samples| <= maxSamples && encoded[pos] < DELTA_BLOCK
    ensures var end := pos + 1 + encoded[pos];
      RestFrom(encoded, pos, samples, maxSamples, note) ==
      if |samples| + encoded[pos] > maxSamples then Decoded(Some(samples), note)
      else if end > |encoded| then Decoded(None, note)
      else RestFrom(encoded, end, samples + encoded[pos + 1..end], maxSamples, note)
  {
    hide Remaining;
    var e, count := encoded[pos..], encoded[pos];
    RemainingRaw(e, samples, maxSamples);
    if pos + 1 + count <= |encoded| {
      assert e[1..1 + count] == encoded[pos + 1..pos + 1 + count] && e[1 + count..] == encoded[pos + 1 + count..];
    }
  }

  lemma RestOfDeltas(encoded: seq<word>, pos: nat, samples: seq<word>, maxSamples: nat, note: Option<nat>)
    requires pos < |encoded| && |samples| <= maxSamples && DELTA_BLOCK <= encoded[pos] < NEGATIVE_FROM
    ensures var at, count := pos + 2, encoded[pos] - DELTA_BLOCK;
      var end := at + PackedLen(count);
      RestFrom(encoded, pos, samples, maxSamples, note) ==
      if pos + 1 >= |encoded| then Decoded(None, note)
      else if |samples| >= maxSamples then Decoded(Some(samples), note)
      else
        var noted := NoteAmong(encoded[at..Min(end, |encoded|)], |samples|, maxSamples, note);
        if end > |encoded| then Decoded(None, noted)
        else
          var block := DeltaSamples(encoded[pos + 1], encoded[at..end], Min(count + 1, maxSamples - |samples|));
          RestFrom(encoded, end, samples + block, maxSamples, noted)
  {
    hide Remaining, DeltaSamples, NoteAmong, PackedLen;
    var e, count := encoded[pos..], encoded[pos] - DELTA_BLOCK;
    RemainingDeltas(e, samples, maxSamples);
    if pos + 1 < |encoded| && |samples| < maxSamples {
      var n := 2 + PackedLen(count);
      assert e[2..Min(n, |e|)] == encoded[pos + 2..Min(pos + n, |encoded|)];
      NoteOrEarlier(e[2..Min(n, |e|)], |samples|, maxSamples, note);
      if n <= |e| {
        assert e[2..n] == encoded[pos + 2..pos + n] && e[n..] == encoded[pos + n..];
      }
    }
  }

  lemma RestOfNothing(encoded: seq<word>, samples: seq<word>, maxSamples: nat, note: Option<nat>)
    requires |samples| <= maxSamples
    ensures RestFrom(encoded, |encoded|, samples, maxSamples, note) == Decoded(Some(samples), note)
  {
    hide Remaining;
    assert encoded[|encoded|..] == [];
    RemainingNothing(samples, maxSamples);
  }

  /** The client's decoder. A block that ends too soon raises, keeping any note already made. */
  method Decode(encoded: seq<word>, maxSamples: nat) returns (decoded: Decoded)
    ensures decoded == Decoded(Expand(encoded, maxSamples), FirstNote(encoded, maxSamples, 0))
  {
    hide RestFrom, DeltaSamples, NoteAmong, PackedLen, Expand, FirstNote;
    var samples: seq<word> := [];
    var pos := 0;
    var note: Option<nat> := None;
    ghost var whole := RestFrom(encoded, 0, [], maxSamples, None);
    RemainingAll(encoded, maxSamples);
    while pos < |encoded|
      invariant 0 <= pos <= |encoded| && |samples| <= maxSamples
      invariant RestFrom(encoded, pos, samples, maxSamples, note) == whole
      decreases |encoded| - pos
    {
      var lead := encoded[pos];
      if lead >= NEGATIVE_FROM {
        RestOfRun(encoded, pos, samples, maxSamples, note);
        pos := pos + 1;
        var count := WORD_RANGE - lead;
        if pos >= |encoded| {
          return Decoded(None, note);
        }
        var value := encoded[pos];
        pos := pos + 1;
        if |samples| + count > maxSamples {
          return Decoded(Some(samples), note);
        }
        samples := samples + seq(count, _ => value);
      } else if lead >= DELTA_BLOCK {
        RestOfDeltas(encoded, pos, samples, maxSamples, note);
        pos := pos + 1;
        var count := lead - DELTA_BLOCK;
        if pos >= |encoded| {
          return Decoded(None, note);
        }
        var value := encoded[pos];
        pos := pos + 1;
        if |samples| >= maxSamples {
          return Decoded(Some(samples), note);
        }
        var ok;
        samples, pos, note, ok := DecodeDeltas(encoded, pos, count, value, samples, maxSamples, note);
        if !ok {
          return Decoded(None, note);
        }
      } else {
        RestOfRaw(encoded, pos, samples, maxSamples, note);
        pos := pos + 1;
        var count := lead;
        if |samples| + count > maxSamples {
          return Decoded(Some(samples), note);
        }
        if pos + count > |encoded| {
          return Decoded(None, note);
        }
        samples := samples + encoded[pos..pos + count];
        pos := pos + count;
      }
    }
    RestOfNothing(encoded, samples, maxSamples, note);
    decoded := Decoded(Some(samples), note);
  }

  lemma RemainingAll(encoded: seq<word>, maxSamples: nat)
    ensures RestFrom(encoded, 0, [], maxSamples, None)
         == Decoded(Expand(encoded, maxSamples), FirstNote(encoded, maxSamples, 0))
  {
    assert encoded[0..] == encoded;
    PrependNothing(Expand(encoded, maxSamples));
  }

  lemma NoteOrEarlier(packed: seq<word>, done: nat, maxSamples: nat, noted: Option<nat>)
    requires done <= maxSamples
    ensures NoteAmong(packed, done, maxSamples, noted) ==
            if noted.Some? then noted else NoteAmong(packed, done, maxSamples, None)
  {}

  lemma PrependNothing(rest: Option<seq<word>>)
    ensures Prepend([], rest) == rest
  {
    if rest.Some? {
      assert [] + rest.value == rest.value;
    }
  }

  lemma PrependTwice(a: seq<word>, b: seq<word>, rest: Option<seq<word>>)
    ensures Prepend(a, Prepend(b, rest)) == Prepend(a + b, rest)
  {
    if rest.Some? {
      assert a + (b + rest.value) == a + b + rest.value;
    }
  }

  /** The rest of a delta block, after its first sample's word: every packed word is read even once no room is left. */
  method DecodeDeltas(encoded: seq<word>, at: nat, total: nat, first: word, before: seq<word>, maxSamples: nat,
                      noted: Option<nat>)
    returns (samples: seq<word>, pos: nat, note: Option<nat>, ok: bool)
    requires at <= |encoded| && |before| < maxSamples
    ensures ok <==> at + PackedLen(total) <= |encoded|
    ensures ok ==> pos == at + PackedLen(total)
    ensures ok ==> samples == before + DeltaSamples(first, encoded[at..pos], Min(total + 1, maxSamples - |before|))
    ensures note == NoteAmong(encoded[at..Min(at + PackedLen(total), |encoded|)], |before|, maxSamples, noted)
  {
    hide DeltaSamples, DeltaSum, Wrap, NoteAmong;
    pos := at;
    note := noted;
    ok := true;
    ghost var words := encoded[at..];
    ghost var room := maxSamples - |before|;
    samples := before + [first];
    FirstSample(first, words);
    NoteBeforeAny(words, |before|, maxSamples, noted);
    var value := first;
    var count: int := total;
    ghost var j := 0;
    while count > 0
      invariant pos == at + j && j <= |words| && count == total - DELTAS_PER_WORD * j && j <= PackedLen(total)
      invariant samples == before + DeltaSamples(first, words, Min(DeltasRead(total, j) + 1, room))
      invariant |samples| < maxSamples ==> value == Wrap(first - DeltaSum(words, DeltasRead(total, j)))
      invariant note == NoteAmong(words[..j], |before|, maxSamples, noted)
      decreases count
    {
      if pos >= |encoded| {
        assert words[..j] == encoded[at..Min(at + PackedLen(total), |encoded|)];
        return samples, pos, note, false;
      }
      var packed := encoded[pos];
      pos := pos + 1;
      NoteAfterWord(words, j, |before|, maxSamples, noted);
      if packed >= NEGATIVE_FROM && note.None? {
        note := Some(|samples|);
      }
      var taken := Min(DELTAS_PER_WORD, count);
      count := count - DELTAS_PER_WORD;
      samples, value :=
        TakeDeltas(samples, value, packed, taken, maxSamples, before, first, words, DELTAS_PER_WORD * j);
      j := j + 1;
    }
    assert words[..j] == encoded[at..pos];
    DeltaSamplesOfPrefix(first, words, j, Min(total + 1, room));
  }

  /** How many deltas of a block are known after j of its packed words. */
  function DeltasRead(total: nat, j: nat): (k: nat)
    ensures k <= DELTAS_PER_WORD * j
  {
    Min(DELTAS_PER_WORD * j, total)
  }

  /** The note after reading some packed words of a block whose samples start at `done`. */
  function NoteAmong(packed: seq<word>, done: nat, maxSamples: nat, noted: Option<nat>): Option<nat>
    requires done <= maxSamples
  {
    var j := FirstSet(packed);
    if noted.Some? || j == |packed| then noted else Some(done + Min(1 + DELTAS_PER_WORD * j, maxSamples - done))
  }

  lemma NoteBeforeAny(words: seq<word>, done: nat, maxSamples: nat, noted: Option<nat>)
    requires done <= maxSamples
    ensures NoteAmong(words[..0], done, maxSamples, noted) == noted
  {}

  lemma NoteAfterWord(words: seq<word>, j: nat, done: nat, maxSamples: nat, noted: Option<nat>)
    requires j < |words| && done <= maxSamples
    ensures var before := NoteAmong(words[..j], done, maxSamples, noted);
      NoteAmong(words[..j + 1], done, maxSamples, noted) ==
      if before.None? && words[j] >= NEGATIVE_FROM
      then Some(done + Min(1 + DELTAS_PER_WORD * j, maxSamples - done)) else before
  {}
}
