/** Single values read by number: a reply without tags or delimiters, told apart only by knowing each type before. */
module Svid {
  import opened Bytes
  import opened Results

  datatype SvidType = INT16 | UINT16 | LONG | ULONG | FLOAT | STRING

  /** A value; a float is its four bytes. */
  datatype Value = Number(n: int) | Float(bits: Bytes) | Text(s: string)

  const REGISTRY: map<nat, SvidType> := map[
    769 := UINT16, 771 := UINT16, 773 := UINT16, 257 := INT16, 796 := UINT16, 1056 := ULONG, 1058 := ULONG,
    1048 := ULONG, 1025 := ULONG, 269 := INT16, 270 := INT16, 287 := INT16, 288 := INT16, 298 := INT16, 299 := INT16,
    513 := FLOAT, 514 := FLOAT, 10 := STRING, 11 := STRING, 12 := STRING, 13 := STRING, 14 := STRING, 15 := STRING,
    16 := STRING, 17 := STRING, 18 := STRING, 19 := STRING, 20 := STRING, 21 := STRING, 849 := UINT16, 1071 := ULONG]

  datatype SvidError = NotRegistered(number: nat) | RanOut(number: nat)

  function SizeOf(t: SvidType): nat {
    match t
    case INT16 => 2
    case UINT16 => 2
    case STRING => 0
    case _ => 4
  }

  // ----- what the pump sends

  predicate InRange(t: SvidType, v: Value) {
    match t
    case INT16 => v.Number? && -0x8000 <= v.n < 0x8000
    case UINT16 => v.Number? && 0 <= v.n < 0x1_0000
    case LONG => v.Number? && -0x8000_0000 <= v.n < 0x8000_0000
    case ULONG => v.Number? && 0 <= v.n < 0x1_0000_0000
    case FLOAT => v.Float? && |v.bits| == 4
    case STRING => v.Text? && |v.s| < 0x1_0000 && forall i :: 0 <= i < |v.s| ==> 0 < v.s[i] as int < 128
  }

  function EncodeText(s: string): (b: Bytes)
    requires forall i :: 0 <= i < |s| ==> 0 < s[i] as int < 128
    ensures |b| == |s|
  {
    seq(|s|, i requires 0 <= i < |s| => ToByte(s[i] as int))
  }

  function Encode(t: SvidType, v: Value): (b: Bytes)
    requires InRange(t, v)
    ensures |b| == if t.STRING? then 2 + |v.s| else SizeOf(t)
  {
    match t
    case INT16 => PackWord(v.n % 0x1_0000)
    case UINT16 => PackWord(v.n)
    case LONG => PackLong(v.n % 0x1_0000_0000)
    case ULONG => PackLong(v.n)
    case FLOAT => v.bits
    case STRING => PackWord(|v.s|) + EncodeText(v.s)
  }

  ghost predicate AllInRange(numbers: seq<nat>, values: seq<Value>) {
    && |values| == |numbers|
    && forall i :: 0 <= i < |numbers| ==> numbers[i] in REGISTRY && InRange(REGISTRY[numbers[i]], values[i])
  }

  /** The reply to a list of numbers: every value in order, nothing between them. */
  function EncodeAll(numbers: seq<nat>, values: seq<Value>): Bytes
    requires AllInRange(numbers, values)
  {
    if numbers == [] then []
    else Encode(REGISTRY[numbers[0]], values[0]) + EncodeAll(numbers[1..], values[1..])
  }

  // ----- what the client reads

  function Signed(n: nat, range: nat): int {
    if n >= range / 2 then n - range else n
  }

  /** Text cut at the first null, anything that is not ASCII replaced. */
  function DecodeString(raw: Bytes): string {
    if raw == [] || raw[0] == 0 then []
    else [if raw[0] as int < 128 then raw[0] as int as char else '\U{FFFD}'] + DecodeString(raw[1..])
  }

  /** Exactly the text: everything up to the first null, each byte that is not ASCII replaced. */
  lemma {:induction false} DecodeStringExactly(raw: Bytes)
    ensures var s := DecodeString(raw);
      && |s| <= |raw| && (|s| < |raw| ==> raw[|s|] == 0)
      && forall i :: 0 <= i < |s| ==>
           raw[i] != 0 && s[i] == if raw[i] as int < 128 then raw[i] as int as char else '\U{FFFD}'
  {
    if raw != [] && raw[0] != 0 {
      DecodeStringExactly(raw[1..]);
    }
  }

  function DecodeFixed(t: SvidType, b: Bytes): Value
    requires !t.STRING? && |b| == SizeOf(t)
  {
    match t
    case INT16 => Number(Signed(UnpackWord(b[0], b[1]), 0x1_0000))
    case UINT16 => Number(UnpackWord(b[0], b[1]))
    case LONG => Number(Signed(UnpackLong(b), 0x1_0000_0000))
    case ULONG => Number(UnpackLong(b))
    case FLOAT => Float(b)
  }

  /** How many bytes the next value takes, or None if they are not all there. */
  function NextSize(t: SvidType, data: Bytes): Option<nat> {
    if t.STRING? then
      if 2 > |data| then None
      else
        var textLen := UnpackWord(data[0], data[1]);
        if 2 + textLen > |data| then None else Some(2 + textLen)
    else if SizeOf(t) > |data| then None
    else Some(SizeOf(t))
  }

  function NextValue(t: SvidType, data: Bytes): Value
    requires NextSize(t, data).Some?
  {
    if t.STRING? then Text(DecodeString(data[2..NextSize(t, data).value])) else DecodeFixed(t, data[..SizeOf(t)])
  }

  /** What walking a reply gives: the values, and how many bytes were left over. */
  datatype Walked = Walked(values: seq<Value>, left: nat)

  /** The values a reply holds for these numbers, and how many bytes are left over. */
  function Walk(data: Bytes, numbers: seq<nat>): Result<Walked, SvidError> {
    if numbers == [] then Ok(Walked([], |data|))
    else if numbers[0] !in REGISTRY then Err(NotRegistered(numbers[0]))
    else
      var t := REGISTRY[numbers[0]];
      var size := NextSize(t, data);
      if size.None? then Err(RanOut(numbers[0]))
      else
        match Walk(data[size.value..], numbers[1..])
        case Err(e) => Err(e)
        case Ok(w) => Ok(Walked([NextValue(t, data)] + w.values, w.left))
  }

  /** Adding values already read in front of what the rest of a reply gives. */
  function After(values: seq<Value>, rest: Result<Walked, SvidError>)
    : Result<Walked, SvidError>
  {
    match rest
    case Err(e) => Err(e)
    case Ok(w) => Ok(Walked(values + w.values, w.left))
  }

  method WalkReply(data: Bytes, numbers: seq<nat>) returns (result: Result<Walked, SvidError>)
    ensures result == Walk(data, numbers)
  {
    hide DecodeString, DecodeFixed, UnpackWord, REGISTRY;
    var values: seq<Value> := [];
    var offset := 0;
    assert data[0..] == data && numbers[0..] == numbers;
    AfterNothing(Walk(data, numbers));
    for i := 0 to |numbers|
      invariant offset <= |data|
      invariant After(values, Walk(data[offset..], numbers[i..])) == Walk(data, numbers)
    {
      var number := numbers[i];
      assert numbers[i..][1..] == numbers[i + 1..];
      ghost var rest := data[offset..];
      if number !in REGISTRY {
        return Err(NotRegistered(number));
      }
      var svid := REGISTRY[number];
      var value;
      if svid == STRING {
        if offset + 2 > |data| {
          return Err(RanOut(number));
        }
        var textLen := UnpackWord(data[offset], data[offset + 1]);
        offset := offset + 2;
        if offset + textLen > |data| {
          return Err(RanOut(number));
        }
        assert rest[2..2 + textLen] == data[offset..offset + textLen];
        value := Text(DecodeString(data[offset..offset + textLen]));
        offset := offset + textLen;
        assert rest[2 + textLen..] == data[offset..];
      } else {
        var size := SizeOf(svid);
        if offset + size > |data| {
          return Err(RanOut(number));
        }
        assert rest[..size] == data[offset..offset + size];
        value := DecodeFixed(svid, data[offset..offset + size]);
        offset := offset + size;
        assert rest[size..] == data[offset..];
      }
      AfterOne(values, value, Walk(data[offset..], numbers[i + 1..]));
      values := values + [value];
    }
    assert numbers[|numbers|..] == [];
    assert values + [] == values;
    result := Ok(Walked(values, |data| - offset));
  }

  lemma AfterNothing(rest: Result<Walked, SvidError>)
    ensures After([], rest) == rest
  {
    if rest.Ok? {
      assert [] + rest.value.values == rest.value.values;
    }
  }

  lemma AfterOne(values: seq<Value>, value: Value, rest: Result<Walked, SvidError>)
    ensures After(values, After([value], rest)) == After(values + [value], rest)
  {
    if rest.Ok? {
      assert values + ([value] + rest.value.values) == values + [value] + rest.value.values;
    }
  }

  method BuildRequest(numbers: seq<nat>) returns (data: Result<Bytes, SvidError>)
    ensures data.Ok? <==> forall i :: 0 <= i < |numbers| ==> numbers[i] in REGISTRY
    ensures data.Ok? ==> (forall i :: 0 <= i < |numbers| ==> numbers[i] < 0x1_0000) && data.value == PackWords(numbers)
  {
    hide REGISTRY, PackWord;
    var request: Bytes := [];
    for i := 0 to |numbers|
      invariant forall j :: 0 <= j < i ==> numbers[j] in REGISTRY && numbers[j] < 0x1_0000
      invariant request == PackWords(numbers[..i])
    {
      if numbers[i] !in REGISTRY {
        return Err(NotRegistered(numbers[i]));
      }
      RegisteredFits(numbers[i]);
      PackWordsSnoc(numbers[..i], numbers[i]);
      assert numbers[..i + 1] == numbers[..i] + [numbers[i]];
      request := request + PackWord(numbers[i]);
    }
    assert numbers[..|numbers|] == numbers;
    data := Ok(request);
  }

  lemma RegisteredFits(number: nat)
    requires number in REGISTRY
    ensures number < 0x1_0000
  {}

  lemma {:induction false} PackWordsSnoc(words: seq<word>, w: word)
    ensures PackWords(words + [w]) == PackWords(words) + PackWord(w)
  {
    hide PackWord;
    if words == [] {
      assert words + [w] == [w] && [w][1..] == [];
    } else {
      PackWordsSnoc(words[1..], w);
      assert (words + [w])[1..] == words[1..] + [w];
    }
  }

  // ----- reading inverts sending

  lemma SignedWrapped(n: int, range: nat)
    requires (range == 0x1_0000 && -0x8000 <= n < 0x8000)
          || (range == 0x1_0000_0000 && -0x8000_0000 <= n < 0x8000_0000)
    ensures Signed(n % range, range) == n
  {}

  lemma FixedRoundTrip(t: SvidType, v: Value)
    requires !t.STRING? && InRange(t, v)
    ensures DecodeFixed(t, Encode(t, v)) == v
  {
    hide PackWord, UnpackWord, PackLong, UnpackLong, Signed;
    match t {
      case INT16 =>
        UnpackPacked(v.n % 0x1_0000);
        SignedWrapped(v.n, 0x1_0000);
      case UINT16 => UnpackPacked(v.n);
      case LONG =>
        LongRoundTrip(v.n % 0x1_0000_0000);
        SignedWrapped(v.n, 0x1_0000_0000);
      case ULONG => LongRoundTrip(v.n);
      case FLOAT =>
    }
  }

  lemma {:induction false} TextRoundTrip(s: string)
    requires forall i :: 0 <= i < |s| ==> 0 < s[i] as int < 128
    ensures DecodeString(EncodeText(s)) == s
    decreases |s|
  {
    hide ToByte;
    if s != [] {
      var b := EncodeText(s);
      ByteValue(s[0] as int);
      ZeroByte(b[0]);
      assert b[1..] == EncodeText(s[1..]);
      TextRoundTrip(s[1..]);
    }
  }

  lemma ZeroByte(b: bv8)
    ensures b == 0 ==> b as int == 0
  {}

  lemma NextOfEncoded(t: SvidType, v: Value, rest: Bytes)
    requires InRange(t, v)
    ensures NextSize(t, Encode(t, v) + rest) == Some(|Encode(t, v)|)
    ensures NextValue(t, Encode(t, v) + rest) == v
  {
    hide PackWord, UnpackWord, DecodeFixed, DecodeString, EncodeText;
    var e := Encode(t, v);
    var data := e + rest;
    if t.STRING? {
      UnpackPacked(|v.s|);
      assert data[0] == PackWord(|v.s|)[0] && data[1] == PackWord(|v.s|)[1];
      assert data[2..2 + |v.s|] == EncodeText(v.s);
      TextRoundTrip(v.s);
    } else {
      assert data[..SizeOf(t)] == e;
      FixedRoundTrip(t, v);
    }
  }

  lemma AllInRangeTail(numbers: seq<nat>, values: seq<Value>)
    requires AllInRange(numbers, values) && numbers != []
    ensures AllInRange(numbers[1..], values[1..])
  {}

  /** Whatever the pump is asked for, walking its reply gives back what it sent, and just what follows is left over. */
  lemma {:induction false} WalkInvertsEncode(numbers: seq<nat>, values: seq<Value>, extra: Bytes)
    requires AllInRange(numbers, values)
    ensures Walk(EncodeAll(numbers, values) + extra, numbers) == Ok(Walked(values, |extra|))
    decreases |numbers|
  {
    hide InRange, Encode, NextSize, NextValue, REGISTRY;
    if numbers == [] {
      assert EncodeAll(numbers, values) + extra == extra;
    } else {
      var t := REGISTRY[numbers[0]];
      AllInRangeTail(numbers, values);
      var e, more := Encode(t, values[0]), EncodeAll(numbers[1..], values[1..]);
      assert EncodeAll(numbers, values) + extra == e + (more + extra);
      NextOfEncoded(t, values[0], more + extra);
      assert (e + (more + extra))[|e|..] == more + extra;
      WalkInvertsEncode(numbers[1..], values[1..], extra);
      assert [values[0]] + values[1..] == values;
    }
  }

  lemma CutValueRunsOut(t: SvidType, v: Value, k: nat)
    requires InRange(t, v) && k < |Encode(t, v)|
    ensures NextSize(t, Encode(t, v)[..k]) == None
  {
    hide PackWord, UnpackWord, EncodeText;
    if t.STRING? && k >= 2 {
      var data := Encode(t, v)[..k];
      UnpackPacked(|v.s|);
      assert data[0] == PackWord(|v.s|)[0] && data[1] == PackWord(|v.s|)[1];
    }
  }

  /** The reply is cut inside the i-th value. */
  ghost predicate CutAt(numbers: seq<nat>, values: seq<Value>, k: nat, i: nat)
    requires AllInRange(numbers, values)
  {
    && i < |numbers|
    && |EncodeAll(numbers[..i], values[..i])| <= k < |EncodeAll(numbers[..i + 1], values[..i + 1])|
  }

  lemma OneMoreFirst(numbers: seq<nat>, values: seq<Value>, i: nat)
    requires AllInRange(numbers, values) && i < |numbers|
    ensures AllInRange(numbers[1..], values[1..])
    ensures |EncodeAll(numbers[..i + 1], values[..i + 1])|
         == |Encode(REGISTRY[numbers[0]], values[0])| + |EncodeAll(numbers[1..][..i], values[1..][..i])|
  {
    hide InRange, Encode, REGISTRY;
    assert numbers[..i + 1][1..] == numbers[1..][..i] && values[..i + 1][1..] == values[1..][..i];
  }

  /** A reply cut short anywhere is never taken for a whole one: the value it is cut in is said to have run out. */
  lemma {:induction false} CutReplyRaises(numbers: seq<nat>, values: seq<Value>, k: nat) returns (i: nat)
    requires AllInRange(numbers, values) && k < |EncodeAll(numbers, values)|
    ensures CutAt(numbers, values, k, i)
    ensures Walk(EncodeAll(numbers, values)[..k], numbers) == Err(RanOut(numbers[i]))
    decreases |numbers|
  {
    hide InRange, Encode, NextSize, NextValue, REGISTRY;
    var t := REGISTRY[numbers[0]];
    AllInRangeTail(numbers, values);
    OneMoreFirst(numbers, values, 0);
    var e, more := Encode(t, values[0]), EncodeAll(numbers[1..], values[1..]);
    var whole := EncodeAll(numbers, values);
    if k < |e| {
      i := 0;
      assert whole[..k] == e[..k];
      CutValueRunsOut(t, values[0], k);
    } else {
      assert whole[..k] == e + more[..k - |e|];
      NextOfEncoded(t, values[0], more[..k - |e|]);
      assert whole[..k][|e|..] == more[..k - |e|];
      i := CutReplyRaises(numbers[1..], values[1..], k - |e|);
      OneMoreFirst(numbers, values, i);
      OneMoreFirst(numbers, values, i + 1);
      i := i + 1;
    }
  }
}
