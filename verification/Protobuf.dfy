/** The Protocol Buffers decoder of encoding/fwoop_protobuf.cpp, against a reference encoder after the
    "Base 128 Varints" and "Message Structure" sections of the Protocol Buffers encoding guide. */
module Protobuf {
  import opened Buffers
  import opened Wrappers

  type Byte = b: int | 0 <= b < 256

  const UINT32 := 0x1_0000_0000
  const UINT64 := 0x1_0000_0000_0000_0000

  /** What a message receives through its setField calls, in order. */
  datatype Field =
    | Number(id: nat, value: nat)
    | Text(id: nat, data: seq<Byte>)
    | Sub(id: nat, fields: seq<Field>)

  /** Which string fields of which message type are sub-messages, and of what type: the fields for
      which setField answers WantSubMessage. */
  type Schema = map<(nat, nat), nat>

  // ----- Varints

  /** The number a varint stands for: seven bits an octet, least significant group first. */
  function VarintValue(b: seq<Byte>): nat {
    if b == [] then 0 else b[0] % 128 + 128 * VarintValue(b[1..])
  }

  function Pow128(n: nat): nat { if n == 0 then 1 else 128 * Pow128(n - 1) }

  lemma {:induction false} VarintValueAppend(b: seq<Byte>, x: Byte)
    ensures VarintValue(b + [x]) == VarintValue(b) + (x % 128) * Pow128(|b|)
  {
    if b == [] {
      assert (b + [x])[1..] == [];
    } else {
      assert (b + [x])[1..] == b[1..] + [x];
      VarintValueAppend(b[1..], x);
      assert 128 * ((x % 128) * Pow128(|b| - 1)) == (x % 128) * (128 * Pow128(|b| - 1));
    }
  }

  /** (uint64_t)n << (7 * i), the bits above the sixty-fourth lost. */
  function Shifted(n: nat, i: nat): nat { (n * Pow128(i)) % UINT64 }

  /** Sums of wrapped numbers wrap like the sum. */
  lemma SumWraps(a: nat, b: nat)
    ensures (a % UINT64 + b % UINT64) % UINT64 == (a + b) % UINT64
  {
  }

  /** The number of octets at i with the continuation bit, if the buffer has one without it. */
  function Continued(mem: seq<Byte>, i: nat): (r: Option<nat>)
    ensures r.Some? ==> i + r.value < |mem| && mem[i + r.value] < 128
    ensures r.Some? ==> forall k :: i <= k < i + r.value ==> mem[k] >= 128
    decreases |mem| - i
  {
    if i >= |mem| then None
    else if mem[i] < 128 then Some(0)
    else
      match Continued(mem, i + 1)
      case None => None
      case Some(n) => Some(n + 1)
  }

  // ----- The decoder, as a function of the buffer

  /** A read outside the buffer, or a shift by 64 or more, is undefined behaviour: a fault. */
  datatype Outcome = Fault | Done(fields: seq<Field>, at: nat)

  /** What one turn of the loop does: the field set, if any, and where it leaves the offset. */
  datatype Turn = BadTurn | Turn(field: Option<Field>, next: nat)

  function Given(field: Option<Field>): seq<Field> { if field.Some? then [field.value] else [] }

  /** The two parts of a tag. */
  function IdOf(tag: Byte): nat { tag / 8 % 16 }

  function TypeOf(tag: Byte): nat { tag % 8 }

  lemma TagParts(id: nat, typ: nat)
    requires id < 16 && typ < 8
    ensures IdOf(8 * id + typ) == id && TypeOf(8 * id + typ) == typ
  {
  }

  /** The conversions to uint64_t and uint32_t. */
  function Word64(n: nat): nat { n % UINT64 }

  function Word32(n: nat): nat { n % UINT32 }

  lemma FitsInWord(n: nat)
    ensures n < UINT64 ==> Word64(n) == n
    ensures n < UINT32 ==> Word32(n) == n
  {
  }

  lemma LengthWord(n: nat)
    requires n < UINT64
    ensures Word32(Word64(n)) == n % UINT32
  {
  }

  /** One turn at position at; for wire types other than 0 and 2 only the tag is passed. */
  function Step(schema: Schema, typ: nat, mem: seq<Byte>, at: nat): (r: Turn)
    requires at < |mem|
    ensures r.Turn? ==> at < r.next <= |mem|
    decreases |mem| - at, 0
  {
    var id, valType := IdOf(mem[at]), TypeOf(mem[at]);
    match Continued(mem, at + 1)
    case None => BadTurn
    case Some(more) =>
      var valLen := more + 1;
      var value := Word64(VarintValue(mem[at + 1..at + 1 + valLen]));
      var next := at + 1 + valLen;
      if valType != 0 && valType != 2 then Turn(None, at + 1)
      else if valLen > 10 then BadTurn
      else if valType == 0 then Turn(Some(Number(id, value)), next)
      else
        var strLen := Word32(value);
        if next + strLen > |mem| then BadTurn
        else if (typ, id) in schema then
          match DecodeFrom(schema, schema[(typ, id)], mem, next, next + strLen) {
            case Fault => BadTurn
            case Done(fields, _) => Turn(Some(Sub(id, fields)), next + strLen)
          }
        else Turn(Some(Text(id, mem[next..next + strLen])), next + strLen)
  }

  /** The loop from position at, over a message that ends at position end. */
  function DecodeFrom(schema: Schema, typ: nat, mem: seq<Byte>, at: nat, end: nat): (r: Outcome)
    requires at <= |mem| && end <= |mem|
    ensures r.Done? ==> at <= r.at <= |mem|
    decreases |mem| - at, 1
  {
    if at + 2 > end then Done([], at)
    else
      match Step(schema, typ, mem, at)
      case BadTurn => Fault
      case Turn(field, next) =>
        match DecodeFrom(schema, typ, mem, next, end)
        case Fault => Fault
        case Done(rest, last) => Done(Given(field) + rest, last)
  }

  // ----- The reference encoder

  function EncodeVarint(n: nat): (b: seq<Byte>)
    ensures b != []
  {
    if n < 128 then [n] else [128 + n % 128] + EncodeVarint(n / 128)
  }

  /** The tag, field number and wire type, is a varint too. */
  function EncodeTag(id: nat, typ: nat): (b: seq<Byte>)
    ensures b != []
  {
    EncodeVarint(8 * id + typ)
  }

  function EncodeField(f: Field): seq<Byte>
    decreases f, 0
  {
    match f
    case Number(id, value) => EncodeTag(id, 0) + EncodeVarint(value)
    case Text(id, data) => EncodeTag(id, 2) + EncodeVarint(|data|) + data
    case Sub(id, fields) => EncodeTag(id, 2) + EncodeVarint(|Encode(fields)|) + Encode(fields)
  }

  function Encode(fields: seq<Field>): seq<Byte>
    decreases fields, 1
  {
    if fields == [] then [] else EncodeField(fields[0]) + Encode(fields[1..])
  }

  /** The field numbers, those of sub-messages too, fit the four bits the decoder reads. */
  predicate SmallIds(fields: seq<Field>)
    decreases fields, 1
  {
    forall f :: f in fields ==> SmallId(f)
  }

  predicate SmallId(f: Field)
    decreases f, 0
  {
    f.id < 16 && (f.Sub? ==> SmallIds(f.fields))
  }

  /** Messages of type typ: 64-bit numbers, sub-messages exactly where the schema has them, and lengths of
      32 bits. */
  predicate Conforms(schema: Schema, typ: nat, fields: seq<Field>)
    decreases fields, 1
  {
    forall f :: f in fields ==> FieldConforms(schema, typ, f)
  }

  predicate FieldConforms(schema: Schema, typ: nat, f: Field)
    decreases f, 0
  {
    match f
    case Number(_, value) => value < UINT64
    case Text(id, data) => (typ, id) !in schema && |data| < UINT32
    case Sub(id, fields) =>
      (typ, id) in schema && Conforms(schema, schema[(typ, id)], fields) && |Encode(fields)| < UINT32
  }

  // ----- Varints round trip

  lemma {:induction false} EncodedVarint(n: nat)
    ensures VarintValue(EncodeVarint(n)) == n
    ensures forall k :: 0 <= k < |EncodeVarint(n)| - 1 ==> EncodeVarint(n)[k] >= 128
    ensures EncodeVarint(n)[|EncodeVarint(n)| - 1] < 128
  {
    if n >= 128 {
      EncodedVarint(n / 128);
      var rest := EncodeVarint(n / 128);
      assert ([128 + n % 128] + rest)[1..] == rest;
    } else {
      assert [n][1..] == [];
    }
  }

  /** 64-bit numbers take at most ten octets. */
  lemma {:induction false} VarintLength(n: nat, k: nat)
    requires n < Pow128(k) && k > 0
    ensures |EncodeVarint(n)| <= k
  {
    if n >= 128 {
      VarintLength(n / 128, k - 1);
    }
  }

  lemma VarintLength64(n: nat)
    requires n < UINT64
    ensures |EncodeVarint(n)| <= 10
  {
    assert Pow128(2) == 16384;
    assert Pow128(4) == 128 * Pow128(3) == 16384 * Pow128(2);
    assert Pow128(6) == 128 * Pow128(5) == 16384 * Pow128(4);
    assert Pow128(8) == 128 * Pow128(7) == 16384 * Pow128(6);
    assert Pow128(10) == 128 * Pow128(9) == 16384 * Pow128(8);
    VarintLength(n, 10);
  }

  /** A run of octets with the continuation bit and one without is found whole. */
  lemma {:induction false} ContinuedFinds(mem: seq<Byte>, i: nat, n: nat)
    requires i + n < |mem| && mem[i + n] < 128 && forall k :: i <= k < i + n ==> mem[k] >= 128
    ensures Continued(mem, i) == Some(n)
    decreases n
  {
    if n > 0 {
      ContinuedFinds(mem, i + 1, n - 1);
    }
  }

  /** An encoded varint in the buffer is scanned to its end and read back. */
  lemma VarintRead(mem: seq<Byte>, i: nat, n: nat)
    requires i + |EncodeVarint(n)| <= |mem| && mem[i..i + |EncodeVarint(n)|] == EncodeVarint(n)
    ensures Continued(mem, i) == Some(|EncodeVarint(n)| - 1)
    ensures VarintValue(mem[i..i + |EncodeVarint(n)|]) == n
  {
    hide EncodeVarint;
    EncodedVarint(n);
    var v := EncodeVarint(n);
    assert forall k :: 0 <= k < |v| ==> mem[i + k] == v[k];
    assert forall k :: i <= k < i + |v| - 1 ==> mem[k] == v[k - i];
    ContinuedFinds(mem, i, |v| - 1);
  }

  // ----- Messages round trip

  /** The head of a field: the tag octet and the varint after it. */
  lemma HeadRead(mem: seq<Byte>, at: nat, tag: Byte, n: nat)
    requires Holds(mem, at, [tag] + EncodeVarint(n))
    ensures at < |mem| && mem[at] == tag && Continued(mem, at + 1) == Some(|EncodeVarint(n)| - 1)
    ensures at + 1 + |EncodeVarint(n)| <= |mem| && VarintValue(mem[at + 1..at + 1 + |EncodeVarint(n)|]) == n
  {
    hide EncodeVarint;
    HoldsParts(mem, at, [tag], EncodeVarint(n));
    assert mem[at..at + 1][0] == tag;
    VarintRead(mem, at + 1, n);
  }

  /** A number in at most ten octets is read modulo 2^64. */
  lemma NumberRead(schema: Schema, typ: nat, mem: seq<Byte>, at: nat, id: nat, n: nat)
    requires id < 16 && |EncodeVarint(n)| <= 10 && Holds(mem, at, [8 * id] + EncodeVarint(n))
    ensures at < |mem| && Step(schema, typ, mem, at) == Turn(Some(Number(id, n % UINT64)), at + 1 + |EncodeVarint(n)|)
  {
    hide EncodeVarint, VarintValue, DecodeFrom, IdOf, TypeOf, Word32;
    HeadRead(mem, at, 8 * id, n);
    TagParts(id, 0);
    hide Holds, Continued;
  }

  /** The length of a string is read modulo 2^32: n need not be the number of octets that follow. */
  lemma TextRead(schema: Schema, typ: nat, mem: seq<Byte>, at: nat, id: nat, n: nat, data: seq<Byte>)
    requires id < 16 && (typ, id) !in schema && n < UINT64 && n % UINT32 == |data|
    requires Holds(mem, at, [8 * id + 2] + EncodeVarint(n) + data)
    ensures at < |mem|
    ensures Step(schema, typ, mem, at) == Turn(Some(Text(id, data)), at + 1 + |EncodeVarint(n)| + |data|)
  {
    hide EncodeVarint, VarintValue, DecodeFrom, Continued, Step;
    var head := [8 * id + 2] + EncodeVarint(n);
    HoldsParts(mem, at, head, data);
    HeadRead(mem, at, 8 * id + 2, n);
    VarintLength64(n);
    var start := at + |head|;
    assert mem[start..start + |data|] == data;
    hide Holds;
    TextStep(schema, typ, mem, at, id, start, n, data);
  }

  /** A turn on a string that is no sub-message, after its length in a varint that ends at start. */
  lemma TextStep(schema: Schema, typ: nat, mem: seq<Byte>, at: nat, id: nat, start: nat, n: nat, data: seq<Byte>)
    requires id < 16 && (typ, id) !in schema && n < UINT64 && n % UINT32 == |data| && at + 1 < start <= at + 11
    requires start + |data| <= |mem| && mem[start..start + |data|] == data
    requires mem[at] == 8 * id + 2 && Continued(mem, at + 1) == Some(start - at - 2)
    requires VarintValue(mem[at + 1..start]) == n
    ensures Step(schema, typ, mem, at) == Turn(Some(Text(id, data)), start + |data|)
  {
    hide VarintValue, DecodeFrom, Continued, IdOf, TypeOf, Word64, Word32;
    TagParts(id, 2);
    LengthWord(n);
    assert at + 1 + (start - at - 2 + 1) == start;
  }

  lemma SubRead(schema: Schema, typ: nat, mem: seq<Byte>, at: nat, id: nat, n: nat, fields: seq<Field>)
    requires id < 16 && (typ, id) in schema && n < UINT32
    requires Holds(mem, at, [8 * id + 2] + EncodeVarint(n))
    requires at + 1 + |EncodeVarint(n)| + n <= |mem|
    requires var start := at + 1 + |EncodeVarint(n)|;
      DecodeFrom(schema, schema[(typ, id)], mem, start, start + n) == Done(fields, start + n)
    ensures at < |mem| && Step(schema, typ, mem, at) == Turn(Some(Sub(id, fields)), at + 1 + |EncodeVarint(n)| + n)
  {
    hide EncodeVarint, VarintValue, DecodeFrom, Continued, Step;
    HeadRead(mem, at, 8 * id + 2, n);
    VarintLength64(n);
    hide Holds;
    SubStep(schema, typ, mem, at, id, |EncodeVarint(n)|, n, fields);
  }

  /** A turn on a sub-message, its length in a varint of k octets. */
  lemma SubStep(schema: Schema, typ: nat, mem: seq<Byte>, at: nat, id: nat, k: nat, n: nat, fields: seq<Field>)
    requires id < 16 && (typ, id) in schema && n < UINT32 && 0 < k <= 10 && at + 1 + k + n <= |mem|
    requires mem[at] == 8 * id + 2 && Continued(mem, at + 1) == Some(k - 1)
    requires VarintValue(mem[at + 1..at + 1 + k]) == n
    requires var start := at + 1 + k;
      DecodeFrom(schema, schema[(typ, id)], mem, start, start + n) == Done(fields, start + n)
    ensures Step(schema, typ, mem, at) == Turn(Some(Sub(id, fields)), at + 1 + k + n)
  {
    hide VarintValue, DecodeFrom, Continued, IdOf, TypeOf, Word64, Word32;
    TagParts(id, 2);
    FitsInWord(n);
  }

  lemma {:induction false} StepReads(schema: Schema, typ: nat, mem: seq<Byte>, at: nat, f: Field)
    requires FieldConforms(schema, typ, f) && SmallId(f) && Holds(mem, at, EncodeField(f))
    ensures |EncodeField(f)| >= 2
    ensures at < |mem| && Step(schema, typ, mem, at) == Turn(Some(f), at + |EncodeField(f)|)
    decreases f, 0
  {
    hide EncodeVarint, VarintValue, Step, DecodeFrom;
    SmallTag(f.id, 0);
    SmallTag(f.id, 2);
    match f
    case Number(id, value) => VarintLength64(value); NumberRead(schema, typ, mem, at, id, value);
    case Text(id, data) => TextRead(schema, typ, mem, at, id, |data|, data);
    case Sub(id, fields) =>
      var b := Encode(fields);
      HoldsParts(mem, at, [8 * id + 2] + EncodeVarint(|b|), b);
      DecodeReads(schema, schema[(typ, id)], mem, at + 1 + |EncodeVarint(|b|)|, fields);
      SubRead(schema, typ, mem, at, id, |b|, fields);
  }

  lemma SmallTag(id: nat, typ: nat)
    requires id < 16 && typ < 8
    ensures EncodeTag(id, typ) == [8 * id + typ]
  {
  }

  lemma ConformsRest(schema: Schema, typ: nat, fields: seq<Field>)
    requires Conforms(schema, typ, fields) && SmallIds(fields) && fields != []
    ensures FieldConforms(schema, typ, fields[0]) && SmallId(fields[0])
    ensures Conforms(schema, typ, fields[1..]) && SmallIds(fields[1..])
  {
    hide FieldConforms, SmallId;
    assert fields[0] in fields && forall g :: g in fields[1..] ==> g in fields;
  }

  /** Decoding undoes encoding, wherever in the buffer the message stands: every setField call in
      order, sub-messages rebuilt, and every octet consumed. */
  lemma {:induction false} DecodeReads(schema: Schema, typ: nat, mem: seq<Byte>, at: nat, fields: seq<Field>)
    requires Conforms(schema, typ, fields) && SmallIds(fields) && Holds(mem, at, Encode(fields))
    ensures DecodeFrom(schema, typ, mem, at, at + |Encode(fields)|) == Done(fields, at + |Encode(fields)|)
    decreases fields, 1
  {
    hide EncodeField, Step, Conforms, SmallIds, FieldConforms, Holds;
    if fields != [] {
      var f, rest := fields[0], fields[1..];
      ConformsRest(schema, typ, fields);
      HoldsParts(mem, at, EncodeField(f), Encode(rest));
      StepReads(schema, typ, mem, at, f);
      DecodeReads(schema, typ, mem, at + |EncodeField(f)|, rest);
      assert fields == [f] + rest;
    }
  }

  /** Nothing the decoder reports has a field number of 16 or more, whatever the buffer holds. */
  lemma {:induction false} StepIds(schema: Schema, typ: nat, mem: seq<Byte>, at: nat)
    requires at < |mem|
    ensures var t := Step(schema, typ, mem, at); t.Turn? && t.field.Some? ==> SmallId(t.field.value)
    decreases |mem| - at, 0
  {
    hide DecodeFrom, VarintValue, Continued, Word64, Word32;
    var t, id := Step(schema, typ, mem, at), IdOf(mem[at]);
    if t.Turn? && t.field.Some? && t.field.value.Sub? {
      var valLen := Continued(mem, at + 1).value + 1;
      var next := at + 1 + valLen;
      var strLen := Word32(Word64(VarintValue(mem[at + 1..next])));
      DecodedIds(schema, schema[(typ, id)], mem, next, next + strLen);
    }
  }

  lemma {:induction false} DecodedIds(schema: Schema, typ: nat, mem: seq<Byte>, at: nat, end: nat)
    requires at <= |mem| && end <= |mem|
    ensures var r := DecodeFrom(schema, typ, mem, at, end); r.Done? ==> SmallIds(r.fields)
    decreases |mem| - at, 1
  {
    hide Step, SmallId;
    if at + 2 <= end && Step(schema, typ, mem, at).Turn? {
      StepIds(schema, typ, mem, at);
      DecodedIds(schema, typ, mem, Step(schema, typ, mem, at).next, end);
    }
  }

  /** A message in the wire format's own encoding is decoded as itself, and every octet of it consumed, exactly
      when no field number in it is 16 or more. */
  lemma RoundTripExactly(schema: Schema, typ: nat, mem: seq<Byte>, at: nat, fields: seq<Field>)
    requires Conforms(schema, typ, fields) && Holds(mem, at, Encode(fields))
    ensures DecodeFrom(schema, typ, mem, at, at + |Encode(fields)|) == Done(fields, at + |Encode(fields)|)
      <==> SmallIds(fields)
  {
    hide DecodeFrom, Conforms, SmallIds, Encode;
    if SmallIds(fields) {
      DecodeReads(schema, typ, mem, at, fields);
    } else {
      DecodedIds(schema, typ, mem, at, at + |Encode(fields)|);
    }
  }

  /** The number 0 in field 16: its tag takes two octets, and the decoder reads the number 1 in field 0. */
  lemma FieldSixteen(schema: Schema, typ: nat)
    ensures Encode([Number(16, 0)]) == [128, 1, 0]
    ensures DecodeFrom(schema, typ, Encode([Number(16, 0)]), 0, 3) == Done([Number(0, 1)], 2)
  {
    var mem: seq<Byte> := [128, 1, 0];
    assert EncodeTag(16, 0) == [128] + EncodeVarint(1) == [128, 1];
    assert [Number(16, 0)][1..] == [];
    assert Encode([Number(16, 0)]) == [128, 1] + [0] + [] == mem;
    assert mem[1..2] == [1] && [1][1..] == [];
    assert VarintValue(mem[1..2]) == 1;
  }

  /** Of a field of another wire type only the tag is passed: the very next octet is read as a tag again, as long
      as a varint could follow the tag at all. */
  lemma OtherTypesAreEntered(schema: Schema, typ: nat, mem: seq<Byte>, at: nat, end: nat)
    requires at + 2 <= end <= |mem| && TypeOf(mem[at]) != 0 && TypeOf(mem[at]) != 2
    ensures DecodeFrom(schema, typ, mem, at, end)
         == if Continued(mem, at + 1).None? then Fault else DecodeFrom(schema, typ, mem, at + 1, end)
  {
    hide VarintValue, TypeOf, IdOf, Word64, Word32, Continued;
    var rest := DecodeFrom(schema, typ, mem, at + 1, end);
    assert rest.Done? ==> [] + rest.fields == rest.fields;
  }

  /** Four octets of a fixed-width field in field 1, read as the numbers 1 and 2 in field 1. */
  lemma FixedWidthField(schema: Schema, typ: nat)
    ensures DecodeFrom(schema, typ, [13, 8, 1, 8, 2], 0, 5) == Done([Number(1, 1), Number(1, 2)], 5)
  {
    hide DecodeFrom, Encode, Conforms, SmallIds;
    var mem: seq<Byte> := [13, 8, 1, 8, 2];
    assert Continued(mem, 1) == Some(0);
    OtherTypesAreEntered(schema, typ, mem, 0, 5);
    assert mem[1..5] == [8, 1, 8, 2];
    TwoNumbers();
    TwoNumbersConform(schema, typ);
    DecodeReads(schema, typ, mem, 1, [Number(1, 1), Number(1, 2)]);
  }

  lemma TwoNumbersConform(schema: Schema, typ: nat)
    ensures Conforms(schema, typ, [Number(1, 1), Number(1, 2)]) && SmallIds([Number(1, 1), Number(1, 2)])
  {
  }

  lemma TwoNumbers()
    ensures Encode([Number(1, 1), Number(1, 2)]) == [8, 1, 8, 2]
  {
    assert [Number(1, 1), Number(1, 2)][1..] == [Number(1, 2)] && [Number(1, 2)][1..] == [];
    assert EncodeField(Number(1, 1)) == [8] + [1] && EncodeField(Number(1, 2)) == [8] + [2];
  }

  lemma Regroup<T>(a: seq<T>, b: seq<T>, c: seq<T>)
    ensures a + (b + c) == (a + b) + c
  {
  }

  /** Two stretches of fields, the first ending exactly where the second begins, decode to the fields
      of both: for any buffer, padded varints and unknown wire types included. */
  lemma {:induction false} DecodeComposes(schema: Schema, typ: nat, mem: seq<Byte>, at: nat, mid: nat, end: nat)
    requires at <= mid <= end <= |mem|
    requires DecodeFrom(schema, typ, mem, at, mid).Done? && DecodeFrom(schema, typ, mem, at, mid).at == mid
    ensures DecodeFrom(schema, typ, mem, at, end) ==
      match DecodeFrom(schema, typ, mem, mid, end)
      case Fault => Fault
      case Done(rest, last) => Done(DecodeFrom(schema, typ, mem, at, mid).fields + rest, last)
    decreases mid - at
  {
    hide Step;
    if at + 2 <= mid {
      var t := Step(schema, typ, mem, at);
      DecodeComposes(schema, typ, mem, t.next, mid, end);
      var head := Given(t.field);
      var first := DecodeFrom(schema, typ, mem, t.next, mid);
      var second := DecodeFrom(schema, typ, mem, mid, end);
      if second.Done? {
        Regroup(head, first.fields, second.fields);
      }
    }
  }

  // ----- The class

  function Prepend(fields: seq<Field>, o: Outcome): Outcome {
    match o
    case Fault => Fault
    case Done(rest, at) => Done(fields + rest, at)
  }

  /** One turn of the loop moves a field over to what has been decoded. */
  lemma DecodeTurns(schema: Schema, typ: nat, mem: seq<Byte>, at: nat, end: nat, got: seq<Field>)
    requires at <= |mem| && end <= |mem|
    ensures Prepend(got, DecodeFrom(schema, typ, mem, at, end)) ==
      if at + 2 > end then Done(got, at)
      else if Step(schema, typ, mem, at).BadTurn? then Fault
      else
        var t := Step(schema, typ, mem, at);
        Prepend(got + Given(t.field), DecodeFrom(schema, typ, mem, t.next, end))
  {
    hide Step;
    if at + 2 <= end {
      var t := Step(schema, typ, mem, at);
      if t.Turn? {
        var rest := DecodeFrom(schema, typ, mem, t.next, end);
        if rest.Done? {
          assert got + (Given(t.field) + rest.fields) == got + Given(t.field) + rest.fields;
        }
      }
    }
  }

  /** A message whose setField overrides keep every field they are given, in order. */
  class Message {
    const schema: Schema
    const typ: nat
    var fields: seq<Field>

    constructor (schema: Schema, typ: nat)
      ensures this.schema == schema && this.typ == typ && fields == []
    {
      this.schema := schema;
      this.typ := typ;
      fields := [];
    }

    /** At most ten octets: from the eleventh on the shift is undefined. */
    static method DecodeUint64(buf: array<Byte>, at: nat, bufLen: nat) returns (res: nat)
      requires at + bufLen <= buf.Length && bufLen <= 10
      ensures res == Word64(VarintValue(buf[at..at + bufLen]))
    {
      res := 0;
      ghost var sum := 0;
      var i := 0;
      while i < bufLen
        invariant 0 <= i <= bufLen
        invariant sum == VarintValue(buf[at..at + i]) && res == sum % UINT64
      {
        ghost var term := (buf[at + i] % 128) * Pow128(i);
        assert buf[at..at + i + 1] == buf[at..at + i] + [buf[at + i]];
        VarintValueAppend(buf[at..at + i], buf[at + i]);
        SumWraps(sum, term);
        var val := Shifted(buf[at + i] % 128, i);
        res := (res + val) % UINT64;
        sum := sum + term;
        i := i + 1;
      }
    }

    method SetNumber(id: nat, value: nat)
      modifies this
      ensures fields == old(fields) + [Number(id, value)]
    {
      fields := fields + [Number(id, value)];
    }

    /** want: the answer WantSubMessage. */
    method SetText(id: nat, data: seq<Byte>) returns (want: bool)
      modifies this
      ensures want <==> (typ, id) in schema
      ensures fields == if want then old(fields) else old(fields) + [Text(id, data)]
    {
      want := (typ, id) in schema;
      if !want {
        fields := fields + [Text(id, data)];
      }
    }

    method SetSub(id: nat, buf: array<Byte>, at: nat, len: nat) returns (fault: bool)
      requires (typ, id) in schema && at + len <= buf.Length < UINT32 - 2
      modifies this
      ensures match DecodeFrom(schema, schema[(typ, id)], buf[..], at, at + len)
        case Fault => fault
        case Done(fs, _) => !fault && fields == old(fields) + [Sub(id, fs)]
      decreases buf.Length - at, 3
    {
      var message := new Message(schema, schema[(typ, id)]);
      var parsed;
      fault, parsed := message.Decode(buf, at, len);
      if !fault {
        fields := fields + [Sub(id, message.fields)];
        ghost var fs := DecodeFrom(schema, schema[(typ, id)], buf[..], at, at + len).fields;
        assert [] + fs == fs;
      }
    }

    /** The scan for the last octet of a varint. */
    static method ScanVarint(buf: array<Byte>, at: nat) returns (fault: bool, valLen: nat)
      requires at <= buf.Length
      ensures fault <==> Continued(buf[..], at).None?
      ensures !fault ==> valLen == Continued(buf[..], at).value + 1
    {
      fault, valLen := false, 0;
      while at + valLen < buf.Length && buf[at + valLen] >= 128
        invariant at + valLen <= buf.Length
        invariant forall k :: at <= k < at + valLen ==> buf[k] >= 128
      {
        valLen := valLen + 1;
      }
      if at + valLen == buf.Length {
        ContinuedEnds(buf[..], at);
        fault := true;
      } else {
        ContinuedFinds(buf[..], at, valLen);
        valLen := valLen + 1;
      }
    }

    /** A string field: as text, and again as bytes if it is a sub-message. */
    method TakeText(id: nat, buf: array<Byte>, at: nat, strLen: nat) returns (fault: bool)
      requires at + strLen <= buf.Length < UINT32 - 2
      modifies this
      ensures (typ, id) !in schema ==> !fault && fields == old(fields) + [Text(id, buf[..][at..at + strLen])]
      ensures (typ, id) in schema ==>
        match DecodeFrom(schema, schema[(typ, id)], buf[..], at, at + strLen)
        case Fault => fault
        case Done(fs, _) => !fault && fields == old(fields) + [Sub(id, fs)]
      decreases buf.Length - at, 4
    {
      fault := false;
      assert buf[..][at..at + strLen] == buf[at..at + strLen];
      var want := SetText(id, buf[at..at + strLen]);
      if want {
        fault := SetSub(id, buf, at, strLen);
      }
    }

    /** One turn of the loop in decode. */
    method TakeTurn(buf: array<Byte>, at: nat) returns (fault: bool, next: nat)
      requires at < buf.Length < UINT32 - 2
      modifies this
      ensures fault <==> Step(schema, typ, buf[..], at).BadTurn?
      ensures !fault ==> next == Step(schema, typ, buf[..], at).next
      ensures !fault ==> fields == old(fields) + Given(Step(schema, typ, buf[..], at).field)
      decreases buf.Length - at, 1
    {
      hide DecodeFrom, VarintValue, Continued, IdOf, TypeOf, Word64, Word32;
      fault := false;
      var id, valType := IdOf(buf[at]), TypeOf(buf[at]);
      next := at + 1;
      var valLen;
      fault, valLen := ScanVarint(buf, next);
      if fault {
        return;
      }
      if valType == 0 || valType == 2 {
        if valLen > 10 {
          return true, next;
        }
        assert buf[..][next..next + valLen] == buf[next..next + valLen];
      }
      if valType == 0 {
        var val := DecodeUint64(buf, next, valLen);
        next := next + valLen;
        SetNumber(id, val);
      }
      if valType == 2 {
        fault, next := TakeLengthDelimited(id, buf, next, valLen);
      }
    }

    /** The branch for wire type 2. */
    method TakeLengthDelimited(id: nat, buf: array<Byte>, at: nat, valLen: nat) returns (fault: bool, next: nat)
      requires at + valLen <= buf.Length < UINT32 - 2 && 0 < valLen <= 10
      modifies this
      ensures var start := at + valLen;
        var strLen := Word32(Word64(VarintValue(buf[..][at..start])));
        next == start + strLen && (start + strLen > buf.Length ==> fault && fields == old(fields))
      ensures var start := at + valLen;
        var strLen := Word32(Word64(VarintValue(buf[..][at..start])));
        start + strLen <= buf.Length && (typ, id) !in schema ==>
          !fault && fields == old(fields) + [Text(id, buf[..][start..start + strLen])]
      ensures var start := at + valLen;
        var strLen := Word32(Word64(VarintValue(buf[..][at..start])));
        start + strLen <= buf.Length && (typ, id) in schema ==>
          match DecodeFrom(schema, schema[(typ, id)], buf[..], start, start + strLen)
          case Fault => fault
          case Done(sub, _) => !fault && fields == old(fields) + [Sub(id, sub)]
      decreases buf.Length - at, 1
    {
      hide DecodeFrom, VarintValue, Continued, Word64, Word32;
      assert buf[..][at..at + valLen] == buf[at..at + valLen];
      var strLen := DecodeUint64(buf, at, valLen);
      strLen := Word32(strLen);
      next := at + valLen + strLen;
      if next > buf.Length {
        return true, next;
      }
      fault := TakeText(id, buf, at + valLen, strLen);
    }

    /** Message::decode on the bufLen bytes at start. */
    method Decode(buf: array<Byte>, start: nat, bufLen: nat) returns (fault: bool, bytesParsed: nat)
      requires start + bufLen <= buf.Length < UINT32 - 2
      modifies this
      ensures match DecodeFrom(schema, typ, buf[..], start, start + bufLen)
        case Fault => fault
        case Done(fs, at) => !fault && fields == old(fields) + fs && bytesParsed == at - start
      decreases buf.Length - start, 2
    {
      hide Step;
      var at, end := start, start + bufLen;
      ghost var got: seq<Field> := [];
      fault, bytesParsed := false, 0;
      DecodeTurns(schema, typ, buf[..], at, end, got);
      while at + 2 <= end
        invariant start <= at <= buf.Length && end == start + bufLen
        invariant fields == old(fields) + got
        invariant Prepend([], DecodeFrom(schema, typ, buf[..], start, end))
          == Prepend(got, DecodeFrom(schema, typ, buf[..], at, end))
        decreases buf.Length - at
      {
        DecodeTurns(schema, typ, buf[..], at, end, got);
        var next;
        fault, next := TakeTurn(buf, at);
        if fault {
          return;
        }
        got := got + Given(Step(schema, typ, buf[..], at).field);
        at := next;
      }
      DecodeTurns(schema, typ, buf[..], at, end, got);
      bytesParsed := at - start;
    }
  }

  lemma {:induction false} ContinuedEnds(mem: seq<Byte>, i: nat)
    requires i <= |mem| && forall k :: i <= k < |mem| ==> mem[k] >= 128
    ensures Continued(mem, i) == None
    decreases |mem| - i
  {
    if i < |mem| {
      ContinuedEnds(mem, i + 1);
    }
  }

  /** Two encoded messages, one after the other, decode to the fields of both, every octet consumed. */
  lemma ConcatenationDecodes(schema: Schema, typ: nat, first: seq<Field>, second: seq<Field>)
    requires Conforms(schema, typ, first) && SmallIds(first) && Conforms(schema, typ, second) && SmallIds(second)
    ensures var mem := Encode(first) + Encode(second);
      DecodeFrom(schema, typ, mem, 0, |mem|) == Done(first + second, |mem|)
  {
    hide Conforms, SmallIds, DecodeFrom, Encode;
    var a, b := Encode(first), Encode(second);
    var mem := a + b;
    HoldsParts(mem, 0, a, b);
    assert Holds(mem, 0, mem);
    DecodeReads(schema, typ, mem, 0, first);
    DecodeReads(schema, typ, mem, |a|, second);
    DecodeComposes(schema, typ, mem, 0, |a|, |mem|);
  }
}
