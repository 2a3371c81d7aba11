/** The JSON decoder of encoding/fwoop_json.cpp.  A buffer is a string of bytes; mem is all the memory
    that may be read from the buffer on, and a read beyond it is undefined behaviour: a fault. */
module Json {
  import opened CLibrary

  const UINT32 := 0x1_0000_0000
  const INT_MIN := -0x8000_0000
  const INT_MAX := 0x7FFF_FFFF

  /** JsonValue_t.  A double is known by its text only. */
  datatype Value =
    | Str(s: string)
    | Int(i: int)
    | Double(token: string)
    | Bool(b: bool)
    | Arr(items: seq<Value>)
    | Obj(members: map<string, Value>)

  // ----- Scanning

  datatype Scan = ScanFault | At(index: nat)

  /** while (isWhitespace(bytes[index])) index++ */
  function SkipSpaces(mem: string, i: nat): (r: Scan)
    ensures r.At? ==> i <= r.index < |mem| && mem[r.index] != ' ' && forall k :: i <= k < r.index ==> mem[k] == ' '
    decreases |mem| - i
  {
    if i >= |mem| then ScanFault else if mem[i] == ' ' then SkipSpaces(mem, i + 1) else At(i)
  }

  /** while (index < bytesLen && isspace(bytes[index])) index++, up to end */
  function SkipBlank(mem: string, i: nat, end: nat): (r: Scan)
    ensures r.At? ==> i <= r.index && (r.index < end ==> r.index < |mem| && !IsSpace(mem[r.index]))
    decreases |mem| - i
  {
    if i >= end then At(i)
    else if i >= |mem| then ScanFault
    else if IsSpace(mem[i]) then SkipBlank(mem, i + 1, end)
    else At(i)
  }

  /** The same with the two tests the other way round: the byte at end is read too. */
  function SkipBlankFirst(mem: string, i: nat, end: nat): (r: Scan)
    ensures r.At? ==> i <= r.index < |mem| && (r.index < end ==> !IsSpace(mem[r.index]))
    decreases |mem| - i
  {
    if i >= |mem| then ScanFault
    else if IsSpace(mem[i]) && i < end then SkipBlankFirst(mem, i + 1, end)
    else At(i)
  }

  predicate EndsToken(c: char) { c == ' ' || c == ',' || c == '}' || c == ']' }

  /** The end of a bare int, bool or double. */
  function TokenEnd(mem: string, i: nat): (r: Scan)
    ensures r.At? ==> i <= r.index < |mem| && EndsToken(mem[r.index])
    ensures r.At? ==> forall k :: i <= k < r.index ==> !EndsToken(mem[k])
    decreases |mem| - i
  {
    if i >= |mem| then ScanFault else if EndsToken(mem[i]) then At(i) else TokenEnd(mem, i + 1)
  }

  /** while (QUOTE != bytes[index] && index < bytesLen) index++, up to end */
  function QuoteEnd(mem: string, i: nat, end: nat): (r: Scan)
    ensures r.At? ==> i <= r.index < |mem| && (forall k :: i <= k < r.index ==> mem[k] != '"')
    ensures r.At? ==> mem[r.index] == '"' || r.index >= end
    decreases |mem| - i
  {
    if i >= |mem| then ScanFault
    else if mem[i] != '"' && i < end then QuoteEnd(mem, i + 1, end)
    else At(i)
  }

  /** A decoded part: what it is and how many bytes the caller is told were parsed. */
  datatype Part<+T> = PartFault | Part(value: T, parsed: nat)

  /** decodeString on the bytesLen bytes at pos. */
  function DecodeString(mem: string, pos: nat, len: nat): (r: Part<string>)
    ensures r.Part? ==> pos + r.parsed <= |mem| && '"' !in r.value && (r.value != "" ==> r.parsed == |r.value| + 2)
  {
    if pos >= |mem| then PartFault
    else if mem[pos] != '"' then Part("", 0)
    else
      match QuoteEnd(mem, pos + 1, pos + len)
      case ScanFault => PartFault
      case At(i) => if i == pos + len then Part("", 0) else Part(mem[pos + 1..i], i - pos + 1)
  }

  // ----- Scalars

  /** decodeDouble's loop accepts digits and points, after a leading minus sign. */
  predicate DoubleText(s: string) {
    forall i :: 0 <= i < |s| ==> IsDigit(s[i]) || s[i] == '.' || (i == 0 && s[i] == '-')
  }

  datatype Scalar = ScalarFault | NoScalar | Scalar(value: Value)

  /** decodeDouble; its loop variable is a byte.  After 255 it is 0 again: a leading minus sign is then
      no digit, and without one more than 255 accepted bytes never end. */
  function DoubleScalar(s: string): Scalar
    requires s != ""
  {
    if |s| <= 255 then (if DoubleText(s) then Scalar(Double(s)) else NoScalar)
    else if s[0] != '-' && DoubleText(s[..256]) then ScalarFault
    else NoScalar
  }

  /** decodeBool, else decodeInt, else decodeDouble, on the whole token; atoi is undefined out of int's range. */
  function DecodeScalar(s: string): (r: Scalar)
    requires s != ""
    ensures r.Scalar? ==> r.value.Bool? || r.value.Int? || r.value.Double?
  {
    if s == "true" then Scalar(Bool(true))
    else if s == "false" then Scalar(Bool(false))
    else if |s| == 1 && IsDigit(s[0]) then Scalar(Int(Digit(s[0])))
    else if '.' in s then DoubleScalar(s)
    else if Atoi(s) < INT_MIN || Atoi(s) > INT_MAX then ScalarFault
    else if Atoi(s) != 0 then Scalar(Int(Atoi(s)))
    else DoubleScalar(s)
  }

  // ----- Values, arrays and objects

  /** bytesLen - index in uint32_t */
  function Remaining(len: nat, index: nat): nat { (len - index) % UINT32 }

  /** decodeValue: for a bare scalar the caller is told that nothing was parsed. */
  function DecodeValue(mem: string, pos: nat, len: nat): (r: Part<Value>)
    ensures r.Part? ==> pos + r.parsed <= |mem|
    decreases |mem| - pos, 2
  {
    if pos >= |mem| then PartFault
    else if mem[pos] == '"' then
      match DecodeString(mem, pos, len)
      case PartFault => PartFault
      case Part(s, n) => if s == "" then Part(Str(""), 0) else Part(Str(s), n)
    else if mem[pos] == '[' then
      match DecodeArray(mem, pos, len)
      case PartFault => PartFault
      case Part(items, n) => Part(Arr(items), n)
    else if mem[pos] == '{' then
      match DecodeObject(mem, pos, len)
      case PartFault => PartFault
      case Part(members, n) => Part(Obj(members), n)
    else
      match TokenEnd(mem, pos + 1)
      case ScanFault => PartFault
      case At(end) =>
        match DecodeScalar(mem[pos..end])
        case ScalarFault => PartFault
        case NoScalar => Part(Str(""), 0)
        case Scalar(v) => Part(v, 0)
  }

  /** JsonArray::decode: the elements stored and bytesParsed, on success and on failure alike. */
  function DecodeArray(mem: string, pos: nat, len: nat): (r: Part<seq<Value>>)
    ensures r.Part? ==> pos + r.parsed <= |mem|
    decreases |mem| - pos, 1
  {
    if len == 0 then (if pos <= |mem| then Part([], 0) else PartFault)
    else
      match SkipBlankFirst(mem, pos, pos + len)
      case ScanFault => PartFault
      case At(start) =>
        if start >= pos + len || mem[start] != '[' then Part([], start - pos)
        else
          match SkipBlankFirst(mem, start + 1, pos + len)
          case ScanFault => PartFault
          case At(first) => if first >= pos + len then Part([], first - pos) else ArrayItems(mem, pos, len, first, [])
  }

  /** One turn of a do-while loop: it ends decode, or leads to the next turn. */
  datatype Turn<+T> = TurnFault | Stop(result: T, parsed: nat) | More(result: T, at: nat)

  /** One element of JsonArray::decode, at position at, with items stored so far. */
  function ElementTurn(mem: string, pos: nat, len: nat, at: nat, items: seq<Value>): (r: Turn<seq<Value>>)
    requires pos < at <= |mem|
    ensures r.Stop? ==> pos + r.parsed <= |mem|
    ensures r.More? ==> at < r.at <= |mem|
    decreases |mem| - at, 3
  {
    match SkipBlank(mem, at, pos + len)
    case ScanFault => TurnFault
    case At(i) =>
      match DecodeValue(mem, i, Remaining(len, i - pos))
      case PartFault => TurnFault
      case Part(v, n) =>
        if n == 0 then Stop(items, i - pos)
        else if i + n >= pos + len then Stop(items + [v], i + n - pos)
        else if i + n >= |mem| then TurnFault
        else if mem[i + n] == ',' then More(items + [v], i + n + 1)
        else
          match SkipBlank(mem, i + n, pos + len)
          case ScanFault => TurnFault
          case At(close) =>
            if close > |mem| then TurnFault
            else if close >= pos + len || mem[close] != ']' then Stop(items + [v], close - pos)
            else Stop(items + [v], close - pos + 1)
  }

  /** The do-while loop of JsonArray::decode. */
  function ArrayItems(mem: string, pos: nat, len: nat, at: nat, items: seq<Value>): (r: Part<seq<Value>>)
    requires pos < at <= |mem|
    ensures r.Part? ==> pos + r.parsed <= |mem|
    decreases |mem| - at, 4
  {
    match ElementTurn(mem, pos, len, at, items)
    case TurnFault => PartFault
    case Stop(all, n) => Part(all, n)
    case More(more, next) => ArrayItems(mem, pos, len, next, more)
  }

  /** d_valueMap.insert: the first value of a key stays. */
  function Inserted(members: map<string, Value>, key: string, v: Value): map<string, Value> {
    if key in members then members else members[key := v]
  }

  /** JsonObject::decode. */
  function DecodeObject(mem: string, pos: nat, len: nat): (r: Part<map<string, Value>>)
    ensures r.Part? ==> pos + r.parsed <= |mem|
    decreases |mem| - pos, 1
  {
    match SkipSpaces(mem, pos)
    case ScanFault => PartFault
    case At(start) =>
      if mem[start] != '{' then Part(map[], start - pos) else ObjectMembers(mem, pos, len, start + 1, map[])
  }

  /** The value of a member: parsed is 0 where decode gives up. */
  function MemberValue(mem: string, pos: nat, len: nat, at: nat): (r: Part<Value>)
    requires pos <= at < |mem|
    ensures r.Part? ==> at + r.parsed <= |mem|
    decreases |mem| - at, 2
  {
    if mem[at] == '"' then
      match DecodeString(mem, at, Remaining(len, at - pos))
      case PartFault => PartFault
      case Part(s, n) => if s == "" then Part(Str(""), 0) else Part(Str(s), n)
    else if mem[at] == '[' then
      match DecodeArray(mem, at, Remaining(len, at - pos))
      case PartFault => PartFault
      case Part(items, n) => Part(Arr(items), n)
    else if mem[at] == '{' then
      match DecodeObject(mem, at, Remaining(len, at - pos))
      case PartFault => PartFault
      case Part(members, n) => Part(Obj(members), n)
    else
      match TokenEnd(mem, at + 1)
      case ScanFault => PartFault
      case At(end) =>
        match DecodeScalar(mem[at..end])
        case ScalarFault => PartFault
        case NoScalar => Part(Str(""), 0)
        case Scalar(v) => Part(v, end - at)
  }

  /** A key, a colon and the start of the value. */
  datatype Head = HeadFault | NoHead(parsed: nat) | Head(key: string, start: nat)

  function MemberHead(mem: string, pos: nat, len: nat, at: nat): (r: Head)
    requires pos < at <= |mem|
    ensures r.NoHead? ==> pos + r.parsed <= |mem|
    ensures r.Head? ==> at < r.start < |mem| && r.key != "" && '"' !in r.key
  {
    match SkipSpaces(mem, at)
    case ScanFault => HeadFault
    case At(i) =>
      match DecodeString(mem, i, Remaining(len, i - pos))
      case PartFault => HeadFault
      case Part(key, n) =>
        if key == "" then NoHead(i - pos)
        else
          match SkipSpaces(mem, i + n)
          case ScanFault => HeadFault
          case At(colon) =>
            if mem[colon] != ':' then NoHead(colon - pos)
            else
              match SkipSpaces(mem, colon + 1)
              case ScanFault => HeadFault
              case At(start) => Head(key, start)
  }

  /** One member of JsonObject::decode, at position at, with members stored so far. */
  function MemberTurn(mem: string, pos: nat, len: nat, at: nat, members: map<string, Value>)
    : (r: Turn<map<string, Value>>)
    requires pos < at <= |mem|
    ensures r.Stop? ==> pos + r.parsed <= |mem|
    ensures r.More? ==> at < r.at <= |mem|
    decreases |mem| - at, 3
  {
    match MemberHead(mem, pos, len, at)
    case HeadFault => TurnFault
    case NoHead(n) => Stop(members, n)
    case Head(key, start) =>
      match MemberValue(mem, pos, len, start)
      case PartFault => TurnFault
      case Part(v, k) => if k == 0 then Stop(members, start - pos)
        else AfterMember(mem, pos, len, start + k, Inserted(members, key, v))
  }

  /** After a member: a comma and the next one, or the end of the object. */
  function AfterMember(mem: string, pos: nat, len: nat, at: nat, members: map<string, Value>)
    : (r: Turn<map<string, Value>>)
    requires pos < at <= |mem|
    ensures r.Stop? ==> pos + r.parsed <= |mem|
    ensures r.More? ==> at < r.at <= |mem|
  {
    match SkipSpaces(mem, at)
    case ScanFault => TurnFault
    case At(i) =>
      if mem[i] == ',' && i - pos < len then More(members, i + 1)
      else
        var last := if mem[i] == ',' then i + 1 else i;
        if last >= |mem| then TurnFault
        else if mem[last] == '}' then Stop(members, last - pos + 1)
        else Stop(members, last - pos)
  }

  /** The do-while loop of JsonObject::decode. */
  function ObjectMembers(mem: string, pos: nat, len: nat, at: nat, members: map<string, Value>)
    : (r: Part<map<string, Value>>)
    requires pos < at <= |mem|
    ensures r.Part? ==> pos + r.parsed <= |mem|
    decreases |mem| - at, 4
  {
    match MemberTurn(mem, pos, len, at, members)
    case TurnFault => PartFault
    case Stop(all, n) => Part(all, n)
    case More(more, next) => ObjectMembers(mem, pos, len, next, more)
  }
}
