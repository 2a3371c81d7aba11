/** The methods of encoding/fwoop_json.cpp: decoding loops that move an index and fill d_arr and
    d_valueMap, proved to compute what the functions of Json say, and encoding loops that fill a buffer
    with what the functions of JsonEncoding say. */
module JsonCodec {
  import opened CLibrary
  import opened Json
  import opened JsonEncoding

  // ----- Scanning loops

  method PassSpaces(buf: array<char>, from: nat) returns (fault: bool, index: nat)
    ensures match SkipSpaces(buf[..], from) case ScanFault => fault case At(i) => !fault && index == i
  {
    ghost var mem := buf[..];
    fault, index := false, from;
    while index < buf.Length && buf[index] == ' '
      invariant SkipSpaces(mem, from) == SkipSpaces(mem, index)
    {
      index := index + 1;
    }
    fault := index >= buf.Length;
  }

  method PassBlank(buf: array<char>, from: nat, end: nat) returns (fault: bool, index: nat)
    ensures match SkipBlank(buf[..], from, end) case ScanFault => fault case At(i) => !fault && index == i
  {
    ghost var mem := buf[..];
    fault, index := false, from;
    while index < end && index < buf.Length && IsSpace(buf[index])
      invariant SkipBlank(mem, from, end) == SkipBlank(mem, index, end)
    {
      index := index + 1;
    }
    fault := index < end && index >= buf.Length;
  }

  method PassBlankFirst(buf: array<char>, from: nat, end: nat) returns (fault: bool, index: nat)
    ensures match SkipBlankFirst(buf[..], from, end) case ScanFault => fault case At(i) => !fault && index == i
  {
    ghost var mem := buf[..];
    fault, index := false, from;
    while index < buf.Length && IsSpace(buf[index]) && index < end
      invariant SkipBlankFirst(mem, from, end) == SkipBlankFirst(mem, index, end)
    {
      index := index + 1;
    }
    fault := index >= buf.Length;
  }

  method FindTokenEnd(buf: array<char>, from: nat) returns (fault: bool, end: nat)
    ensures match TokenEnd(buf[..], from) case ScanFault => fault case At(i) => !fault && end == i
  {
    ghost var mem := buf[..];
    fault, end := false, from;
    while end < buf.Length && !EndsToken(buf[end])
      invariant TokenEnd(mem, from) == TokenEnd(mem, end)
    {
      end := end + 1;
    }
    fault := end >= buf.Length;
  }

  /** decodeString */
  method ReadString(buf: array<char>, pos: nat, len: nat) returns (fault: bool, s: string, bytesParsed: nat)
    ensures match DecodeString(buf[..], pos, len)
      case PartFault => fault
      case Part(t, n) => !fault && s == t && bytesParsed == n
  {
    ghost var mem := buf[..];
    fault, s, bytesParsed := false, "", 0;
    if pos >= buf.Length {
      fault := true;
      return;
    }
    if '"' != buf[pos] {
      return;
    }
    var index := pos + 1;
    while index < buf.Length && '"' != buf[index] && index < pos + len
      invariant QuoteEnd(mem, pos + 1, pos + len) == QuoteEnd(mem, index, pos + len)
      invariant pos < index <= buf.Length
    {
      index := index + 1;
    }
    if index >= buf.Length {
      fault := true;
      return;
    }
    if index == pos + len {
      return;
    }
    bytesParsed := index - pos + 1;
    s := buf[pos + 1..index];
  }

  // ----- Writing to a buffer

  const BUFFER_SIZE := 32768

  method PutBytes(out: array<char>, at: nat, s: string)
    requires at + |s| <= out.Length
    modifies out
    ensures out[..at + |s|] == old(out[..at]) + s
  {
    forall i | 0 <= i < |s| {
      out[at + i] := s[i];
    }
  }

  /** encodeValue; a value that fits what is left of the buffer is written whole. */
  method EncodeValue(std: Std, v: Value, out: array<char>, at: nat) returns (encodedLen: nat)
    requires Sane(std) && at + |EncodedValue(std, v)| <= out.Length == BUFFER_SIZE
    modifies out
    ensures encodedLen == |EncodedValue(std, v)| > 0
    ensures out[..at + encodedLen] == old(out[..at]) + EncodedValue(std, v)
    decreases v, 1
  {
    var val;
    if v.Arr? {
      var input := new JsonArray.Holding(v.items);
      var bytes;
      bytes, encodedLen := input.Encode(std);
      val := bytes[..encodedLen];
    } else if v.Obj? {
      var input := new JsonObject.Holding(v.members);
      var bytes;
      bytes, encodedLen := input.Encode(std, 2);
      val := bytes[..encodedLen];
    } else {
      val := if v.Str? then "\"" + v.s + "\""
        else if v.Bool? then (if v.b then "true" else "false")
        else if v.Int? then IntToString(v.i)
        else std.show(v.token);
    }
    PutBytes(out, at, val);
    encodedLen := |val|;
  }

  // ----- The classes

  /** decodeValue */
  method ReadValue(buf: array<char>, pos: nat, len: nat) returns (fault: bool, v: Value, bytesParsed: nat)
    requires pos <= buf.Length
    ensures match DecodeValue(buf[..], pos, len)
      case PartFault => fault
      case Part(w, n) => !fault && v == w && bytesParsed == n
    decreases buf.Length - pos, 2
  {
    hide DecodeString, DecodeArray, DecodeObject, TokenEnd, DecodeScalar;
    fault, v, bytesParsed := false, Str(""), 0;
    if pos >= buf.Length {
      fault := true;
      return;
    }
    if '"' == buf[pos] {
      var s, n;
      fault, s, n := ReadString(buf, pos, len);
      if !fault && |s| != 0 {
        v, bytesParsed := Str(s), n;
      }
    } else if '[' == buf[pos] {
      var arr := new JsonArray();
      fault, bytesParsed := arr.Decode(buf, pos, len);
      v := Arr(arr.d_arr);
    } else if '{' == buf[pos] {
      var obj := new JsonObject();
      fault, bytesParsed := obj.Decode(buf, pos, len);
      v := Obj(obj.d_valueMap);
    } else {
      var end;
      fault, end := FindTokenEnd(buf, pos + 1);
      if fault {
        return;
      }
      assert buf[..][pos..end] == buf[pos..end];
      match DecodeScalar(buf[pos..end])
      case ScalarFault => fault := true;
      case NoScalar =>
      case Scalar(w) => v := w;
    }
  }

  class JsonArray {
    var d_arr: seq<Value>

    constructor ()
      ensures d_arr == []
    {
      d_arr := [];
    }

    constructor Holding(items: seq<Value>)
      ensures d_arr == items
    {
      d_arr := items;
    }

    method Encode(std: Std) returns (buffer: array<char>, length: nat)
      requires Sane(std) && |EncodedArray(std, d_arr)| <= BUFFER_SIZE
      ensures fresh(buffer) && length <= buffer.Length && buffer[..length] == EncodedArray(std, d_arr)
      decreases Arr(d_arr), 0
    {
      hide EncodedValue;
      ghost var text := EncodedArray(std, d_arr);
      assert text == "[" + EncodedItems(std, d_arr[0..], true) + "]";
      hide EncodedArray, EncodedItems;
      buffer := new char[BUFFER_SIZE];
      buffer[0] := '[';
      length := 1;
      var isFirst := true;
      var i := 0;
      while i < |d_arr|
        invariant 0 <= i <= |d_arr| && isFirst == (i == 0)
        invariant 1 <= length < BUFFER_SIZE && buffer[..length] + EncodedItems(std, d_arr[i..], isFirst) + "]" == text
      {
        assert d_arr[i..][1..] == d_arr[i + 1..];
        ItemsStep(std, d_arr[i..], isFirst, buffer[..length], "]");
        length := PutElement(std, buffer, length, d_arr[i], isFirst);
        isFirst := false;
        i := i + 1;
      }
      assert EncodedItems(std, d_arr[i..], isFirst) == "" by {
        NoItems(std, isFirst);
      }
      PutBytes(buffer, length, "]");
      length := length + 1;
    }

    /** The body of the loop: a comma and one element. */
    static method PutElement(std: Std, buffer: array<char>, at: nat, v: Value, isFirst: bool) returns (length: nat)
      requires Sane(std) && at + |EncodedItem(std, v, isFirst)| <= buffer.Length == BUFFER_SIZE
      modifies buffer
      ensures length == at + |EncodedItem(std, v, isFirst)|
      ensures buffer[..length] == old(buffer[..at]) + EncodedItem(std, v, isFirst)
      decreases v, 2
    {
      hide EncodedValue;
      length := at;
      if !isFirst {
        buffer[length] := ',';
        length := length + 1;
      }
      assert buffer[..length] == old(buffer[..at]) + if isFirst then "" else ",";
      var encodedLen := EncodeValue(std, v, buffer, length);
      length := length + encodedLen;
    }

    method Decode(buf: array<char>, pos: nat, len: nat) returns (fault: bool, bytesParsed: nat)
      requires pos <= buf.Length && d_arr == []
      modifies this
      ensures match DecodeArray(buf[..], pos, len)
        case PartFault => fault
        case Part(items, n) => !fault && d_arr == items && bytesParsed == n
      decreases buf.Length - pos, 1
    {
      hide SkipBlankFirst, ElementTurn;
      ghost var mem := buf[..];
      fault, bytesParsed := false, 0;
      if len == 0 {
        return;
      }
      var index;
      fault, index := PassBlankFirst(buf, pos, pos + len);
      if fault {
        return;
      }
      if index >= pos + len || '[' != buf[index] {
        return false, index - pos;
      }
      fault, index := PassBlankFirst(buf, index + 1, pos + len);
      if fault {
        return;
      }
      if index >= pos + len {
        return false, index - pos;
      }
      var more := true;
      while more
        invariant pos < index <= buf.Length || !more
        invariant more ==> DecodeArray(mem, pos, len) == ArrayItems(mem, pos, len, index, d_arr)
        invariant !more && !fault ==> DecodeArray(mem, pos, len) == Part(d_arr, bytesParsed)
        invariant fault ==> !more && DecodeArray(mem, pos, len) == PartFault
        decreases more, buf.Length - index
      {
        fault, more, index, bytesParsed := TakeElement(buf, pos, len, index);
      }
    }

    /** The body of the do-while loop, its test and what follows it. */
    method TakeElement(buf: array<char>, pos: nat, len: nat, at: nat) returns (fault: bool, more: bool, next: nat,
          bytesParsed: nat)
      requires pos < at <= buf.Length
      modifies this
      ensures match ElementTurn(buf[..], pos, len, at, old(d_arr))
        case TurnFault => fault && !more
        case Stop(items, n) => !fault && !more && d_arr == items && bytesParsed == n
        case More(items, i) => !fault && more && d_arr == items && next == i
      decreases buf.Length - at, 3
    {
      hide SkipBlank, DecodeValue, Remaining;
      more, bytesParsed := false, 0;
      fault, next := PassBlank(buf, at, pos + len);
      if fault {
        return;
      }
      if next > buf.Length {
        fault := true;
        return;
      }
      var value, parsed;
      fault, value, parsed := ReadValue(buf, next, Remaining(len, next - pos));
      if fault {
        return;
      }
      if 0 == parsed {
        bytesParsed := next - pos;
        return;
      }
      d_arr := d_arr + [value];
      next := next + parsed;
      if next >= pos + len {
        bytesParsed := next - pos;
        return;
      }
      if next >= buf.Length {
        fault := true;
        return;
      }
      if ',' == buf[next] {
        more, next := true, next + 1;
        return;
      }
      fault, next := PassBlank(buf, next, pos + len);
      if fault || next > buf.Length {
        fault := true;
        return;
      }
      bytesParsed := if next >= pos + len || ']' != buf[next] then next - pos else next - pos + 1;
    }
  }

  class JsonObject {
    var d_valueMap: map<string, Value>

    constructor ()
      ensures d_valueMap == map[]
    {
      d_valueMap := map[];
    }

    constructor Holding(members: map<string, Value>)
      ensures d_valueMap == members
    {
      d_valueMap := members;
    }

    method Encode(std: Std, indent: nat) returns (buffer: array<char>, length: nat)
      requires Sane(std) && |EncodedObject(std, d_valueMap, indent)| <= BUFFER_SIZE
      ensures fresh(buffer) && length <= buffer.Length && buffer[..length] == EncodedObject(std, d_valueMap, indent)
      decreases Obj(d_valueMap), 0, 1
    {
      hide EncodedObject, EncodedMembers, EncodedMember, EncodedValue, Closing, Known, Sane;
      EncodedObjectOf(std, d_valueMap, indent);
      buffer := new char[BUFFER_SIZE];
      buffer[0] := '{';
      assert buffer[..1] == "{";
      length := PutMembers(std, buffer, std.order(d_valueMap), indent);
      PutBytes(buffer, length, Closing(indent));
      length := length + |Closing(indent)|;
    }

    /** The loop over the members, after the opening brace. */
    method PutMembers(std: Std, buffer: array<char>, keys: seq<string>, indent: nat) returns (length: nat)
      requires Sane(std) && Known(keys, Obj(d_valueMap)) && buffer.Length == BUFFER_SIZE
      requires 1 + |EncodedMembers(std, Obj(d_valueMap), keys, indent, true)| <= BUFFER_SIZE
      modifies buffer
      ensures length == 1 + |EncodedMembers(std, Obj(d_valueMap), keys, indent, true)|
      ensures buffer[..length] == old(buffer[..1]) + EncodedMembers(std, Obj(d_valueMap), keys, indent, true)
      decreases Obj(d_valueMap), 0, 0
    {
      hide EncodedMembers, EncodedMember, EncodedValue, Known, Sane;
      ghost var v, text := Obj(d_valueMap), buffer[..1] + EncodedMembers(std, Obj(d_valueMap), keys, indent, true);
      length := 1;
      assert keys[0..] == keys;
      var isFirst := true;
      var i := 0;
      while i < |keys|
        invariant 0 <= i <= |keys| && isFirst == (i == 0)
        invariant 1 <= length <= BUFFER_SIZE && Known(keys[i..], v)
        invariant buffer[..length] + EncodedMembers(std, v, keys[i..], indent, isFirst) == text
      {
        var key := keys[i];
        KnownSlice(keys, v, i);
        KnownSlice(keys, v, i + 1);
        MembersStep(std, v, keys[i..], indent, isFirst, buffer[..length]);
        length := PutMember(std, buffer, length, key, d_valueMap[key], indent, isFirst);
        isFirst := false;
        i := i + 1;
      }
      NoMembers(std, v, indent, isFirst);
      assert keys[i..] == [] && buffer[..length] + "" == text;
    }

    /** The body of the loop: one member with what stands before it. */
    static method PutMember(std: Std, buffer: array<char>, at: nat, key: string, v: Value, indent: nat,
          isFirst: bool) returns (length: nat)
      requires Sane(std) && at + |EncodedMember(std, key, v, indent, isFirst)| <= buffer.Length == BUFFER_SIZE
      modifies buffer
      ensures length == at + |EncodedMember(std, key, v, indent, isFirst)|
      ensures buffer[..length] == old(buffer[..at]) + EncodedMember(std, key, v, indent, isFirst)
      decreases v, 2
    {
      hide EncodedValue, Opening;
      length := PutOpening(buffer, at, indent, isFirst);
      PutBytes(buffer, length, "\"" + key + "\":");
      length := length + |key| + 3;
      assert buffer[..length] == old(buffer[..at]) + (Opening(indent, isFirst) + "\"" + key + "\":");
      var encodedLen := EncodeValue(std, v, buffer, length);
      length := length + encodedLen;
    }

    static method PutOpening(buffer: array<char>, at: nat, indent: nat, isFirst: bool) returns (length: nat)
      requires at + |Opening(indent, isFirst)| <= buffer.Length
      modifies buffer
      ensures length == at + |Opening(indent, isFirst)|
      ensures buffer[..length] == old(buffer[..at]) + Opening(indent, isFirst)
    {
      length := at;
      if !isFirst {
        buffer[length] := ',';
        length := length + 1;
      }
      if indent > 0 {
        PutBytes(buffer, length, "\n" + Spaces(indent));
        length := length + 1 + indent;
      }
    }

    method Decode(buf: array<char>, pos: nat, len: nat) returns (fault: bool, bytesParsed: nat)
      requires pos <= buf.Length && d_valueMap == map[]
      modifies this
      ensures match DecodeObject(buf[..], pos, len)
        case PartFault => fault
        case Part(members, n) => !fault && d_valueMap == members && bytesParsed == n
      decreases buf.Length - pos, 1
    {
      hide SkipSpaces, MemberTurn;
      ghost var mem := buf[..];
      fault, bytesParsed := false, 0;
      var index;
      fault, index := PassSpaces(buf, pos);
      if fault {
        return;
      }
      if '{' != buf[index] {
        return false, index - pos;
      }
      index := index + 1;
      var more := true;
      while more
        invariant pos < index <= buf.Length || !more
        invariant more ==> DecodeObject(mem, pos, len) == ObjectMembers(mem, pos, len, index, d_valueMap)
        invariant !more && !fault ==> DecodeObject(mem, pos, len) == Part(d_valueMap, bytesParsed)
        invariant fault ==> !more && DecodeObject(mem, pos, len) == PartFault
        decreases more, buf.Length - index
      {
        fault, more, index, bytesParsed := TakeMember(buf, pos, len, index);
      }
    }

    /** The body of the do-while loop up to the value: bytesParsed where decode gives up. */
    method ReadHead(buf: array<char>, pos: nat, len: nat, at: nat) returns (fault: bool, key: string, start: nat,
          bytesParsed: nat)
      requires pos < at <= buf.Length
      ensures match MemberHead(buf[..], pos, len, at)
        case HeadFault => fault
        case NoHead(n) => !fault && key == "" && bytesParsed == n
        case Head(k, i) => !fault && key == k && start == i
    {
      hide SkipSpaces, DecodeString, Remaining;
      bytesParsed, key := 0, "";
      var parsed;
      fault, start := PassSpaces(buf, at);
      if fault {
        return;
      }
      fault, key, parsed := ReadString(buf, start, Remaining(len, start - pos));
      if fault {
        return;
      }
      if 0 == |key| {
        bytesParsed := start - pos;
        return;
      }
      fault, start := PassSpaces(buf, start + parsed);
      if fault {
        return;
      }
      if ':' != buf[start] {
        key, bytesParsed := "", start - pos;
        return;
      }
      fault, start := PassSpaces(buf, start + 1);
    }

    /** The body of the do-while loop, its test and what follows it. */
    method TakeMember(buf: array<char>, pos: nat, len: nat, at: nat) returns (fault: bool, more: bool, next: nat,
          bytesParsed: nat)
      requires pos < at <= buf.Length
      modifies this
      ensures match MemberTurn(buf[..], pos, len, at, old(d_valueMap))
        case TurnFault => fault && !more
        case Stop(members, n) => !fault && !more && d_valueMap == members && bytesParsed == n
        case More(members, i) => !fault && more && d_valueMap == members && next == i
      decreases buf.Length - at, 3
    {
      hide SkipSpaces, MemberHead, MemberValue, Inserted;
      more := false;
      var key, value, parsed;
      fault, key, next, bytesParsed := ReadHead(buf, pos, len, at);
      if fault || key == "" {
        return;
      }
      fault, value, parsed := ReadMember(buf, pos, len, next);
      if fault {
        return;
      }
      if 0 == parsed {
        bytesParsed := next - pos;
        return;
      }
      d_valueMap := Inserted(d_valueMap, key, value);
      fault, next := PassSpaces(buf, next + parsed);
      if fault {
        return;
      }
      if ',' == buf[next] {
        next := next + 1;
        if next - 1 - pos < len {
          more := true;
          return;
        }
      }
      if next >= buf.Length {
        fault := true;
        return;
      }
      bytesParsed := if '}' == buf[next] then next - pos + 1 else next - pos;
    }

    /** The four ways to read a member's value; parsed stays 0 where decode gives up. */
    method ReadMember(buf: array<char>, pos: nat, len: nat, index: nat) returns (fault: bool, value: Value, parsed: nat)
      requires pos <= index < buf.Length
      ensures match MemberValue(buf[..], pos, len, index)
        case PartFault => fault
        case Part(v, n) => !fault && value == v && parsed == n
      decreases buf.Length - index, 2
    {
      hide DecodeString, DecodeArray, DecodeObject, TokenEnd, DecodeScalar, Remaining;
      fault, value, parsed := false, Str(""), 0;
      if '"' == buf[index] {
        var s, n;
        fault, s, n := ReadString(buf, index, Remaining(len, index - pos));
        if !fault && |s| != 0 {
          value, parsed := Str(s), n;
        }
      } else if '[' == buf[index] {
        var arr := new JsonArray();
        fault, parsed := arr.Decode(buf, index, Remaining(len, index - pos));
        value := Arr(arr.d_arr);
      } else if '{' == buf[index] {
        var obj := new JsonObject();
        fault, parsed := obj.Decode(buf, index, Remaining(len, index - pos));
        value := Obj(obj.d_valueMap);
      } else {
        var end;
        fault, end := FindTokenEnd(buf, index + 1);
        if fault {
          return;
        }
        assert buf[..][index..end] == buf[index..end];
        match DecodeScalar(buf[index..end])
        case ScalarFault => fault := true;
        case NoScalar =>
        case Scalar(v) => value, parsed := v, end - index;
      }
    }
  }
}
