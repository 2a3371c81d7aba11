/** The HPACK encoder of http/fwoop_httphpacker.cpp. */
module HPack {
  import opened Buffers
  import opened Rfc7541
  import opened Wrappers

  const UINT32 := 0x1_0000_0000

  // ----- Tables and keys

  const KEYS0: seq<string> := [":authority", ":method-get", ":method-post", ":path-/", ":path-/index.html",
    ":scheme-http", ":scheme-https", ":status-200"]
  const KEYS1: seq<string> := [":status-204", ":status-206", ":status-304", ":status-400", ":status-404",
    ":status-500", "accept-charset", "accept-encoding-gzip, deflate"]
  const KEYS2: seq<string> := ["accept-language", "accept-ranges", "accept", "access-control-allow-origin", "age",
    "allow", "authorization", "cache-control"]
  const KEYS3: seq<string> := ["content-disposition", "content-encoding", "content-language", "content-length",
    "content-location", "content-range", "content-type", "cookie"]
  const KEYS4: seq<string> := ["date", "etag", "expect", "expires", "from", "host", "if-match", "if-modified-since"]
  const KEYS5: seq<string> := ["if-none-match", "if-range", "if-unmodified-since", "last-modified", "link",
    "location", "max-forwards", "proxy-authenticate"]
  const KEYS6: seq<string> := ["proxy-authorization", "range", "referer", "refresh", "retry-after", "server",
    "set-cookie", "strict-transport-security"]
  const KEYS7: seq<string> := ["transfer-encoding", "user-agent", "vary", "via", "www-authenticate"]

  /** The keys of the static table; the key at position i - 1 maps to i. */
  const STATIC_KEYS: seq<string> := ((KEYS0 + KEYS1) + (KEYS2 + KEYS3)) + ((KEYS4 + KEYS5) + (KEYS6 + KEYS7))

  lemma StaticKeyCount()
    ensures |STATIC_KEYS| == STATIC_SIZE
  {
  }

  function StaticKey(i: nat): Octets
    requires 1 <= i <= STATIC_SIZE
  {
    StaticKeyCount();
    Ascii(STATIC_KEYS[i - 1])
  }

  function StaticSearch(key: Octets, i: nat): (r: Option<nat>)
    requires 1 <= i <= STATIC_SIZE + 1
    ensures r.Some? ==> i <= r.value <= STATIC_SIZE && StaticKey(r.value) == key
    ensures r.None? ==> forall j :: i <= j <= STATIC_SIZE ==> StaticKey(j) != key
    decreases STATIC_SIZE + 1 - i
  {
    if i > STATIC_SIZE then None else if StaticKey(i) == key then Some(i) else StaticSearch(key, i + 1)
  }

  /** s_staticTable.find */
  function StaticFind(key: Octets): (r: Option<nat>)
    ensures r.Some? ==> 1 <= r.value <= STATIC_SIZE && StaticKey(r.value) == key
    ensures r.None? ==> forall j :: 1 <= j <= STATIC_SIZE ==> StaticKey(j) != key
  {
    StaticSearch(key, 1)
  }

  const DASH: Byte := 0x2D

  function CompoundKey(f: Field): Octets { f.name + [DASH] + f.value }

  /** DynamicTable_t, a struct copied by value. */
  datatype DynamicTable = DynamicTable(queue: seq<Octets>, indexLookup: map<Octets, nat>, size: nat) {

    /** The two assignments that remember a key; only encode also counts it in size. */
    function Remember(key: Octets): DynamicTable {
      DynamicTable(queue + [key], indexLookup[key := |queue|], size)
    }
  }

  const EMPTY_TABLE := DynamicTable([], map[], 0)

  // ----- What one call does, as functions of the table

  /** What getEncodedLength computes for one field, and the table it leaves. */
  function FieldLength(t: DynamicTable, f: Field): (nat, DynamicTable) {
    var key := CompoundKey(f);
    if StaticFind(key).Some? then (1, t)
    else if key in t.indexLookup then (1, t)
    else if StaticFind(f.name).Some? then (1 + 1 + |f.value|, t.Remember(key))
    else (1 + 1 + |f.name| + 1 + |f.value|, t.Remember(key))
  }

  /** The conversion to uint8_t of mask | n, for mask 0x80. */
  function Indexed(n: int): Byte { 128 + n % 128 }

  function LengthByte(s: Octets): Byte { |s| % 256 }

  /** The index encode computes for a key of the dynamic table. */
  function DynamicIndex(t: DynamicTable, key: Octets): int
    requires key in t.indexLookup
  {
    t.size - t.indexLookup[key] + STATIC_SIZE
  }

  /** The octets encode writes for one field, and the table it leaves. */
  function EncodeField(t: DynamicTable, f: Field): (Octets, DynamicTable) {
    var key := CompoundKey(f);
    if StaticFind(key).Some? then ([Indexed(StaticFind(key).value)], t)
    else if key in t.indexLookup then ([Indexed(DynamicIndex(t, key))], t)
    else
      var remembered := t.Remember(key).(size := t.size + 1);
      if StaticFind(f.name).Some? then
        ([64 + StaticFind(f.name).value, LengthByte(f.value)] + f.value, remembered)
      else
        ([64, LengthByte(f.name)] + f.name + [LengthByte(f.value)] + f.value, remembered)
  }

  function ListLength(t: DynamicTable, fs: seq<Field>): (nat, DynamicTable)
    decreases |fs|
  {
    if fs == [] then (0, t)
    else
      var (n, t') := FieldLength(t, fs[0]);
      var (rest, t'') := ListLength(t', fs[1..]);
      (n + rest, t'')
  }

  function EncodeList(t: DynamicTable, fs: seq<Field>): (Octets, DynamicTable)
    decreases |fs|
  {
    if fs == [] then ([], t)
    else
      var (b, t') := EncodeField(t, fs[0]);
      var (rest, t'') := EncodeList(t', fs[1..]);
      (b + rest, t'')
  }

  // ----- Buffers

  /** buffer with s stored from offset on. */
  function Written(buffer: Octets, offset: nat, s: Octets): (r: Octets)
    requires offset + |s| <= |buffer|
    ensures |r| == |buffer|
  {
    buffer[..offset] + s + buffer[offset + |s|..]
  }

  lemma WrittenNothing(buffer: Octets, offset: nat)
    requires offset <= |buffer|
    ensures Written(buffer, offset, []) == buffer
  {
  }

  lemma WrittenTwice(buffer: Octets, offset: nat, s: Octets, s': Octets)
    requires offset + |s + s'| <= |buffer|
    ensures Written(Written(buffer, offset, s), offset + |s|, s') == Written(buffer, offset, s + s')
  {
  }

  lemma SplitAt<T>(all: seq<T>, offset: nat, b: seq<T>, rest: seq<T>)
    requires offset <= |all| && all[offset..] == b + rest
    ensures offset + |b| <= |all| && all[offset + |b|..] == rest && all[..offset + |b|] == all[..offset] + b
  {
    assert all == all[..offset] + (b + rest);
  }

  // ----- The class

  class HttpHPacker {
    var d_dynamicTable: DynamicTable
    const d_maxTableSize := 4096

    constructor ()
      ensures d_dynamicTable == EMPTY_TABLE
    {
      d_dynamicTable := EMPTY_TABLE;
    }

    /** The private overload: the C++ reference parameter is an in- and an out-parameter. */
    static method GetFieldLength(table: DynamicTable, f: Field) returns (len: nat, table': DynamicTable)
      ensures (len, table') == FieldLength(table, f)
    {
      table' := table;
      var compoundKey := f.name + [DASH] + f.value;
      if StaticFind(compoundKey).Some? {
        return 1, table';
      }
      if compoundKey in table'.indexLookup {
        return 1, table';
      }
      if StaticFind(f.name).Some? {
        table' := table'.(indexLookup := table'.indexLookup[compoundKey := |table'.queue|]);
        table' := table'.(queue := table'.queue + [compoundKey]);
        return 1 + 1 + |f.value|, table';
      }
      table' := table'.(indexLookup := table'.indexLookup[compoundKey := |table'.queue|]);
      table' := table'.(queue := table'.queue + [compoundKey]);
      return 1 + 1 + |f.name| + 1 + |f.value|, table';
    }

    static method Accumulate(table: DynamicTable, headerFields: seq<Field>) returns (len: nat, table': DynamicTable)
      ensures len == ListLength(table, headerFields).0 % UINT32
      ensures table' == ListLength(table, headerFields).1
    {
      hide FieldLength;
      len, table' := 0, table;
      ghost var total := 0;
      var i := 0;
      while i < |headerFields|
        invariant 0 <= i <= |headerFields|
        invariant len == total % UINT32
        invariant ListLength(table, headerFields)
               == (total + ListLength(table', headerFields[i..]).0, ListLength(table', headerFields[i..]).1)
      {
        var n;
        n, table' := GetFieldLength(table', headerFields[i]);
        assert headerFields[i..][1..] == headerFields[i + 1..];
        len := (len + n) % UINT32;
        total := total + n;
        i := i + 1;
      }
    }

    method EncodeLength(headerFields: seq<Field>) returns (len: nat)
      modifies this
      ensures len == ListLength(old(d_dynamicTable), headerFields).0 % UINT32
      ensures d_dynamicTable == ListLength(old(d_dynamicTable), headerFields).1
    {
      len, d_dynamicTable := Accumulate(d_dynamicTable, headerFields);
    }

    /** The const overload works on a copy of the table. */
    method GetEncodedLength(headerFields: seq<Field>) returns (len: nat)
      ensures len == ListLength(d_dynamicTable, headerFields).0 % UINT32
    {
      var dynamicTable := d_dynamicTable;
      len, dynamicTable := Accumulate(dynamicTable, headerFields);
    }

    /** memcpy(out + offset, s.data(), s.length()) */
    static method CopyIn(out: array<Byte>, offset: nat, s: Octets)
      requires offset + |s| <= out.Length
      modifies out
      ensures out[..] == Written(old(out[..]), offset, s)
    {
      var i := 0;
      hide Written;
      ghost var before := out[..];
      WrittenNothing(before, offset);
      while i < |s|
        invariant 0 <= i <= |s|
        invariant out[..] == Written(before, offset, s[..i])
      {
        WrittenTwice(before, offset, s[..i], [s[i]]);
        assert s[..i] + [s[i]] == s[..i + 1];
        Put(out, offset + i, s[i]);
        i := i + 1;
      }
      assert s[..i] == s;
    }

    static method Put(out: array<Byte>, offset: nat, b: Byte)
      requires offset < out.Length
      modifies out
      ensures out[..] == Written(old(out[..]), offset, [b])
    {
      out[offset] := b;
    }

    /** The private overload: one field into the buffer at offset. */
    method EncodeOne(out: array<Byte>, offset: nat, f: Field) returns (len: nat)
      requires offset + |EncodeField(d_dynamicTable, f).0| <= out.Length
      modifies this, out
      ensures var (b, t') := EncodeField(old(d_dynamicTable), f);
        len == |b| && d_dynamicTable == t' && out[..] == Written(old(out[..]), offset, b)
    {
      hide StaticFind, Written, LengthByte;
      var compoundKey := f.name + [DASH] + f.value;
      var staticItr := StaticFind(compoundKey);
      if staticItr.Some? {
        Put(out, offset, Indexed(staticItr.value));
        return 1;
      }
      if compoundKey in d_dynamicTable.indexLookup {
        var index := d_dynamicTable.size - d_dynamicTable.indexLookup[compoundKey] + STATIC_SIZE;
        Put(out, offset, Indexed(index));
        return 1;
      }
      staticItr := StaticFind(f.name);
      ghost var buffer := out[..];
      if staticItr.Some? {
        assert [64 + staticItr.value] + [LengthByte(f.value)] == [64 + staticItr.value, LengthByte(f.value)];
        WrittenTwice(buffer, offset, [64 + staticItr.value], [LengthByte(f.value)]);
        WrittenTwice(buffer, offset, [64 + staticItr.value, LengthByte(f.value)], f.value);
        Put(out, offset, 64 + staticItr.value);
        Put(out, offset + 1, LengthByte(f.value));
        CopyIn(out, offset + 2, f.value);
        Insert(compoundKey);
        return 1 + 1 + |f.value|;
      }
      assert [64] + [LengthByte(f.name)] == [64, LengthByte(f.name)];
      WrittenTwice(buffer, offset, [64], [LengthByte(f.name)]);
      WrittenTwice(buffer, offset, [64, LengthByte(f.name)], f.name);
      WrittenTwice(buffer, offset, [64, LengthByte(f.name)] + f.name, [LengthByte(f.value)]);
      WrittenTwice(buffer, offset, [64, LengthByte(f.name)] + f.name + [LengthByte(f.value)], f.value);
      var at := offset;
      Put(out, at, 64);
      at := at + 1;
      Put(out, at, LengthByte(f.name));
      at := at + 1;
      CopyIn(out, at, f.name);
      at := at + |f.name|;
      Put(out, at, LengthByte(f.value));
      at := at + 1;
      CopyIn(out, at, f.value);
      Insert(compoundKey);
      return 1 + 1 + |f.name| + 1 + |f.value|;
    }

    /** The three assignments that end both literal branches. */
    method Insert(compoundKey: Octets)
      modifies this
      ensures d_dynamicTable == old(d_dynamicTable.Remember(compoundKey).(size := d_dynamicTable.size + 1))
    {
      var position := |d_dynamicTable.queue|;
      d_dynamicTable := d_dynamicTable.(indexLookup := d_dynamicTable.indexLookup[compoundKey := position]);
      d_dynamicTable := d_dynamicTable.(queue := d_dynamicTable.queue + [compoundKey]);
      d_dynamicTable := d_dynamicTable.(size := d_dynamicTable.size + 1);
    }

    /** The buffer is sized by GetEncodedLength; a list whose true length does not fit in uint32_t
        would overrun it. */
    method Encode(headerFields: seq<Field>) returns (encoding: array<Byte>)
      requires ListLength(d_dynamicTable, headerFields).0 < UINT32
      modifies this
      ensures fresh(encoding)
      ensures (encoding[..], d_dynamicTable) == EncodeList(old(d_dynamicTable), headerFields)
    {
      hide EncodeField, ListLength, EncodeList, Progress, Written;
      LengthOfEncoding(d_dynamicTable, headerFields);
      var totalLen := GetEncodedLength(headerFields);
      encoding := new Byte[totalLen];
      var offset, i := 0, 0;
      ghost var t := d_dynamicTable;
      ProgressStarts(t, headerFields, encoding[..]);
      while i < |headerFields|
        invariant 0 <= i <= |headerFields| && fresh(encoding)
        invariant 0 <= offset <= encoding.Length == |EncodeList(t, headerFields).0|
        invariant Progress(t, headerFields, i, d_dynamicTable, encoding[..], offset)
      {
        ProgressStep(t, headerFields, i, d_dynamicTable, encoding[..], offset);
        var len := EncodeOne(encoding, offset, headerFields[i]);
        offset := offset + len;
        i := i + 1;
      }
      ProgressEnds(t, headerFields, d_dynamicTable, encoding[..], offset);
    }
  }

  lemma LengthOfEncoding(t: DynamicTable, fs: seq<Field>)
    ensures ListLength(t, fs).0 == |EncodeList(t, fs).0|
  {
    LengthIsExact(t, t, fs);
  }

  /** After the first i fields: the buffer holds what they encode to, up to offset, and the current
      table encodes the rest as the whole encoding goes on. */
  ghost predicate Progress(t: DynamicTable, fs: seq<Field>, i: nat, now: DynamicTable, buffer: Octets, offset: nat) {
    var all := EncodeList(t, fs);
    && i <= |fs| && offset <= |buffer| == |all.0|
    && buffer[..offset] == all.0[..offset]
    && EncodeList(now, fs[i..]) == (all.0[offset..], all.1)
  }

  lemma ProgressStarts(t: DynamicTable, fs: seq<Field>, buffer: Octets)
    requires |buffer| == |EncodeList(t, fs).0|
    ensures Progress(t, fs, 0, t, buffer, 0)
  {
    hide EncodeList;
    assert fs[0..] == fs;
  }

  lemma ProgressStep(t: DynamicTable, fs: seq<Field>, i: nat, now: DynamicTable, buffer: Octets, offset: nat)
    requires i < |fs| && Progress(t, fs, i, now, buffer, offset)
    ensures var (b, t') := EncodeField(now, fs[i]);
      offset + |b| <= |buffer| && Progress(t, fs, i + 1, t', Written(buffer, offset, b), offset + |b|)
  {
    hide EncodeField;
    var all := EncodeList(t, fs);
    var (b, t') := EncodeField(now, fs[i]);
    assert fs[i..][1..] == fs[i + 1..];
    SplitAt(all.0, offset, b, EncodeList(t', fs[i + 1..]).0);
    assert Written(buffer, offset, b)[..offset + |b|] == buffer[..offset] + b;
  }

  lemma ProgressEnds(t: DynamicTable, fs: seq<Field>, now: DynamicTable, buffer: Octets, offset: nat)
    requires Progress(t, fs, |fs|, now, buffer, offset)
    ensures (buffer, now) == EncodeList(t, fs)
  {
    var all := EncodeList(t, fs);
    assert fs[|fs|..] == [];
    assert EncodeList(now, []) == ([], now);
    assert |all.0[offset..]| == 0;
    assert buffer[..offset] == buffer && all.0[..offset] == all.0;
  }

  // ----- Lengths

  /** Both tables hold the same keys; size may differ, since EncodeLength does not count in it. */
  predicate SameKeys(t: DynamicTable, u: DynamicTable) {
    t.queue == u.queue && t.indexLookup == u.indexLookup
  }

  /** From any table, whatever calls made it, the computed length is the number of octets written,
      and both walks leave the same keys. */
  lemma {:induction false} LengthIsExact(t: DynamicTable, u: DynamicTable, fs: seq<Field>)
    requires SameKeys(t, u)
    ensures ListLength(t, fs).0 == |EncodeList(u, fs).0|
    ensures SameKeys(ListLength(t, fs).1, EncodeList(u, fs).1)
    decreases |fs|
  {
    if fs != [] {
      FieldLengthIsExact(t, u, fs[0]);
      hide FieldLength, EncodeField;
      LengthIsExact(FieldLength(t, fs[0]).1, EncodeField(u, fs[0]).1, fs[1..]);
    }
  }

  lemma FieldLengthIsExact(t: DynamicTable, u: DynamicTable, f: Field)
    requires SameKeys(t, u)
    ensures FieldLength(t, f).0 == |EncodeField(u, f).0|
    ensures SameKeys(FieldLength(t, f).1, EncodeField(u, f).1)
  {
    hide StaticFind;
  }

  /** Lengths add up over concatenation when the table is handed on. */
  lemma {:induction false} LengthAdditive(t: DynamicTable, fs: seq<Field>, gs: seq<Field>)
    ensures ListLength(t, fs + gs).0 == ListLength(t, fs).0 + ListLength(ListLength(t, fs).1, gs).0
    ensures ListLength(t, fs + gs).1 == ListLength(ListLength(t, fs).1, gs).1
    decreases |fs|
  {
    hide FieldLength;
    if fs == [] {
      assert fs + gs == gs;
    } else {
      assert (fs + gs)[1..] == fs[1..] + gs;
      LengthAdditive(FieldLength(t, fs[0]).1, fs[1..], gs);
    }
  }

  predicate Known(t: DynamicTable, f: Field) {
    StaticFind(CompoundKey(f)).Some? || CompoundKey(f) in t.indexLookup
  }

  /** Encoding makes every field of the list known and forgets none. */
  lemma {:induction false} EncodingMakesKnown(t: DynamicTable, fs: seq<Field>)
    ensures var t' := EncodeList(t, fs).1;
      (forall f :: f in fs ==> Known(t', f)) && t.indexLookup.Keys <= t'.indexLookup.Keys
    decreases |fs|
  {
    hide StaticFind;
    if fs != [] {
      var u := EncodeField(t, fs[0]).1;
      assert Known(u, fs[0]) && t.indexLookup.Keys <= u.indexLookup.Keys;
      EncodingMakesKnown(u, fs[1..]);
      assert forall f :: f in fs ==> f == fs[0] || f in fs[1..];
    }
  }

  lemma {:induction false} KnownCostsOne(t: DynamicTable, fs: seq<Field>)
    requires forall f :: f in fs ==> Known(t, f)
    ensures |EncodeList(t, fs).0| == |fs| && EncodeList(t, fs).1 == t
    decreases |fs|
  {
    hide StaticFind;
    if fs != [] {
      assert fs[0] in fs && forall f :: f in fs[1..] ==> f in fs;
      KnownCostsOne(t, fs[1..]);
    }
  }

  /** A list just encoded costs one octet per field the second time, and changes nothing. */
  lemma ReencodingCostsOne(t: DynamicTable, fs: seq<Field>)
    ensures var t' := EncodeList(t, fs).1;
      |EncodeList(t', fs).0| == |fs| && EncodeList(t', fs).1 == t'
  {
    EncodingMakesKnown(t, fs);
    KnownCostsOne(EncodeList(t, fs).1, fs);
  }

  // ----- The static tables agree

  /** What the key of a static field should be: the name, with the value when there is one. */
  function KeyText(f: (string, string)): string {
    if f.1 == "" then f.0 else f.0 + "-" + f.1
  }

  lemma StaticTablesAgree(i: nat)
    requires i < STATIC_SIZE
    ensures |STATIC_KEYS| == |STATIC_FIELDS| == STATIC_SIZE
    ensures STATIC_KEYS[i] == KeyText(STATIC_FIELDS[i])
  {
    StaticFieldCount();
    StaticKeyCount();
    RowsAgree();
    RowElement(KEYS0, KEYS1, KEYS2, KEYS3, KEYS4, KEYS5, KEYS6, KEYS7, i);
    RowElement(ROW0, ROW1, ROW2, ROW3, ROW4, ROW5, ROW6, ROW7, i);
  }

  lemma RowsAgree()
    ensures forall i :: 0 <= i < 8 ==> KEYS0[i] == KeyText(ROW0[i]) && KEYS1[i] == KeyText(ROW1[i])
    ensures forall i :: 0 <= i < 8 ==> KEYS2[i] == KeyText(ROW2[i]) && KEYS3[i] == KeyText(ROW3[i])
    ensures forall i :: 0 <= i < 8 ==> KEYS4[i] == KeyText(ROW4[i]) && KEYS5[i] == KeyText(ROW5[i])
    ensures forall i :: 0 <= i < 8 ==> KEYS6[i] == KeyText(ROW6[i])
    ensures forall i :: 0 <= i < 5 ==> KEYS7[i] == KeyText(ROW7[i])
  {
    ValuedKeys();
  }

  lemma ValuedKeys()
    ensures ":method-get" == ":method" + "-" + "get" && ":method-post" == ":method" + "-" + "post"
    ensures ":path-/" == ":path" + "-" + "/" && ":path-/index.html" == ":path" + "-" + "/index.html"
    ensures ":scheme-http" == ":scheme" + "-" + "http" && ":scheme-https" == ":scheme" + "-" + "https"
    ensures ":status-200" == ":status" + "-" + "200" && ":status-204" == ":status" + "-" + "204"
    ensures ":status-206" == ":status" + "-" + "206" && ":status-304" == ":status" + "-" + "304"
    ensures ":status-400" == ":status" + "-" + "400" && ":status-404" == ":status" + "-" + "404"
    ensures ":status-500" == ":status" + "-" + "500"
    ensures "accept-encoding-gzip, deflate" == "accept-encoding" + "-" + "gzip, deflate"
  {
  }
}
