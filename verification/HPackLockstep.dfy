/** The encoder and an RFC 7541 decoder side by side: what the decoder recovers from the octets of
    any run of encode calls. */
module HPackLockstep {
  import opened Buffers
  import opened HPack
  import opened Rfc7541
  import opened Wrappers

  // ----- The encoder's table on its own

  /** indexLookup is the inverse of queue position, and size counts the queue. */
  ghost predicate TableInvariant(t: DynamicTable) {
    && t.size == |t.queue|
    && (forall i :: 0 <= i < |t.queue| ==> t.queue[i] in t.indexLookup && t.indexLookup[t.queue[i]] == i)
    && (forall k :: k in t.indexLookup ==> t.indexLookup[k] < |t.queue| && t.queue[t.indexLookup[k]] == k)
  }

  lemma TableInvariantKept(t: DynamicTable, f: Field)
    requires TableInvariant(t)
    ensures TableInvariant(EncodeField(t, f).1)
  {
    hide StaticFind;
  }

  /** Over every run of encode calls: keys are distinct, and the index of every key is in range and,
      counted from the newest entry, names that key. */
  lemma {:induction false} IndicesNameEntries(t: DynamicTable, fs: seq<Field>)
    requires TableInvariant(t)
    ensures var t' := EncodeList(t, fs).1;
      && TableInvariant(t')
      && (forall i, j :: 0 <= i < j < |t'.queue| ==> t'.queue[i] != t'.queue[j])
      && (forall k :: k in t'.indexLookup ==>
           var n := DynamicIndex(t', k);
           STATIC_SIZE < n <= STATIC_SIZE + t'.size && t'.queue[|t'.queue| - (n - STATIC_SIZE)] == k)
    decreases |fs|
  {
    if fs != [] {
      TableInvariantKept(t, fs[0]);
      hide EncodeField;
      IndicesNameEntries(EncodeField(t, fs[0]).1, fs[1..]);
    }
  }

  /** EncodeLength lets the queue outgrow size: on a new packer, one EncodeLength of any field outside
      the static table makes the next encode of that field an index into the static table. */
  lemma EncodeLengthBreaksIndices(f: Field)
    requires StaticFind(CompoundKey(f)).None?
    ensures var t := ListLength(EMPTY_TABLE, [f]).1;
      && EncodeList(t, [f]).0 == [Indexed(STATIC_SIZE)]
      && DecodeBlock([], EncodeList(t, [f]).0) == Some(([StaticField(STATIC_SIZE)], []))
  {
    hide StaticFind, StaticField;
    var t := EMPTY_TABLE.Remember(CompoundKey(f));
    assert [f][1..] == [];
    assert ListLength(t, []) == (0, t) && EncodeList(t, []) == ([], t);
    assert FieldLength(EMPTY_TABLE, f).1 == t;
    var b := [Indexed(STATIC_SIZE)];
    assert EncodeField(t, f) == (b, t);
    assert b + [] == b && b[1..] == [];
    assert DecodeField([], b) == Some((StaticField(STATIC_SIZE), 1, []));
    assert DecodeBlock([], []) == Some(([], []));
    assert [StaticField(STATIC_SIZE)] + [] == [StaticField(STATIC_SIZE)];
  }

  // ----- When a field survives

  /** The static table, found by compound key or by name, stands for this very field. */
  predicate StaticFaithful(f: Field) {
    var whole, named := StaticFind(CompoundKey(f)), StaticFind(f.name);
    if whole.Some? then StaticField(whole.value) == f
    else named.Some? ==> StaticField(named.value).name == f.name
  }

  /** No two fields share a compound key, and none is taken for something else of the static table. */
  ghost predicate AliasFree(fs: seq<Field>) {
    && (forall f :: f in fs ==> StaticFaithful(f))
    && (forall f, g :: f in fs && g in fs && CompoundKey(f) == CompoundKey(g) ==> f == g)
  }

  /** Lengths that fit the single octet the encoder writes. */
  predicate ShortField(f: Field) { |f.name| <= 126 && |f.value| <= 126 }

  /** The size by section 4.1 of the entries behind these keys. */
  function QueueSize(queue: seq<Octets>): int {
    if queue == [] then 0 else QueueSize(queue[..|queue| - 1]) + |queue[|queue| - 1]| + 31
  }

  /** Every index fits in seven bits with room for the marker, and the decoder evicts nothing. */
  predicate SmallTable(t: DynamicTable) { |t.queue| <= 65 && QueueSize(t.queue) <= MAX_TABLE_SIZE }

  // ----- The relation between the two tables

  ghost predicate Mirrors(t: DynamicTable, table: seq<Field>) {
    && |table| == |t.queue|
    && forall i :: 0 <= i < |table| ==> CompoundKey(table[i]) == t.queue[|table| - 1 - i]
  }

  /** The entry the decoder holds for a key of the encoder's table. */
  function EntryOf(t: DynamicTable, table: seq<Field>, key: Octets): Option<Field> {
    if key in t.indexLookup && 0 <= |table| - 1 - t.indexLookup[key] < |table|
    then Some(table[|table| - 1 - t.indexLookup[key]]) else None
  }

  ghost predicate Remembers(t: DynamicTable, table: seq<Field>, f: Field) {
    StaticFind(CompoundKey(f)).Some? || EntryOf(t, table, CompoundKey(f)) == Some(f)
  }

  /** seen: the fields encoded and correctly decoded so far. */
  ghost predicate Lockstep(t: DynamicTable, table: seq<Field>, seen: seq<Field>) {
    && TableInvariant(t) && Mirrors(t, table) && AliasFree(seen)
    && (forall i :: 0 <= i < |table| ==> table[i] in seen)
    && (forall f :: f in seen ==> Remembers(t, table, f))
  }

  lemma {:induction false} QueueSizeIsTableSize(t: DynamicTable, table: seq<Field>)
    requires Mirrors(t, table)
    ensures TableSize(table) == QueueSize(t.queue)
    decreases |table|
  {
    if table != [] {
      var n := |table|;
      assert CompoundKey(table[0]) == t.queue[n - 1];
      var u := DynamicTable(t.queue[..n - 1], map[], 0);
      forall i | 0 <= i < n - 1
        ensures CompoundKey(table[1..][i]) == u.queue[n - 2 - i]
      {
        assert CompoundKey(table[i + 1]) == t.queue[n - 1 - (i + 1)];
      }
      QueueSizeIsTableSize(u, table[1..]);
    }
  }

  lemma QueueSizeStep(queue: seq<Octets>, key: Octets)
    ensures QueueSize(queue + [key]) == QueueSize(queue) + |key| + 31
  {
    assert (queue + [key])[..|queue|] == queue;
  }

  /** Within the limit, inserting evicts nothing. */
  lemma InsertKeepsAll(t: DynamicTable, table: seq<Field>, f: Field)
    requires Mirrors(t, table)
    requires QueueSize(t.queue + [CompoundKey(f)]) <= MAX_TABLE_SIZE
    ensures Insert(table, f) == [f] + table
  {
    hide Mirrors;
    QueueSizeIsTableSize(t, table);
    QueueSizeStep(t.queue, CompoundKey(f));
    hide QueueSize, TableSize;
    assert TableSize(table) + EntrySize(f) <= MAX_TABLE_SIZE;
    assert Evict(table, MAX_TABLE_SIZE - EntrySize(f)) == table;
  }

  // ----- Decoding what the encoder writes

  /** A written string is read back whole exactly when its length fits the octet with room for the marker. */
  lemma DecodeWrittenString(s: Octets, rest: Octets)
    ensures DecodeString([LengthByte(s)] + s + rest) == Some((s, 1 + |s|)) <==> |s| <= 126
  {
    var b := [LengthByte(s)] + s + rest;
    var head := DecodeInteger(b, 127);
    assert b[0] == |s| % 256;
    assert b[1..1 + |s|] == s;
    if |s| > 126 && head.Some? && head.value.1 + head.value.0 <= |b| {
      assert |b[head.value.1..head.value.1 + head.value.0]| == head.value.0;
    }
  }

  /** A string takes an octet more than it has at least. */
  lemma DecodedStringTakes(b: Octets)
    ensures DecodeString(b).Some? ==> DecodeString(b).value.1 >= 1 + |DecodeString(b).value.0|
  {
    hide DecodeInteger;
  }

  lemma DecodeStaticHit(table: seq<Field>, i: nat, rest: Octets)
    requires 1 <= i <= STATIC_SIZE
    ensures DecodeField(table, [Indexed(i)] + rest) == Some((StaticField(i), 1, table))
  {
    hide StaticField;
  }

  lemma DecodeDynamicHit(table: seq<Field>, i: nat, rest: Octets)
    requires i < |table| <= 65
    ensures DecodeField(table, [Indexed(STATIC_SIZE + 1 + i)] + rest) == Some((table[i], 1, table))
  {
    hide StaticField;
  }

  lemma DecodeNamedLiteral(table: seq<Field>, i: nat, value: Octets, rest: Octets)
    requires 1 <= i <= STATIC_SIZE
    ensures var f := Field(StaticField(i).name, value);
      DecodeField(table, [64 + i, LengthByte(value)] + value + rest) == Some((f, 2 + |value|, Insert(table, f)))
      <==> |value| <= 126
  {
    hide StaticField, DecodeString, Insert, LengthByte;
    var b := [64 + i, LengthByte(value)] + value + rest;
    DecodeWrittenString(value, rest);
    assert b[1..] == [LengthByte(value)] + value + rest;
    assert DecodeInteger(b, 63) == Some((i, 1));
  }

  lemma DecodeFullLiteral(table: seq<Field>, f: Field, rest: Octets)
    ensures DecodeField(table, [64, LengthByte(f.name)] + f.name + [LengthByte(f.value)] + f.value + rest)
      == Some((f, 3 + |f.name| + |f.value|, Insert(table, f)))
      <==> ShortField(f)
  {
    hide DecodeString, Insert, LengthByte;
    var b := [64, LengthByte(f.name)] + f.name + [LengthByte(f.value)] + f.value + rest;
    var afterName := [LengthByte(f.value)] + f.value + rest;
    DecodeWrittenString(f.name, afterName);
    DecodeWrittenString(f.value, rest);
    assert b[1..] == [LengthByte(f.name)] + f.name + afterName;
    assert b[2 + |f.name|..] == afterName;
    assert DecodeInteger(b, 63) == Some((0, 1));
    DecodedStringTakes(b[1..]);
    var name := DecodeString(b[1..]);
    if name.Some? && 1 + name.value.1 <= |b| {
      DecodedStringTakes(b[1 + name.value.1..]);
    }
  }

  /** A field in neither table is decoded to itself, or to the static entry of its name with its value, and its
      octets are all read, exactly when each string written for it has at most 126 octets. */
  lemma NewLiteralRead(t: DynamicTable, table: seq<Field>, f: Field, rest: Octets)
    requires StaticFind(CompoundKey(f)).None? && CompoundKey(f) !in t.indexLookup
    ensures var b := EncodeField(t, f).0;
      var named := StaticFind(f.name);
      var g := if named.Some? then Field(StaticField(named.value).name, f.value) else f;
      DecodeField(table, b + rest) == Some((g, |b|, Insert(table, g)))
      <==> |f.value| <= 126 && (named.None? ==> |f.name| <= 126)
  {
    hide StaticFind, StaticField, DecodeField, Insert, LengthByte, CompoundKey;
    var b := EncodeField(t, f).0;
    if StaticFind(f.name).Some? {
      var i := StaticFind(f.name).value;
      assert b == [64 + i, LengthByte(f.value)] + f.value;
      hide EncodeField;
      DecodeNamedLiteral(table, i, f.value, rest);
    } else {
      assert b == [64, LengthByte(f.name)] + f.name + [LengthByte(f.value)] + f.value;
      hide EncodeField;
      DecodeFullLiteral(table, f, rest);
    }
  }

  // ----- One field

  lemma AliasFreeExtends(seen: seq<Field>, f: Field)
    requires AliasFree(seen)
    ensures AliasFree(seen + [f])
      <==> StaticFaithful(f) && forall g :: g in seen && CompoundKey(g) == CompoundKey(f) ==> g == f
  {
    hide StaticFaithful;
    var all := seen + [f];
    assert forall g :: g in all <==> g in seen || g == f;
    assert f in all;
  }

  lemma HitRecovered(t: DynamicTable, table: seq<Field>, seen: seq<Field>, f: Field, rest: Octets) returns (g: Field)
    requires Lockstep(t, table, seen) && |t.queue| <= 65 && Known(t, f)
    ensures var (b, t') := EncodeField(t, f);
      var r := DecodeField(table, b + rest);
      && 0 < |b| && r.Some? && r.value.0 == g && r.value.1 == |b|
      && (g == f ==> r.value.2 == if t' == t then table else [f] + table)
    ensures g == f <==> AliasFree(seen + [f])
  {
    hide StaticFind, StaticField, DecodeField;
    var key := CompoundKey(f);
    AliasFreeExtends(seen, f);
    if StaticFind(key).Some? {
      var i := StaticFind(key).value;
      DecodeStaticHit(table, i, rest);
      g := StaticField(i);
    } else {
      var i := |table| - 1 - t.indexLookup[key];
      assert t.queue[t.indexLookup[key]] == key;
      assert CompoundKey(table[i]) == key;
      DecodeDynamicHit(table, i, rest);
      g := table[i];
    }
  }

  lemma LiteralRecovered(t: DynamicTable, table: seq<Field>, seen: seq<Field>, f: Field, rest: Octets)
    returns (g: Field)
    requires Lockstep(t, table, seen) && ShortField(f) && !Known(t, f)
    requires QueueSize(t.queue + [CompoundKey(f)]) <= MAX_TABLE_SIZE
    ensures var (b, t') := EncodeField(t, f);
      var r := DecodeField(table, b + rest);
      && 0 < |b| && r.Some? && r.value.0 == g && r.value.1 == |b|
      && (g == f ==> r.value.2 == if t' == t then table else [f] + table)
    ensures g == f <==> AliasFree(seen + [f])
  {
    g := if StaticFind(f.name).Some? then Field(StaticField(StaticFind(f.name).value).name, f.value) else f;
    LiteralDecodes(t, table, f, rest);
    InsertKeepsAll(t, table, f);
    NewFieldIsNoAlias(t, table, seen, f);
    hide StaticFind, StaticField, DecodeField, EncodeField, Insert, QueueSize, Lockstep, AliasFree;
    assert EncodeField(t, f).1 != t by {
      LiteralGrows(t, f);
    }
  }

  lemma LiteralGrows(t: DynamicTable, f: Field)
    requires !Known(t, f)
    ensures EncodeField(t, f).1 != t
  {
    hide StaticFind;
    assert |EncodeField(t, f).1.queue| == |t.queue| + 1;
  }

  /** What a decoder makes of a literal: the field with the name the static table has for it. */
  lemma LiteralDecodes(t: DynamicTable, table: seq<Field>, f: Field, rest: Octets)
    requires ShortField(f) && !Known(t, f)
    ensures var b := EncodeField(t, f).0;
      var named := StaticFind(f.name);
      var g := if named.Some? then Field(StaticField(named.value).name, f.value) else f;
      0 < |b| && DecodeField(table, b + rest) == Some((g, |b|, Insert(table, g)))
  {
    hide StaticFind, StaticField, DecodeField, Insert;
    if StaticFind(f.name).Some? {
      DecodeNamedLiteral(table, StaticFind(f.name).value, f.value, rest);
    } else {
      DecodeFullLiteral(table, f, rest);
    }
  }

  /** A field that is not known shares no key with those seen. */
  lemma NewFieldIsNoAlias(t: DynamicTable, table: seq<Field>, seen: seq<Field>, f: Field)
    requires Lockstep(t, table, seen) && !Known(t, f)
    ensures AliasFree(seen + [f])
      <==> StaticFind(f.name).None? || StaticField(StaticFind(f.name).value).name == f.name
  {
    hide StaticFind, StaticField;
    AliasFreeExtends(seen, f);
  }

  /** The field the decoder recovers for one encoded field, in lockstep. */
  lemma FieldRecovered(t: DynamicTable, table: seq<Field>, seen: seq<Field>, f: Field, rest: Octets) returns (g: Field)
    requires Lockstep(t, table, seen) && ShortField(f) && SmallTable(EncodeField(t, f).1)
    ensures var (b, t') := EncodeField(t, f);
      var r := DecodeField(table, b + rest);
      && 0 < |b| && r.Some? && r.value.0 == g && r.value.1 == |b|
      && (g == f ==> r.value.2 == if t' == t then table else [f] + table)
    ensures g == f <==> AliasFree(seen + [f])
  {
    hide StaticFind, DecodeField, Lockstep, AliasFree;
    if Known(t, f) {
      g := HitRecovered(t, table, seen, f, rest);
    } else {
      g := LiteralRecovered(t, table, seen, f, rest);
    }
  }

  lemma KnownKept(t: DynamicTable, table: seq<Field>, seen: seq<Field>, f: Field)
    requires Lockstep(t, table, seen) && AliasFree(seen + [f]) && Known(t, f)
    ensures Lockstep(t, table, seen + [f])
  {
    hide StaticFind, StaticFaithful, AliasFree;
    var key := CompoundKey(f);
    if StaticFind(key).None? {
      var i := |table| - 1 - t.indexLookup[key];
      assert CompoundKey(table[i]) == t.queue[t.indexLookup[key]] == key;
      assert table[i] in seen;
      SameKeySame(seen, f, table[i]);
    }
    assert Remembers(t, table, f);
    hide Remembers;
    assert forall g :: g in seen + [f] ==> g in seen || g == f;
  }

  lemma SameKeySame(seen: seq<Field>, f: Field, g: Field)
    requires AliasFree(seen + [f]) && g in seen && CompoundKey(f) == CompoundKey(g)
    ensures f == g
  {
    hide StaticFaithful;
    assert f in seen + [f] && g in seen + [f];
  }

  lemma InsertedKept(t: DynamicTable, table: seq<Field>, seen: seq<Field>, f: Field)
    requires Lockstep(t, table, seen) && AliasFree(seen + [f]) && !Known(t, f)
    ensures Lockstep(EncodeField(t, f).1, [f] + table, seen + [f])
  {
    hide StaticFind, StaticFaithful, AliasFree;
    var t', table' := EncodeField(t, f).1, [f] + table;
    TableInvariantKept(t, f);
    assert Mirrors(t', table');
    forall g | g in seen + [f]
      ensures Remembers(t', table', g)
    {
      if g in seen {
        assert Remembers(t, table, g);
        EntryShifts(t, table, f, CompoundKey(g));
      }
    }
  }

  lemma EntryShifts(t: DynamicTable, table: seq<Field>, f: Field, key: Octets)
    requires TableInvariant(t) && |table| == |t.queue| && !Known(t, f)
    ensures EntryOf(t, table, key).Some? ==> EntryOf(EncodeField(t, f).1, [f] + table, key) == EntryOf(t, table, key)
  {
    hide StaticFind;
  }

  lemma LockstepKept(t: DynamicTable, table: seq<Field>, seen: seq<Field>, f: Field)
    requires Lockstep(t, table, seen) && AliasFree(seen + [f])
    ensures var t' := EncodeField(t, f).1;
      Lockstep(t', if t' == t then table else [f] + table, seen + [f])
  {
    hide StaticFind, Lockstep, AliasFree;
    if Known(t, f) {
      KnownKept(t, table, seen, f);
    } else {
      InsertedKept(t, table, seen, f);
      assert |EncodeField(t, f).1.queue| == |t.queue| + 1;
    }
  }

  // ----- A block, a run

  lemma {:induction false} TableGrows(t: DynamicTable, fs: seq<Field>)
    requires SmallTable(EncodeList(t, fs).1)
    ensures SmallTable(t)
    decreases |fs|
  {
    hide StaticFind;
    if fs != [] {
      var u := EncodeField(t, fs[0]).1;
      TableGrows(u, fs[1..]);
      if u != t {
        QueueSizeStep(t.queue, CompoundKey(fs[0]));
      }
    }
  }

  /** One block in lockstep decodes to its fields exactly when they are alias-free, and then the
      tables stay in lockstep. */
  lemma {:induction false} BlockRecovered(t: DynamicTable, table: seq<Field>, seen: seq<Field>, fs: seq<Field>)
    requires Lockstep(t, table, seen) && SmallTable(EncodeList(t, fs).1)
    requires forall f :: f in fs ==> ShortField(f)
    ensures var (b, t') := EncodeList(t, fs);
      var r := DecodeBlock(table, b);
      && (r.Some? && r.value.0 == fs <==> AliasFree(seen + fs))
      && (AliasFree(seen + fs) ==> Lockstep(t', r.value.1, seen + fs))
    decreases |fs|
  {
    hide EncodeField, DecodeField, Lockstep, AliasFree, SmallTable, ShortField;
    if fs == [] {
      assert seen + fs == seen;
      assert AliasFree(seen) by { LockstepIsAliasFree(t, table, seen); }
    } else {
      var f, gs := fs[0], fs[1..];
      var (b, u) := EncodeField(t, f);
      var rest := EncodeList(u, gs).0;
      assert f in fs && forall g :: g in gs ==> g in fs;
      TableGrows(u, gs);
      var g := FieldRecovered(t, table, seen, f, rest);
      assert seen + fs == (seen + [f]) + gs;
      assert (b + rest)[|b|..] == rest && b + rest != [];
      var tail := DecodeBlock(DecodeField(table, b + rest).value.2, rest);
      if tail.Some? {
        assert ([g] + tail.value.0)[0] == g && ([g] + tail.value.0)[1..] == tail.value.0;
        assert fs == [f] + gs;
      }
      if g == f {
        LockstepKept(t, table, seen, f);
        BlockRecovered(u, if u == t then table else [f] + table, seen + [f], gs);
      } else {
        AliasFreePrefix(seen + [f], gs);
      }
    }
  }

  lemma LockstepIsAliasFree(t: DynamicTable, table: seq<Field>, seen: seq<Field>)
    requires Lockstep(t, table, seen)
    ensures AliasFree(seen)
  {
  }

  lemma AliasFreePrefix(fs: seq<Field>, gs: seq<Field>)
    ensures AliasFree(fs + gs) ==> AliasFree(fs)
  {
    hide StaticFaithful;
    assert forall f :: f in fs ==> f in fs + gs;
  }

  function EncodeRun(t: DynamicTable, blocks: seq<seq<Field>>): (seq<Octets>, DynamicTable)
    decreases |blocks|
  {
    if blocks == [] then ([], t)
    else
      var (b, t') := EncodeList(t, blocks[0]);
      var (rest, t'') := EncodeRun(t', blocks[1..]);
      ([b] + rest, t'')
  }

  function Flatten(blocks: seq<seq<Field>>): seq<Field> {
    if blocks == [] then [] else blocks[0] + Flatten(blocks[1..])
  }

  lemma {:induction false} RunGrows(t: DynamicTable, blocks: seq<seq<Field>>)
    requires SmallTable(EncodeRun(t, blocks).1)
    ensures SmallTable(t)
    decreases |blocks|
  {
    hide SmallTable;
    if blocks != [] {
      RunGrows(EncodeList(t, blocks[0]).1, blocks[1..]);
      TableGrows(t, blocks[0]);
    }
  }

  lemma {:induction false} RunRecovered(t: DynamicTable, table: seq<Field>, seen: seq<Field>, blocks: seq<seq<Field>>)
    requires Lockstep(t, table, seen) && SmallTable(EncodeRun(t, blocks).1)
    requires forall f :: f in Flatten(blocks) ==> ShortField(f)
    ensures var (bs, t') := EncodeRun(t, blocks);
      var r := DecodeRun(table, bs);
      && (r.Some? && r.value.0 == blocks <==> AliasFree(seen + Flatten(blocks)))
      && (AliasFree(seen + Flatten(blocks)) ==> Lockstep(t', r.value.1, seen + Flatten(blocks)))
    decreases |blocks|
  {
    hide EncodeList, DecodeBlock, Lockstep, AliasFree, SmallTable, ShortField;
    if blocks == [] {
      assert seen + [] == seen;
      LockstepIsAliasFree(t, table, seen);
    } else {
      var fs, more := blocks[0], blocks[1..];
      var (b, u) := EncodeList(t, fs);
      var rest := EncodeRun(u, more).0;
      assert forall f :: f in fs || f in Flatten(more) ==> f in Flatten(blocks);
      RunGrows(u, more);
      BlockRecovered(t, table, seen, fs);
      assert seen + Flatten(blocks) == (seen + fs) + Flatten(more);
      assert ([b] + rest)[1..] == rest;
      var r := DecodeBlock(table, b);
      if r.Some? {
        var tail := DecodeRun(r.value.1, rest);
        if tail.Some? {
          assert ([r.value.0] + tail.value.0)[0] == r.value.0 && ([r.value.0] + tail.value.0)[1..] == tail.value.0;
          assert blocks == [fs] + more;
        }
        if r.value.0 == fs {
          RunRecovered(u, r.value.1, seen + fs, more);
        }
      }
      AliasFreePrefix(seen + fs, Flatten(more));
    }
  }

  /** The round trip over a whole connection.  An RFC 7541 decoder that starts empty and is fed every
      block of any run of encode calls recovers exactly the header lists if and only if the run is
      alias-free, given short fields and a table that stays small; and then its table is the
      encoder's, newest first. */
  lemma LockstepRoundTrip(blocks: seq<seq<Field>>)
    requires SmallTable(EncodeRun(EMPTY_TABLE, blocks).1)
    requires forall f :: f in Flatten(blocks) ==> ShortField(f)
    ensures var (bs, t) := EncodeRun(EMPTY_TABLE, blocks);
      var r := DecodeRun([], bs);
      && (r.Some? && r.value.0 == blocks <==> AliasFree(Flatten(blocks)))
      && (AliasFree(Flatten(blocks)) ==> Mirrors(t, r.value.1) && TableInvariant(t))
  {
    hide SmallTable, ShortField, StaticFaithful;
    assert [] + Flatten(blocks) == Flatten(blocks);
    RunRecovered(EMPTY_TABLE, [], [], blocks);
  }

  // ----- Why the conditions are there

  lemma AsciiAppend(a: string, b: string)
    ensures Ascii(a + b) == Ascii(a) + Ascii(b)
  {
  }

  lemma AsciiKey(f: (string, string))
    requires f.1 != ""
    ensures Ascii(KeyText(f)) == CompoundKey(Field(Ascii(f.0), Ascii(f.1)))
  {
    AsciiAppend(f.0 + "-", f.1);
    AsciiAppend(f.0, "-");
    assert Ascii("-") == [DASH];
  }

  /** A compound key found in the static table is the key of that entry if it has a value; a hit on an
      entry without a value is always another field's, and is decoded wrongly. */
  lemma StaticHitFaithful(f: Field)
    requires StaticFind(CompoundKey(f)).Some?
    ensures var s := StaticField(StaticFind(CompoundKey(f)).value);
      if s.value == [] then s != f else CompoundKey(s) == CompoundKey(f)
  {
    hide StaticFind;
    var i := StaticFind(CompoundKey(f)).value;
    StaticTablesAgree(i - 1);
    var pair := STATIC_FIELDS[i - 1];
    if pair.1 != "" {
      AsciiKey(pair);
    }
  }

  /** accept: charset is such a field: the decoder reads an empty accept-charset. */
  lemma AliasExample()
    ensures var f := Field(Ascii("accept"), Ascii("charset"));
      ShortField(f) && StaticFind(CompoundKey(f)).Some? && !StaticFaithful(f)
  {
    hide StaticFind;
    var f := Field(Ascii("accept"), Ascii("charset"));
    AsciiKey(("accept", "charset"));
    StaticTablesAgree(14);
    assert "accept" + "-" + "charset" == "accept-charset";
    RowElement(KEYS0, KEYS1, KEYS2, KEYS3, KEYS4, KEYS5, KEYS6, KEYS7, 14);
    assert CompoundKey(f) == StaticKey(15);
    var i := StaticFind(CompoundKey(f)).value;
    StaticTablesAgree(i - 1);
    NoValueAtFourteen(i - 1);
    StaticHitFaithful(f);
  }

  lemma NoValueAtFourteen(t: nat)
    requires t < STATIC_SIZE
    ensures |STATIC_FIELDS| == STATIC_SIZE && (|KeyText(STATIC_FIELDS[t])| == 14 ==> STATIC_FIELDS[t].1 == "")
  {
    StaticFieldCount();
    RowElement(ROW0, ROW1, ROW2, ROW3, ROW4, ROW5, ROW6, ROW7, t);
  }

  /** Names of 128 to 255 octets: the length octet reads as a Huffman mark. */
  lemma LongNameRejected(t: DynamicTable, table: seq<Field>, f: Field, rest: Octets)
    requires !Known(t, f) && StaticFind(f.name).None? && 128 <= |f.name| < 256
    ensures DecodeField(table, EncodeField(t, f).0 + rest).None?
  {
    hide StaticFind, StaticField;
    var b := EncodeField(t, f).0 + rest;
    assert b[0] == 64 && b[1..][0] == |f.name|;
    assert DecodeInteger(b, 63) == Some((0, 1));
  }

  /** The key 66 entries from the newest gets index 127, which fills the seven bits: its octet is no whole
      field, and with octets after it a decoder reads at least one of those as part of the index. */
  lemma WideIndexMisread(t: DynamicTable, table: seq<Field>, f: Field, rest: Octets)
    requires TableInvariant(t) && |t.queue| >= 66 && StaticFind(CompoundKey(f)).None?
    requires CompoundKey(f) == t.queue[|t.queue| - 66]
    ensures EncodeField(t, f).0 == [255] && DecodeBlock(table, [255]).None?
    ensures var r := DecodeField(table, EncodeField(t, f).0 + rest); r.Some? ==> r.value.1 > 1
  {
    hide StaticFind, StaticField;
    assert DynamicIndex(t, CompoundKey(f)) == 127;
    assert EncodeField(t, f).0 == [255];
    hide EncodeField;
    var b := [255] + rest;
    assert b[0] == 255 && [255][1..] == [];
    assert DecodeInteger([255], 127) == None;
    ContinuationIsLonger(b[1..], 1);
  }

  lemma ContinuationIsLonger(b: Octets, m: nat)
    ensures Continuation(b, m).Some? ==> Continuation(b, m).value.1 > 0
  {
  }
}
