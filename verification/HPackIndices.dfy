/** Which dynamic indices the packer emits are right, over every mix of encode and encodeLength. */
module HPackIndices {
  import opened HPack
  import opened HPackLockstep
  import opened Rfc7541
  import opened Wrappers

  datatype Call = Encodes(fields: seq<Field>) | Measures(fields: seq<Field>)

  /** The packer's table with its history: the field behind each queue entry, and whether encode made the
      entry; encodeLength made the others. */
  datatype Tracked = Tracked(table: DynamicTable, entries: seq<Field>, sent: seq<bool>)

  const NEW := Tracked(EMPTY_TABLE, [], [])

  function AfterField(s: Tracked, f: Field, encodes: bool): Tracked {
    var t := if encodes then EncodeField(s.table, f).1 else FieldLength(s.table, f).1;
    if t == s.table then s else Tracked(t, s.entries + [f], s.sent + [encodes])
  }

  function AfterFields(s: Tracked, fs: seq<Field>, encodes: bool): Tracked
    decreases |fs|
  {
    if fs == [] then s else AfterFields(AfterField(s, fs[0], encodes), fs[1..], encodes)
  }

  function AfterCall(s: Tracked, c: Call): Tracked { AfterFields(s, c.fields, c.Encodes?) }

  function AfterCalls(s: Tracked, calls: seq<Call>): Tracked
    decreases |calls|
  {
    if calls == [] then s else AfterCalls(AfterCall(s, calls[0]), calls[1..])
  }

  /** The tracked table is the one the two calls leave. */
  lemma {:induction false} TracksTheTable(s: Tracked, fs: seq<Field>)
    ensures AfterCall(s, Encodes(fs)).table == EncodeList(s.table, fs).1
    ensures AfterCall(s, Measures(fs)).table == ListLength(s.table, fs).1
    decreases |fs|
  {
    if fs != [] {
      hide EncodeField, FieldLength;
      TracksTheTable(AfterField(s, fs[0], true), fs[1..]);
      TracksTheTable(AfterField(s, fs[0], false), fs[1..]);
    }
  }

  /** The fields encode added to the table, newest first: the table of a decoder that has followed. */
  function SentFields(entries: seq<Field>, sent: seq<bool>): seq<Field>
    requires |entries| == |sent|
    decreases |sent|
  {
    if sent == [] then []
    else
      var n := |sent| - 1;
      (if sent[n] then [entries[n]] else []) + SentFields(entries[..n], sent[..n])
  }

  // ----- What every call keeps

  function Count(sent: seq<bool>): nat {
    if sent == [] then 0 else Count(sent[..|sent| - 1]) + if sent[|sent| - 1] then 1 else 0
  }

  /** Keys are distinct, indexLookup inverts the queue, and size counts the entries encode made. */
  ghost predicate Follows(s: Tracked) {
    var t := s.table;
    && |t.queue| == |s.entries| == |s.sent| && t.size == Count(s.sent)
    && (forall i :: 0 <= i < |t.queue| ==> t.queue[i] == CompoundKey(s.entries[i]))
    && (forall i :: 0 <= i < |t.queue| ==> t.queue[i] in t.indexLookup && t.indexLookup[t.queue[i]] == i)
    && (forall k :: k in t.indexLookup ==> t.indexLookup[k] < |t.queue| && t.queue[t.indexLookup[k]] == k)
  }

  lemma CountSnoc(sent: seq<bool>, b: bool)
    ensures Count(sent + [b]) == Count(sent) + if b then 1 else 0
  {
    assert (sent + [b])[..|sent|] == sent;
  }

  lemma FollowsField(s: Tracked, f: Field, encodes: bool)
    requires Follows(s)
    ensures Follows(AfterField(s, f, encodes))
  {
    hide StaticFind, Count;
    CountSnoc(s.sent, encodes);
  }

  lemma {:induction false} FollowsFields(s: Tracked, fs: seq<Field>, encodes: bool)
    requires Follows(s)
    ensures Follows(AfterFields(s, fs, encodes))
    decreases |fs|
  {
    if fs != [] {
      hide Follows, AfterField;
      FollowsField(s, fs[0], encodes);
      FollowsFields(AfterField(s, fs[0], encodes), fs[1..], encodes);
    }
  }

  lemma {:induction false} FollowsCalls(s: Tracked, calls: seq<Call>)
    requires Follows(s)
    ensures Follows(AfterCalls(s, calls))
    decreases |calls|
  {
    if calls != [] {
      hide Follows;
      FollowsFields(s, calls[0].fields, calls[0].Encodes?);
      FollowsCalls(AfterCall(s, calls[0]), calls[1..]);
    }
  }

  // ----- Where an entry stands in the table of the encoded fields

  /** An entry encode made stands before all that encode made later: as many as it made before it stand
      behind it. */
  lemma {:induction false} EntryStands(entries: seq<Field>, sent: seq<bool>, i: nat)
    requires |entries| == |sent| && i < |sent| && sent[i]
    ensures Count(sent[..i]) < Count(sent) == |SentFields(entries, sent)|
    ensures SentFields(entries, sent)[Count(sent) - 1 - Count(sent[..i])] == entries[i]
    decreases |sent|
  {
    hide Count, SentFields;
    var n := |sent| - 1;
    SentStep(entries, sent);
    CountIsLength(entries, sent);
    if i < n {
      assert sent[..n][..i] == sent[..i] && entries[..n][i] == entries[i] && sent[..n][i];
      EntryStands(entries[..n], sent[..n], i);
      var before, k := SentFields(entries[..n], sent[..n]), Count(sent[..n]) - 1 - Count(sent[..i]);
      assert ([entries[n]] + before)[k + 1] == before[k];
    }
  }

  /** The newest entry comes first, if encode made it. */
  lemma SentStep(entries: seq<Field>, sent: seq<bool>)
    requires |entries| == |sent| > 0
    ensures var n := |sent| - 1;
      var before := SentFields(entries[..n], sent[..n]);
      && Count(sent) == Count(sent[..n]) + (if sent[n] then 1 else 0)
      && SentFields(entries, sent) == if sent[n] then [entries[n]] + before else before
  {
  }

  lemma {:induction false} CountIsLength(entries: seq<Field>, sent: seq<bool>)
    requires |entries| == |sent|
    ensures |SentFields(entries, sent)| == Count(sent) <= |sent|
    decreases |sent|
  {
    if sent != [] {
      CountIsLength(entries[..|sent| - 1], sent[..|sent| - 1]);
    }
  }

  /** Every position of that table is some entry's. */
  lemma {:induction false} EntryAt(sent: seq<bool>, rank: nat) returns (i: nat)
    requires rank < Count(sent)
    ensures i < |sent| && sent[i] && Count(sent[..i]) == rank
    decreases |sent|
  {
    var n := |sent| - 1;
    if rank < Count(sent[..n]) {
      i := EntryAt(sent[..n], rank);
      assert sent[..n][..i] == sent[..i];
    } else {
      i := n;
    }
  }

  predicate AllSent(sent: seq<bool>, p: nat)
    requires p <= |sent|
  {
    forall i :: 0 <= i < p ==> sent[i]
  }

  lemma {:induction false} CountOfAll(sent: seq<bool>, p: nat)
    requires p <= |sent|
    ensures Count(sent[..p]) <= p && (Count(sent[..p]) == p <==> AllSent(sent, p))
  {
    if p == 0 {
      assert sent[..0] == [];
    } else {
      CountOfAll(sent, p - 1);
      assert sent[..p][..p - 1] == sent[..p - 1];
    }
  }

  // ----- The indices

  /** n is the index of f in a dynamic table, newest first (section 2.3.3 of RFC 7541). */
  predicate Names(table: seq<Field>, n: int, f: Field) {
    STATIC_SIZE < n <= STATIC_SIZE + |table| && table[n - STATIC_SIZE - 1] == f
  }

  /** The index encode computes for the key at queue position p is the index of its field in the table of
      the fields encode has added. */
  ghost predicate RightlyIndexed(s: Tracked, p: nat)
    requires Follows(s) && p < |s.table.queue|
  {
    Names(SentFields(s.entries, s.sent), DynamicIndex(s.table, s.table.queue[p]), s.entries[p])
  }

  /** The index encode computes for the key at queue position p names its field among the fields encode
      has added if and only if encodeLength made none of the entries up to p. */
  lemma IndexNamesEntry(s: Tracked, p: nat)
    requires Follows(s) && p < |s.table.queue|
    ensures RightlyIndexed(s, p) <==> AllSent(s.sent, p + 1)
  {
    hide Count, SentFields;
    var t, sent, size := s.table, s.sent, s.table.size;
    CountIsLength(s.entries, sent);
    CountOfAll(sent, p);
    CountOfAll(sent, p + 1);
    if AllSent(sent, p + 1) {
      EntryStands(s.entries, sent, p);
    } else if p < size {
      var i := EntryAt(sent, p);
      EntryStands(s.entries, sent, i);
      CountOfAll(sent, i);
      assert i > p;
      assert t.queue[i] != t.queue[p];
    }
  }

  /** Over every mix of encode and encodeLength calls on a new packer: size counts the entries encode
      made, and the index of each key names its field, among the fields encode has added, if and only if
      encodeLength made neither its entry nor an earlier one. */
  lemma MixedIndices(calls: seq<Call>)
    ensures var s := AfterCalls(NEW, calls);
      && Follows(s)
      && forall p :: 0 <= p < |s.table.queue| ==> (RightlyIndexed(s, p) <==> AllSent(s.sent, p + 1))
  {
    FollowsCalls(NEW, calls);
    var s := AfterCalls(NEW, calls);
    hide AfterCalls;
    forall p | 0 <= p < |s.table.queue|
      ensures RightlyIndexed(s, p) <==> AllSent(s.sent, p + 1)
    {
      IndexNamesEntry(s, p);
    }
  }

  /** What a decoder that holds the encoded fields makes of the octet for such a key, while the index
      fits the octet: the field itself exactly under that condition, unless the index has dropped into
      the static table and happens to meet the very field there. */
  lemma HitDecodes(s: Tracked, p: nat, rest: Octets)
    requires Follows(s) && p < |s.table.queue|
    requires StaticFind(s.table.queue[p]).None?
    requires 0 < DynamicIndex(s.table, s.table.queue[p]) < 127
    requires forall i :: 1 <= i <= STATIC_SIZE ==> StaticField(i) != s.entries[p]
    ensures var f, table := s.entries[p], SentFields(s.entries, s.sent);
      DecodeField(table, EncodeField(s.table, f).0 + rest) == Some((f, 1, table)) <==> AllSent(s.sent, p + 1)
  {
    hide StaticFind, StaticField, SentFields, Count;
    IndexNamesEntry(s, p);
    CountIsLength(s.entries, s.sent);
    var f, table := s.entries[p], SentFields(s.entries, s.sent);
    var n := DynamicIndex(s.table, s.table.queue[p]);
    assert EncodeField(s.table, f).0 == [Indexed(n)];
    hide EncodeField;
    IndexDecodes(table, n, rest);
  }

  lemma IndexDecodes(table: seq<Field>, n: nat, rest: Octets)
    requires 0 < n < 127
    ensures DecodeField(table, [Indexed(n)] + rest) == match Lookup(table, n)
      case None => None
      case Some(f) => Some((f, 1, table))
  {
    hide StaticField;
    var b := [Indexed(n)] + rest;
    assert b[0] == 128 + n;
    assert DecodeInteger(b, 127) == Some((n, 1));
  }
}
