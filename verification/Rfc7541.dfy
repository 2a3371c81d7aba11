/** A reference HPACK decoder, after RFC 7541: integers with continuation octets, plain string
    literals, indexed fields and literal fields with incremental indexing, and a dynamic table with
    eviction.  Huffman strings and the other representations are errors here. */
module Rfc7541 {
  import opened Wrappers

  type Byte = b: int | 0 <= b < 256
  type Octets = seq<Byte>

  datatype Field = Field(name: Octets, value: Octets)

  /** A string literal as octets. */
  function Ascii(s: string): Octets {
    seq(|s|, i requires 0 <= i < |s| => s[i] as int % 256)
  }

  // ----- Appendix A: the static table, with the lower-case method values this encoder uses

  const ROW0: seq<(string, string)> := [
    (":authority", ""), (":method", "get"), (":method", "post"), (":path", "/"),
    (":path", "/index.html"), (":scheme", "http"), (":scheme", "https"), (":status", "200")]
  const ROW1: seq<(string, string)> := [
    (":status", "204"), (":status", "206"), (":status", "304"), (":status", "400"),
    (":status", "404"), (":status", "500"), ("accept-charset", ""), ("accept-encoding", "gzip, deflate")]
  const ROW2: seq<(string, string)> := [
    ("accept-language", ""), ("accept-ranges", ""), ("accept", ""), ("access-control-allow-origin", ""),
    ("age", ""), ("allow", ""), ("authorization", ""), ("cache-control", "")]
  const ROW3: seq<(string, string)> := [
    ("content-disposition", ""), ("content-encoding", ""), ("content-language", ""), ("content-length", ""),
    ("content-location", ""), ("content-range", ""), ("content-type", ""), ("cookie", "")]
  const ROW4: seq<(string, string)> := [
    ("date", ""), ("etag", ""), ("expect", ""), ("expires", ""),
    ("from", ""), ("host", ""), ("if-match", ""), ("if-modified-since", "")]
  const ROW5: seq<(string, string)> := [
    ("if-none-match", ""), ("if-range", ""), ("if-unmodified-since", ""), ("last-modified", ""),
    ("link", ""), ("location", ""), ("max-forwards", ""), ("proxy-authenticate", "")]
  const ROW6: seq<(string, string)> := [
    ("proxy-authorization", ""), ("range", ""), ("referer", ""), ("refresh", ""),
    ("retry-after", ""), ("server", ""), ("set-cookie", ""), ("strict-transport-security", "")]
  const ROW7: seq<(string, string)> := [
    ("transfer-encoding", ""), ("user-agent", ""), ("vary", ""), ("via", ""),
    ("www-authenticate", "")]

  const STATIC_FIELDS: seq<(string, string)> := ((ROW0 + ROW1) + (ROW2 + ROW3)) + ((ROW4 + ROW5) + (ROW6 + ROW7))
  const STATIC_SIZE := 61

  lemma StaticFieldCount()
    ensures |STATIC_FIELDS| == STATIC_SIZE
  {
  }

  /** Static entry i, counted from 1 (section 2.3.1). */
  function StaticField(i: nat): Field
    requires 1 <= i <= STATIC_SIZE
  {
    StaticFieldCount();
    Field(Ascii(STATIC_FIELDS[i - 1].0), Ascii(STATIC_FIELDS[i - 1].1))
  }

  // ----- Section 2.3.2, 4.1 and 4.4: the dynamic table, newest entry first

  function EntrySize(f: Field): nat { |f.name| + |f.value| + 32 }

  function TableSize(fields: seq<Field>): nat {
    if fields == [] then 0 else EntrySize(fields[0]) + TableSize(fields[1..])
  }

  /** Drops entries from the old end until at most limit octets are left. */
  function Evict(fields: seq<Field>, limit: int): seq<Field> {
    if fields == [] || TableSize(fields) <= limit then fields else Evict(fields[..|fields| - 1], limit)
  }

  const MAX_TABLE_SIZE := 4096

  function Insert(table: seq<Field>, f: Field): seq<Field> {
    if EntrySize(f) > MAX_TABLE_SIZE then [] else [f] + Evict(table, MAX_TABLE_SIZE - EntrySize(f))
  }

  /** Section 2.3.3: one index space, the static table first. */
  function Lookup(table: seq<Field>, index: nat): Option<Field> {
    if index == 0 then None
    else if index <= STATIC_SIZE then Some(StaticField(index))
    else if index - STATIC_SIZE <= |table| then Some(table[index - STATIC_SIZE - 1])
    else None
  }

  // ----- Section 5.1 and 5.2: integers and strings

  function Scaled(digit: nat, m: nat): nat { digit * m }

  /** The continuation octets: the value they add, scaled by m, and how many there are. */
  function Continuation(b: Octets, m: nat): Option<(nat, nat)> {
    if b == [] then None
    else if b[0] < 128 then Some((Scaled(b[0], m), 1))
    else
      match Continuation(b[1..], m * 128)
      case None => None
      case Some((v, n)) => Some((Scaled(b[0] - 128, m) + v, n + 1))
  }

  /** An integer whose first octet keeps max + 1 values for the prefix, and its length in octets. */
  function DecodeInteger(b: Octets, max: nat): (r: Option<(nat, nat)>)
    ensures r.Some? ==> 0 < r.value.1
  {
    if b == [] then None
    else
      var prefix := b[0] % (max + 1);
      if prefix < max then Some((prefix, 1))
      else
        match Continuation(b[1..], 1)
        case None => None
        case Some((v, n)) => Some((max + v, n + 1))
  }

  /** A string literal and its length in octets; the high bit of the first octet marks Huffman. */
  function DecodeString(b: Octets): Option<(Octets, nat)> {
    if b == [] || b[0] >= 128 then None
    else
      match DecodeInteger(b, 127)
      case None => None
      case Some((n, k)) => if k + n <= |b| then Some((b[k..k + n], k + n)) else None
  }

  // ----- Section 6: header field representations

  /** Section 6.2.1 from the value on: a literal field of this name, added to the table. */
  function DecodeLiteral(table: seq<Field>, name: Octets, b: Octets, start: nat): Option<(Field, nat, seq<Field>)>
    requires start <= |b|
  {
    match DecodeString(b[start..])
    case None => None
    case Some((value, n)) => var f := Field(name, value); Some((f, start + n, Insert(table, f)))
  }

  /** One field, the octets it took, and the table after it. */
  function DecodeField(table: seq<Field>, b: Octets): Option<(Field, nat, seq<Field>)> {
    if b == [] then None
    else if b[0] >= 128 then
      match DecodeInteger(b, 127)
      case None => None
      case Some((index, n)) =>
        match Lookup(table, index) {
          case None => None
          case Some(f) => Some((f, n, table))
        }
    else if b[0] >= 64 then
      match DecodeInteger(b, 63)
      case None => None
      case Some((index, n)) =>
        if n > |b| then None
        else if index == 0 then
          match DecodeString(b[n..]) {
            case None => None
            case Some((name, k)) => if n + k <= |b| then DecodeLiteral(table, name, b, n + k) else None
          }
        else
          match Lookup(table, index) {
            case None => None
            case Some(f) => DecodeLiteral(table, f.name, b, n)
          }
    else None
  }

  /** A whole header block (section 3.2). */
  function DecodeBlock(table: seq<Field>, b: Octets): Option<(seq<Field>, seq<Field>)>
    decreases |b|
  {
    if b == [] then Some(([], table))
    else
      match DecodeField(table, b)
      case None => None
      case Some((f, n, table')) =>
        if n == 0 || n > |b| then None
        else
          match DecodeBlock(table', b[n..])
          case None => None
          case Some((fs, table'')) => Some(([f] + fs, table''))
  }

  /** The blocks of a connection, in order. */
  function DecodeRun(table: seq<Field>, blocks: seq<Octets>): Option<(seq<seq<Field>>, seq<Field>)>
    decreases |blocks|
  {
    if blocks == [] then Some(([], table))
    else
      match DecodeBlock(table, blocks[0])
      case None => None
      case Some((fs, table')) =>
        match DecodeRun(table', blocks[1..])
        case None => None
        case Some((rest, table'')) => Some(([fs] + rest, table''))
  }
}
