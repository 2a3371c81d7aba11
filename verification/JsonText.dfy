/** JSON texts after RFC 8259, and when the encoder writes one that means the value it was given. */
module JsonText {
  import opened CLibrary
  import opened Json
  import opened JsonEncoding
  import opened JsonRoundTrip

  // ----- Section 7: strings

  /** A character as it is, a two-character escape, or a \u escape and the UTF-8 octets it stands for, of which
      all that is used here is that there are at most three. */
  datatype Unit = Raw(c: char) | Short(letter: char) | Hex(digits: string, octets: string)

  predicate Unescaped(c: char) { c >= ' ' && c != '"' && c != '\\' }

  const SHORT: map<char, char> := map['"' := '"', '\\' := '\\', '/' := '/', 'b' := 8 as char, 'f' := 12 as char,
    'n' := '\n', 'r' := '\r', 't' := '\t']

  predicate IsUnit(u: Unit) {
    match u
    case Raw(c) => Unescaped(c)
    case Short(letter) => letter in SHORT
    case Hex(digits, octets) => |digits| == 4 && (forall i :: 0 <= i < 4 ==> IsHex(digits[i])) && |octets| <= 3
  }

  predicate IsHex(c: char) { '0' <= c <= '9' || 'a' <= c <= 'f' || 'A' <= c <= 'F' }

  predicate AreUnits(us: seq<Unit>) { forall i :: 0 <= i < |us| ==> IsUnit(us[i]) }

  function UnitText(u: Unit): string {
    match u
    case Raw(c) => [c]
    case Short(letter) => ['\\', letter]
    case Hex(digits, _) => "\\u" + digits
  }

  function UnitMeaning(u: Unit): string {
    match u
    case Raw(c) => [c]
    case Short(letter) => if letter in SHORT then [SHORT[letter]] else ""
    case Hex(_, octets) => octets
  }

  function UnitsText(us: seq<Unit>): string { if us == [] then "" else UnitText(us[0]) + UnitsText(us[1..]) }

  function UnitsMeaning(us: seq<Unit>): string { if us == [] then "" else UnitMeaning(us[0]) + UnitsMeaning(us[1..]) }

  // ----- Section 6: numbers

  predicate IsWhole(s: string) { AllDigits(s) && (|s| == 1 || s[0] != '0') }

  datatype Number = Number(minus: bool, whole: string, fraction: string, exponent: string)

  predicate IsNumberParts(n: Number) {
    && IsWhole(n.whole) && (n.fraction == "" || (n.fraction[0] == '.' && AllDigits(n.fraction[1..])))
    && (n.exponent == "" || IsExponent(n.exponent))
  }

  predicate IsExponent(s: string) {
    && s != "" && (s[0] == 'e' || s[0] == 'E')
    && (AllDigits(s[1..]) || (|s| > 1 && (s[1] == '+' || s[1] == '-') && AllDigits(s[2..])))
  }

  function NumberText(n: Number): string { (if n.minus then "-" else "") + n.whole + n.fraction + n.exponent }

  ghost predicate IsNumber(s: string) { exists n :: IsNumberParts(n) && s == NumberText(n) }

  /** A number without fraction and exponent, and the integer it is. */
  function IntegerOf(minus: bool, whole: string): int { if minus then 0 - Digits(whole, 0) else Digits(whole, 0) }

  // ----- Sections 2 to 5: values, with white space around every structural character

  datatype Doc =
    | DString(units: seq<Unit>)
    | DInteger(minus: bool, whole: string)
    | DNumber(number: Number)
    | DBool(b: bool)
    | DArray(items: seq<Item>, blank: string)
    | DObject(members: seq<Entry>, blank: string)

  datatype Item = Item(before: string, doc: Doc, after: string)

  datatype Entry = Entry(beforeKey: string, key: seq<Unit>, afterKey: string, beforeValue: string, doc: Doc,
                         after: string)

  predicate IsWs(s: string) { forall i :: 0 <= i < |s| ==> IsWsChar(s[i]) }

  predicate IsWsChar(c: char) { c == ' ' || c == '\t' || c == '\n' || c == '\r' }

  /** The decoder passes over all white space of JSON where it passes over white space at all. */
  lemma WhiteSpaceIsSpace(s: string)
    requires IsWs(s)
    ensures forall i :: 0 <= i < |s| ==> IsSpace(s[i])
  {
  }

  predicate IsDoc(d: Doc)
    decreases d, 0
  {
    match d
    case DString(us) => AreUnits(us)
    case DInteger(_, whole) => IsWhole(whole)
    case DNumber(n) => IsNumberParts(n)
    case DBool(_) => true
    case DArray(items, blank) => AreItems(items) && IsWs(blank)
    case DObject(members, blank) => AreEntries(members) && IsWs(blank)
  }

  predicate AreItems(items: seq<Item>)
    decreases items, 1
  {
    items == [] || (IsWs(items[0].before) && IsDoc(items[0].doc) && IsWs(items[0].after) && AreItems(items[1..]))
  }

  predicate AreEntries(ms: seq<Entry>)
    decreases ms, 1
  {
    ms == [] || (IsEntry(ms[0]) && AreEntries(ms[1..]))
  }

  predicate IsEntry(m: Entry)
    decreases m, 1
  {
    && IsWs(m.beforeKey) && AreUnits(m.key) && IsWs(m.afterKey) && IsWs(m.beforeValue) && IsDoc(m.doc) && IsWs(m.after)
  }

  function DocText(d: Doc): string
    decreases d, 0
  {
    match d
    case DString(us) => "\"" + UnitsText(us) + "\""
    case DInteger(minus, whole) => (if minus then "-" else "") + whole
    case DNumber(n) => NumberText(n)
    case DBool(b) => if b then "true" else "false"
    case DArray(items, blank) => "[" + ItemsText(items) + blank + "]"
    case DObject(members, blank) => "{" + EntriesText(members) + blank + "}"
  }

  function PaddedText(i: Item): string
    decreases i, 1
  {
    i.before + DocText(i.doc) + i.after
  }

  function ItemsText(items: seq<Item>): string
    decreases items, 2
  {
    if items == [] then "" else PaddedText(items[0]) + (if |items| == 1 then "" else "," + ItemsText(items[1..]))
  }

  function EntryText(m: Entry): string
    decreases m, 1
  {
    m.beforeKey + ("\"" + UnitsText(m.key) + "\"") + m.afterKey + ":" + m.beforeValue + DocText(m.doc) + m.after
  }

  function EntriesText(ms: seq<Entry>): string
    decreases ms, 2
  {
    if ms == [] then "" else EntryText(ms[0]) + (if |ms| == 1 then "" else "," + EntriesText(ms[1..]))
  }

  // ----- What a text means

  function KeysOf(ms: seq<Entry>): (keys: seq<string>)
    ensures |keys| == |ms|
  {
    if ms == [] then [] else [UnitsMeaning(ms[0].key)] + KeysOf(ms[1..])
  }

  /** d means v: a double is meant by the number std::to_string prints for it, and an object by members with its
      keys, each once, in any order. */
  ghost predicate Means(std: Std, d: Doc, v: Value)
    decreases d, 0
  {
    match v
    case Str(s) => d.DString? && UnitsMeaning(d.units) == s
    case Int(i) => d.DInteger? && IntegerOf(d.minus, d.whole) == i
    case Double(token) => d.DNumber? && NumberText(d.number) == std.show(token)
    case Bool(b) => d == DBool(b)
    case Arr(items) => d.DArray? && ItemsMean(std, d.items, items)
    case Obj(members) =>
      d.DObject? && Lists(KeysOf(d.members), members) && EntriesMean(std, d.members, v)
  }

  ghost predicate ItemsMean(std: Std, ds: seq<Item>, items: seq<Value>)
    decreases ds, 1
  {
    |ds| == |items| && (ds == [] || (Means(std, ds[0].doc, items[0]) && ItemsMean(std, ds[1..], items[1..])))
  }

  ghost predicate EntriesMean(std: Std, ms: seq<Entry>, v: Value)
    decreases ms, 1
  {
    ms == [] || (EntryMeans(std, ms[0], v) && EntriesMean(std, ms[1..], v))
  }

  ghost predicate EntryMeans(std: Std, m: Entry, v: Value)
    decreases m, 1
  {
    v.Obj? && UnitsMeaning(m.key) in v.members && Means(std, m.doc, v.members[UnitsMeaning(m.key)])
  }

  // ----- The values that can be written without escapes

  predicate Legal(s: string) { forall i :: 0 <= i < |s| ==> Unescaped(s[i]) }

  /** No string and no key holds a quote, a backslash or a control character, and no double prints as something
      that is no number. */
  ghost predicate Writable(std: Std, v: Value)
    decreases v
  {
    match v
    case Str(s) => Legal(s)
    case Int(_) => true
    case Double(token) => IsNumber(std.show(token))
    case Bool(_) => true
    case Arr(items) => forall i :: 0 <= i < |items| ==> Writable(std, items[i])
    case Obj(members) => forall k :: k in members ==> Legal(k) && Writable(std, members[k])
  }

  // ----- Such a value is written as a text that means it

  function Raws(s: string): (us: seq<Unit>)
    ensures |us| == |s|
  {
    if s == "" then [] else [Raw(s[0])] + Raws(s[1..])
  }

  lemma {:induction false} RawsRead(s: string)
    ensures UnitsText(Raws(s)) == s && UnitsMeaning(Raws(s)) == s && (Legal(s) ==> AreUnits(Raws(s)))
  {
    if s != "" {
      RawsRead(s[1..]);
      assert Raws(s)[1..] == Raws(s[1..]);
      assert s == [s[0]] + s[1..];
    }
  }

  ghost function NumberOf(s: string): (n: Number)
    requires IsNumber(s)
    ensures IsNumberParts(n) && s == NumberText(n)
  {
    var n :| IsNumberParts(n) && s == NumberText(n);
    n
  }

  ghost function DocOf(std: Std, v: Value): Doc
    requires Sane(std) && Writable(std, v)
    decreases v, 1, 0
  {
    match v
    case Str(s) => DString(Raws(s))
    case Int(i) => DInteger(i < 0, Decimal(if i < 0 then -i else i))
    case Double(token) => DNumber(NumberOf(std.show(token)))
    case Bool(b) => DBool(b)
    case Arr(items) => DArray(ItemsOf(std, items), "")
    case Obj(members) => DObject(EntriesOf(std, v, std.order(members), 2), Ending(2))
  }

  ghost function ItemsOf(std: Std, items: seq<Value>): (ds: seq<Item>)
    requires Sane(std) && forall i :: 0 <= i < |items| ==> Writable(std, items[i])
    ensures |ds| == |items|
    decreases items, 0, 0
  {
    if items == [] then [] else [Item("", DocOf(std, items[0]), "")] + ItemsOf(std, items[1..])
  }

  /** The white space before a member and before the closing brace. */
  function Margin(indent: nat): string { if indent > 0 then "\n" + Spaces(indent) else "" }

  function Ending(indent: nat): string { if indent > 0 then "\n" else "" }

  ghost function EntriesOf(std: Std, v: Value, keys: seq<string>, indent: nat): (ms: seq<Entry>)
    requires Sane(std) && Known(keys, v) && Writable(std, v)
    ensures |ms| == |keys|
    decreases v, 0, |keys|
  {
    if keys == [] then []
    else
      [EntryOf(indent, keys[0], DocOf(std, v.members[keys[0]]))] + EntriesOf(std, v, keys[1..], indent)
  }

  function EntryOf(indent: nat, key: string, d: Doc): Entry { Entry(Margin(indent), Raws(key), "", "", d, "") }

  lemma MarginIsWs(indent: nat)
    ensures IsWs(Margin(indent)) && IsWs(Ending(indent)) && Closing(indent) == Ending(indent) + "}"
    ensures Opening(indent, true) == Margin(indent)
  {
  }

  lemma IntegerIsWritten(i: int)
    ensures var whole := Decimal(if i < 0 then -i else i);
      IsWhole(whole) && IntegerOf(i < 0, whole) == i && IntToString(i) == (if i < 0 then "-" else "") + whole
  {
    var n := if i < 0 then -i else i;
    DecimalDigits(n);
    NoLeadingZero(n);
    assert "" + Decimal(n) == Decimal(n);
  }

  lemma {:induction false} NoLeadingZero(n: nat)
    ensures n > 0 ==> Decimal(n)[0] != '0'
  {
    if n >= 10 {
      NoLeadingZero(n / 10);
    }
  }

  lemma {:induction false} ValueIsWritten(std: Std, v: Value)
    requires Sane(std) && Writable(std, v)
    ensures var d := DocOf(std, v); IsDoc(d) && DocText(d) == EncodedValue(std, v) && Means(std, d, v)
    decreases v, 1, 0
  {
    hide Sane, ItemsText, EntriesText, AreEntries, AreItems, ItemsMean, EntriesMean, EntriesOf, ItemsOf, EncodedItems;
    hide EncodedMembers, IsNumberParts, Closing, Ending;
    match v
    case Str(s) => RawsRead(s);
    case Int(i) => IntegerIsWritten(i);
    case Double(_) =>
    case Bool(_) =>
    case Arr(items) =>
      ItemsAreWritten(std, items);
      assert EncodedItems(std, items, true) + "" == EncodedItems(std, items, true);
    case Obj(members) =>
      KeysAreKnown(std, members);
      EntriesAreWritten(std, v, std.order(members), 2);
      MarginIsWs(2);
      Regroup("{", EncodedMembers(std, v, std.order(members), 2, true), Ending(2), "}");
  }

  lemma KeysAreKnown(std: Std, members: map<string, Value>)
    requires Sane(std)
    ensures Known(std.order(members), Obj(members)) && Lists(std.order(members), members)
  {
    assert Lists(std.order(members), members);
  }

  lemma Regroup(a: string, b: string, c: string, d: string)
    ensures a + b + (c + d) == a + b + c + d
  {
  }

  lemma {:induction false} ItemsAreWritten(std: Std, items: seq<Value>)
    requires Sane(std) && forall i :: 0 <= i < |items| ==> Writable(std, items[i])
    ensures var ds := ItemsOf(std, items);
      AreItems(ds) && ItemsText(ds) == EncodedItems(std, items, true) && ItemsMean(std, ds, items)
    decreases items, 0, 0
  {
    hide Sane, Writable, DocOf, IsDoc, DocText, Means, EncodedValue;
    if items == [] {
      NoItems(std, true);
    } else {
      var rest := items[1..];
      ValueIsWritten(std, items[0]);
      ItemsAreWritten(std, rest);
      LaterItems(std, rest);
      ItemText(std, items[0]);
      var d := Item("", DocOf(std, items[0]), "");
      assert ItemsOf(std, items) == [d] + ItemsOf(std, rest);
      hide ItemsOf, EncodedItem;
      ItemsInTurn(d, ItemsOf(std, rest));
      ItemsMeanInTurn(std, d, ItemsOf(std, rest), items);
      FirstItem(std, items);
    }
  }

  lemma FirstItem(std: Std, items: seq<Value>)
    requires Sane(std) && items != []
    ensures EncodedItems(std, items, true) == EncodedItem(std, items[0], true) + EncodedItems(std, items[1..], false)
  {
    hide EncodedItem;
  }

  lemma ItemsInTurn(d: Item, ds: seq<Item>)
    requires d.before == d.after == ""
    ensures ItemsText([d] + ds) == DocText(d.doc) + (if ds == [] then "" else "," + ItemsText(ds))
    ensures AreItems([d] + ds) <==> IsDoc(d.doc) && AreItems(ds)
  {
    hide DocText, IsDoc;
    assert ([d] + ds)[1..] == ds;
    assert PaddedText(d) == DocText(d.doc);
  }

  lemma ItemsMeanInTurn(std: Std, d: Item, ds: seq<Item>, items: seq<Value>)
    requires items != []
    ensures ItemsMean(std, [d] + ds, items) <==> Means(std, d.doc, items[0]) && ItemsMean(std, ds, items[1..])
  {
    hide Means;
    assert ([d] + ds)[1..] == ds;
  }

  lemma {:induction false} EntriesAreWritten(std: Std, v: Value, keys: seq<string>, indent: nat)
    requires Sane(std) && Known(keys, v) && Writable(std, v)
    ensures var ms := EntriesOf(std, v, keys, indent);
      && AreEntries(ms) && EntriesText(ms) == EncodedMembers(std, v, keys, indent, true)
      && KeysOf(ms) == keys && EntriesMean(std, ms, v)
    decreases v, 0, |keys|
  {
    hide Sane, DocOf, DocText, IsDoc, Means, EncodedMembers, EncodedMember, EncodedValue, EntryOf, EntryText, IsEntry;
    hide EntryMeans, UnitsMeaning, EntriesText, AreEntries, EntriesMean;
    if keys == [] {
      NoEntries(std, v);
      NoMembers(std, v, indent, true);
    } else {
      var key, rest := keys[0], keys[1..];
      KnownSlice(keys, v, 1);
      assert v.Obj? && key in v.members && Writable(std, v.members[key]);
      hide Known, Writable;
      ValueIsWritten(std, v.members[key]);
      EntriesAreWritten(std, v, rest, indent);
      EntryIsWritten(std, v, key, indent);
      LaterMembers(std, v, rest, indent);
      EncodedMembersOf(std, v, keys, indent, true);
      EntriesInTurn(std, EntryOf(indent, key, DocOf(std, v.members[key])), EntriesOf(std, v, rest, indent), v);
      assert keys == [key] + rest;
    }
  }

  lemma NoEntries(std: Std, v: Value)
    ensures AreEntries([]) && EntriesText([]) == "" && EntriesMean(std, [], v) && KeysOf([]) == []
  {
  }

  lemma EntryIsWritten(std: Std, v: Value, key: string, indent: nat)
    requires Sane(std) && v.Obj? && key in v.members && Writable(std, v)
    requires var d := DocOf(std, v.members[key]);
      IsDoc(d) && DocText(d) == EncodedValue(std, v.members[key]) && Means(std, d, v.members[key])
    ensures var m := EntryOf(indent, key, DocOf(std, v.members[key]));
      && IsEntry(m) && EntryMeans(std, m, v) && UnitsMeaning(m.key) == key
      && EntryText(m) == EncodedMember(std, key, v.members[key], indent, true)
  {
    hide Sane, DocOf, DocText, EncodedValue, IsDoc, Means;
    RawsRead(key);
    MarginIsWs(indent);
    hide Margin, Opening, UnitsText, UnitsMeaning;
    EntryInParts(Margin(indent), key, EncodedValue(std, v.members[key]));
  }

  lemma EntryInParts(margin: string, key: string, value: string)
    ensures margin + ("\"" + key + "\"") + "" + ":" + "" + value + "" == margin + "\"" + key + "\":" + value
  {
    assert margin + ("\"" + key + "\"") + "" + ":" + "" == margin + "\"" + key + "\":";
  }

  lemma EntriesInTurn(std: Std, m: Entry, ms: seq<Entry>, v: Value)
    ensures EntriesText([m] + ms) == EntryText(m) + (if ms == [] then "" else "," + EntriesText(ms))
    ensures AreEntries([m] + ms) <==> IsEntry(m) && AreEntries(ms)
    ensures KeysOf([m] + ms) == [UnitsMeaning(m.key)] + KeysOf(ms)
    ensures EntriesMean(std, [m] + ms, v) <==> EntryMeans(std, m, v) && EntriesMean(std, ms, v)
  {
    hide EntryText, IsEntry, UnitsMeaning, EntryMeans;
    assert ([m] + ms)[1..] == ms;
  }
}
