/** The encoder writes a JSON text that means its value exactly when nothing in it needs an escape.  A text with
    an escape is longer, not counting white space, than what the encoder writes. */
module JsonWritten {
  import opened CLibrary
  import opened Json
  import opened JsonEncoding
  import opened JsonRoundTrip
  import opened JsonText

  // ----- Characters other than white space

  function Weight(s: string): nat { if s == "" then 0 else (if IsWsChar(s[0]) then 0 else 1) + Weight(s[1..]) }

  lemma {:induction false} WeightConcat(a: string, b: string)
    ensures Weight(a + b) == Weight(a) + Weight(b)
  {
    if a == "" {
      assert a + b == b;
    } else {
      assert (a + b)[1..] == a[1..] + b;
      WeightConcat(a[1..], b);
    }
  }

  lemma {:induction false} WeightBounds(s: string)
    ensures Weight(s) <= |s| && (IsWs(s) ==> Weight(s) == 0)
    ensures (forall i :: 0 <= i < |s| ==> !IsWsChar(s[i])) ==> Weight(s) == |s|
  {
    if s != "" {
      WeightBounds(s[1..]);
    }
  }

  lemma WeightOfThree(a: string, b: string, c: string)
    ensures Weight(a + b + c) == Weight(a) + Weight(b) + Weight(c)
  {
    WeightConcat(a + b, c);
    WeightConcat(a, b);
  }

  lemma WeightOfChar(c: char)
    ensures Weight([c]) == if IsWsChar(c) then 0 else 1
  {
    assert [c][1..] == "";
  }

  /** The weight of what the encoder writes for v. */
  ghost function Least(std: Std, v: Value): (n: nat)
    requires Sane(std)
    decreases v, 1, 0
  {
    match v
    case Str(s) => 2 + Weight(s)
    case Int(i) => |IntToString(i)|
    case Double(token) => Weight(std.show(token))
    case Bool(b) => if b then 4 else 5
    case Arr(items) => Bracketed(LeastItems(std, items))
    case Obj(members) => Bracketed(LeastMembers(std, v, std.order(members)))
  }

  /** Two brackets around some parts, each counted with a comma after it. */
  function Bracketed(parts: nat): nat { if parts == 0 then 2 else parts + 1 }

  ghost function LeastItems(std: Std, items: seq<Value>): nat
    requires Sane(std)
    decreases items, 0, 0
  {
    if items == [] then 0 else Least(std, items[0]) + 1 + LeastItems(std, items[1..])
  }

  ghost function LeastMembers(std: Std, v: Value, keys: seq<string>): nat
    requires Sane(std) && Known(keys, v)
    decreases v, 0, |keys|
  {
    if keys == [] then 0 else LeastMember(std, v, keys[0]) + LeastMembers(std, v, keys[1..])
  }

  ghost function LeastMember(std: Std, v: Value, key: string): nat
    requires Sane(std) && v.Obj? && key in v.members
    decreases v, 0, 0
  {
    Weight(key) + 3 + Least(std, v.members[key]) + 1
  }

  // ----- The weight of what the encoder writes

  lemma {:induction false} EncodedWeight(std: Std, v: Value)
    requires Sane(std)
    ensures Weight(EncodedValue(std, v)) == Least(std, v)
    decreases v, 1, 0
  {
    hide Sane, EncodedItems, EncodedMembers, LeastItems, LeastMembers, Weight, IntToString, Bracketed;
    match v
    case Str(s) => QuotedWeight(s);
    case Int(i) => IntWeight(i);
    case Double(_) =>
    case Bool(b) => BoolWeight(b);
    case Arr(items) =>
      EncodedItemsWeight(std, items);
      WeightOfThree("[", EncodedItems(std, items, true), "]");
      BracketWeights();
      SumOfParts(Weight(EncodedItems(std, items, true)), LeastItems(std, items));
    case Obj(members) => EncodedObjectWeight(std, members, 2);
  }

  lemma SumOfParts(text: nat, parts: nat)
    requires text + (if parts == 0 then 0 else 1) == parts
    ensures Bracketed(parts) == text + 2
  {
  }

  lemma QuotedWeight(s: string)
    ensures Weight("\"" + s + "\"") == 2 + Weight(s)
  {
    WeightOfThree("\"", s, "\"");
    WeightOfChar('"');
  }

  lemma IntWeight(i: int)
    ensures Weight(IntToString(i)) == |IntToString(i)|
  {
    DecimalDigits(if i < 0 then -i else i);
    WeightBounds(IntToString(i));
  }

  lemma BoolWeight(b: bool)
    ensures Weight(if b then "true" else "false") == if b then 4 else 5
  {
    WeightBounds("true");
    WeightBounds("false");
  }

  lemma BracketWeights()
    ensures Weight("[") == Weight("]") == Weight("{") == Weight("}") == 1
    ensures Weight(",") == Weight(":") == 1 && Weight("") == 0
  {
    WeightOfChar('[');
    WeightOfChar(']');
    WeightOfChar('{');
    WeightOfChar('}');
    WeightOfChar(',');
    WeightOfChar(':');
  }

  lemma {:induction false} EncodedItemsWeight(std: Std, items: seq<Value>)
    requires Sane(std)
    ensures Weight(EncodedItems(std, items, true)) + (if LeastItems(std, items) == 0 then 0 else 1)
         == LeastItems(std, items)
    decreases items, 0, 0
  {
    hide Sane, Weight, EncodedValue, Least;
    BracketWeights();
    if items == [] {
      NoItems(std, true);
    } else {
      var rest := items[1..];
      EncodedWeight(std, items[0]);
      EncodedItemsWeight(std, rest);
      FirstItem(std, items);
      ItemText(std, items[0]);
      LaterItems(std, rest);
      hide EncodedItems, EncodedItem;
      WeightConcat(EncodedValue(std, items[0]), EncodedItems(std, rest, false));
      if rest != [] {
        WeightConcat(",", EncodedItems(std, rest, true));
      }
    }
  }

  lemma {:induction false} EncodedObjectWeight(std: Std, members: map<string, Value>, indent: nat)
    requires Sane(std)
    ensures (Weight(EncodedObject(std, members, indent))
      == Bracketed(LeastMembers(std, Obj(members), std.order(members))))
    ensures (Weight("{" + EncodedMembers(std, Obj(members), std.order(members), indent, true) + Closing(indent))
      == Bracketed(LeastMembers(std, Obj(members), std.order(members))))
    decreases Obj(members), 0, |std.order(members)| + 1
  {
    hide Sane, Weight, EncodedMembers, LeastMembers, Bracketed, Closing;
    var v, keys := Obj(members), std.order(members);
    KeysAreKnown(std, members);
    EncodedMembersWeight(std, v, keys, indent);
    WeightOfThree("{", EncodedMembers(std, v, keys, indent, true), Closing(indent));
    BracketWeights();
    MarginIsWs(indent);
    WeightBounds(Ending(indent));
    WeightConcat(Ending(indent), "}");
    SumOfParts(Weight(EncodedMembers(std, v, keys, indent, true)), LeastMembers(std, v, keys));
  }

  lemma {:induction false} EncodedMembersWeight(std: Std, v: Value, keys: seq<string>, indent: nat)
    requires Sane(std) && Known(keys, v)
    ensures Weight(EncodedMembers(std, v, keys, indent, true)) + (if LeastMembers(std, v, keys) == 0 then 0 else 1)
         == LeastMembers(std, v, keys)
    decreases v, 0, |keys|
  {
    BracketWeights();
    if keys == [] {
      NoMembers(std, v, indent, true);
    } else {
      var key, rest := keys[0], keys[1..];
      KnownSlice(keys, v, 1);
      EncodedWeight(std, v.members[key]);
      EncodedMemberWeight(std, key, v.members[key], indent);
      EncodedMembersWeight(std, v, rest, indent);
      EncodedMembersOf(std, v, keys, indent, true);
      LaterMembers(std, v, rest, indent);
      hide Sane, Known, Weight, Least, EncodedMembers, EncodedMember;
      WeightConcat(EncodedMember(std, key, v.members[key], indent, true), EncodedMembers(std, v, rest, indent, false));
      if rest != [] {
        WeightConcat(",", EncodedMembers(std, v, rest, indent, true));
      }
    }
  }

  lemma EncodedMemberWeight(std: Std, key: string, value: Value, indent: nat)
    requires Sane(std)
    ensures Weight(EncodedMember(std, key, value, indent, true)) == Weight(key) + 3 + Weight(EncodedValue(std, value))
  {
    hide Sane, EncodedValue, Weight;
    MarginIsWs(indent);
    hide Opening;
    var margin, text := Margin(indent), EncodedValue(std, value);
    WeightBounds(margin);
    WeightOfThree(margin + "\"", key, "\":" + text);
    assert margin + "\"" + key + "\":" + text == margin + "\"" + key + ("\":" + text);
    WeightConcat(margin, "\"");
    WeightConcat("\":", text);
    WeightBounds("\"");
    WeightBounds("\":");
  }

  // ----- The weight of any text that means v

  lemma {:induction false} UnitsWeight(us: seq<Unit>)
    requires AreUnits(us)
    ensures Weight(UnitsText(us)) > Weight(UnitsMeaning(us))
      || (Weight(UnitsText(us)) == Weight(UnitsMeaning(us)) && Legal(UnitsMeaning(us)))
  {
    if us != [] {
      UnitWeight(us[0]);
      UnitsWeight(us[1..]);
      hide Weight, UnitText, UnitMeaning;
      WeightConcat(UnitText(us[0]), UnitsText(us[1..]));
      WeightConcat(UnitMeaning(us[0]), UnitsMeaning(us[1..]));
    }
  }

  lemma UnitWeight(u: Unit)
    requires IsUnit(u)
    ensures Weight(UnitText(u)) > Weight(UnitMeaning(u))
      || (Weight(UnitText(u)) == Weight(UnitMeaning(u)) && Legal(UnitMeaning(u)))
  {
    hide Weight;
    WeightBounds(UnitText(u));
    WeightBounds(UnitMeaning(u));
  }

  lemma {:induction false} DecimalIsShort(s: string)
    requires AllDigits(s)
    ensures |Decimal(Digits(s, 0))| <= |s|
  {
    var t, c := s[..|s| - 1], s[|s| - 1];
    if t == "" {
      assert s[1..] == "";
    } else {
      assert s == t + [c];
      DigitsSnoc(t, 0, c);
      DecimalIsShort(t);
    }
  }

  lemma IntegerWeight(minus: bool, whole: string)
    requires IsWhole(whole)
    ensures Weight((if minus then "-" else "") + whole) >= |IntToString(IntegerOf(minus, whole))|
  {
    WeightBounds((if minus then "-" else "") + whole);
    DecimalIsShort(whole);
  }

  /** heavier: strictly more, or as much and nothing in v needs an escape. */
  ghost predicate Outweighs(std: Std, text: string, v: Value)
    requires Sane(std)
  {
    Weight(text) > Least(std, v) || (Weight(text) == Least(std, v) && Writable(std, v))
  }

  lemma {:induction false} DocWeight(std: Std, d: Doc, v: Value)
    requires Sane(std) && IsDoc(d) && Means(std, d, v)
    ensures Outweighs(std, DocText(d), v)
    decreases d, 0
  {
    match v
    case Str(s) => StringWeight(std, d.units, s);
    case Int(i) => IntegerWeight(d.minus, d.whole);
    case Double(token) =>
    case Bool(b) => BoolWeight(b);
    case Arr(items) =>
      ItemsWeight(std, d.items, items);
      ArrayWeight(std, d.items, d.blank, items);
    case Obj(members) =>
      KeysAreKnown(std, members);
      KeysMeant(std, d.members, members);
      EntriesWeight(std, d.members, v);
      ObjectWeight(std, d.members, d.blank, members);
  }

  lemma StringWeight(std: Std, us: seq<Unit>, s: string)
    requires Sane(std) && AreUnits(us) && UnitsMeaning(us) == s
    ensures Outweighs(std, DocText(DString(us)), Str(s))
  {
    hide Weight, Legal;
    UnitsWeight(us);
    QuotedWeight(UnitsText(us));
  }

  lemma {:induction false} ItemsWeight(std: Std, ds: seq<Item>, items: seq<Value>)
    requires Sane(std) && AreItems(ds) && ItemsMean(std, ds, items)
    ensures var text, least := Weight(ItemsText(ds)) + (if ds == [] then 0 else 1), LeastItems(std, items);
      text > least || (text == least && forall i :: 0 <= i < |items| ==> Writable(std, items[i]))
    decreases ds, 1
  {
    hide Sane, Weight, Least, Writable, DocText, IsDoc, Means;
    BracketWeights();
    if ds != [] {
      var d, rest := ds[0], ds[1..];
      DocWeight(std, d.doc, items[0]);
      ItemsWeight(std, rest, items[1..]);
      PaddedWeight(d.before, DocText(d.doc), d.after);
      ItemsTextWeight(ds);
    }
  }

  lemma ItemsTextWeight(ds: seq<Item>)
    requires ds != []
    ensures Weight(ItemsText(ds)) + 1
         == Weight(PaddedText(ds[0])) + 1 + Weight(ItemsText(ds[1..])) + (if |ds| == 1 then 0 else 1)
  {
    hide Weight, PaddedText;
    BracketWeights();
    if |ds| == 1 {
      assert ds[1..] == [];
      WeightConcat(PaddedText(ds[0]), "");
    } else {
      var more := ItemsText(ds[1..]);
      WeightConcat(PaddedText(ds[0]), "," + more);
      WeightConcat(",", more);
    }
  }

  lemma PaddedWeight(before: string, text: string, after: string)
    requires IsWs(before) && IsWs(after)
    ensures Weight(before + text + after) == Weight(text)
  {
    WeightOfThree(before, text, after);
    WeightBounds(before);
    WeightBounds(after);
  }

  lemma ArrayWeight(std: Std, ds: seq<Item>, blank: string, items: seq<Value>)
    requires Sane(std) && |ds| == |items| && IsWs(blank)
    requires var text, least := Weight(ItemsText(ds)) + (if ds == [] then 0 else 1), LeastItems(std, items);
      text > least || (text == least && forall i :: 0 <= i < |items| ==> Writable(std, items[i]))
    ensures Outweighs(std, DocText(DArray(ds, blank)), Arr(items))
  {
    hide Sane, Weight, ItemsText;
    BracketWeights();
    FourParts("[", ItemsText(ds), blank, "]");
    NoItemsText(ds);
    hide LeastItems;
    LeastItemsIsNone(std, items);
  }

  lemma FourParts(a: string, b: string, blank: string, c: string)
    requires IsWs(blank)
    ensures Weight(a + b + blank + c) == Weight(a) + Weight(b) + Weight(c)
  {
    WeightOfThree(a + b, blank, c);
    WeightConcat(a, b);
    WeightBounds(blank);
  }

  lemma NoItemsText(ds: seq<Item>)
    ensures ds == [] ==> ItemsText(ds) == ""
  {
  }

  lemma LeastItemsIsNone(std: Std, items: seq<Value>)
    requires Sane(std)
    ensures LeastItems(std, items) == 0 <==> items == []
  {
  }

  /** The keys of the text are those of the object. */
  lemma KeysMeant(std: Std, ms: seq<Entry>, members: map<string, Value>)
    requires Sane(std) && Lists(KeysOf(ms), members)
    ensures Known(KeysOf(ms), Obj(members))
    ensures LeastMembers(std, Obj(members), KeysOf(ms)) == LeastMembers(std, Obj(members), std.order(members))
  {
    hide LeastMembers;
    KeysAreKnown(std, members);
    SumPermutes(std, Obj(members), KeysOf(ms), std.order(members));
  }

  predicate Distinct(keys: seq<string>) { forall i, j :: 0 <= i < j < |keys| ==> keys[i] != keys[j] }

  /** The sum does not depend on the order of the keys. */
  lemma {:induction false} SumPermutes(std: Std, v: Value, a: seq<string>, b: seq<string>)
    requires Sane(std) && Known(a, v) && Known(b, v) && Distinct(a) && Distinct(b)
    requires forall k :: k in a <==> k in b
    ensures LeastMembers(std, v, a) == LeastMembers(std, v, b)
    decreases |a|
  {
    hide Sane, LeastMember;
    if a == [] {
      if b != [] {
        FirstIsIn(b);
        assert false;
      }
    } else {
      assert a[0] in a;
      var j :| 0 <= j < |b| && b[j] == a[0];
      var rest := b[..j] + b[j + 1..];
      SumRemoves(std, v, b, j);
      Removed(a, b, j);
      SumPermutes(std, v, a[1..], rest);
    }
  }

  lemma FirstIsIn(keys: seq<string>)
    requires keys != []
    ensures keys[0] in keys
  {
  }

  lemma Removed(a: seq<string>, b: seq<string>, j: nat)
    requires a != [] && j < |b| && b[j] == a[0] && Distinct(a) && Distinct(b) && forall k :: k in a <==> k in b
    ensures var rest := b[..j] + b[j + 1..];
      Distinct(rest) && Distinct(a[1..]) && forall k :: k in a[1..] <==> k in rest
  {
    var rest := b[..j] + b[j + 1..];
    forall k ensures k in rest <==> k in b && k != b[j] {
      if k in b && k != b[j] {
        var i :| 0 <= i < |b| && b[i] == k;
        assert rest[if i < j then i else i - 1] == k;
      }
    }
    forall k ensures k in a[1..] <==> k in a && k != a[0] {
      if k in a && k != a[0] {
        var i :| 0 <= i < |a| && a[i] == k;
        assert a[1..][i - 1] == k;
      }
    }
  }

  lemma {:induction false} SumRemoves(std: Std, v: Value, keys: seq<string>, j: nat)
    requires Sane(std) && Known(keys, v) && j < |keys|
    ensures Known(keys[..j] + keys[j + 1..], v)
    ensures LeastMembers(std, v, keys) == LeastMember(std, v, keys[j]) + LeastMembers(std, v, keys[..j] + keys[j + 1..])
    decreases |keys|
  {
    hide Sane, LeastMember;
    var rest := keys[..j] + keys[j + 1..];
    if j == 0 {
      assert rest == keys[1..];
    } else {
      SumRemoves(std, v, keys[1..], j - 1);
      assert rest[1..] == keys[1..][..j - 1] + keys[1..][j..];
      assert rest[0] == keys[0];
    }
  }

  lemma {:induction false} EntriesWeight(std: Std, ms: seq<Entry>, v: Value)
    requires Sane(std) && AreEntries(ms) && EntriesMean(std, ms, v) && Known(KeysOf(ms), v)
    ensures var text, least := Weight(EntriesText(ms)) + (if ms == [] then 0 else 1), LeastMembers(std, v, KeysOf(ms));
      text > least || (text == least && forall i :: 0 <= i < |ms| ==>
        Legal(KeysOf(ms)[i]) && Writable(std, v.members[KeysOf(ms)[i]]))
    decreases ms, 1
  {
    hide Sane, Weight, Least, Writable, IsDoc, Means, Legal, UnitsMeaning;
    BracketWeights();
    if ms != [] {
      var m, rest := ms[0], ms[1..];
      var key := UnitsMeaning(m.key);
      assert KeysOf(ms) == [key] + KeysOf(rest);
      assert Known(KeysOf(rest), v) by {
        assert KeysOf(rest) == KeysOf(ms)[1..];
        KnownSlice(KeysOf(ms), v, 1);
      }
      DocWeight(std, m.doc, v.members[key]);
      EntryWeight(std, m, v.members[key]);
      EntriesWeight(std, rest, v);
      EntriesTextWeight(ms);
    }
  }

  lemma EntryWeight(std: Std, m: Entry, value: Value)
    requires Sane(std) && IsEntry(m) && Outweighs(std, DocText(m.doc), value)
    ensures var text, least := Weight(EntryText(m)), Weight(UnitsMeaning(m.key)) + 3 + Least(std, value);
      text > least || (text == least && Legal(UnitsMeaning(m.key)) && Writable(std, value))
  {
    hide Sane, Weight, Least, Writable, DocText, IsDoc, Legal, UnitsText, UnitsMeaning;
    var quoted, text := "\"" + UnitsText(m.key) + "\"", DocText(m.doc);
    UnitsWeight(m.key);
    QuotedWeight(UnitsText(m.key));
    BracketWeights();
    EntryPartsWeight(m.beforeKey, quoted, m.afterKey, m.beforeValue, text, m.after);
  }

  lemma EntryPartsWeight(a: string, quoted: string, b: string, c: string, text: string, d: string)
    requires IsWs(a) && IsWs(b) && IsWs(c) && IsWs(d)
    ensures Weight(a + quoted + b + ":" + c + text + d) == Weight(quoted) + 1 + Weight(text)
  {
    hide Weight;
    BracketWeights();
    WeightOfThree(a + quoted + b + ":" + c, text, d);
    WeightOfThree(a + quoted + b, ":", c);
    PaddedWeight(a, quoted, b);
    WeightBounds(c);
    WeightBounds(d);
  }

  lemma EntriesTextWeight(ms: seq<Entry>)
    requires ms != []
    ensures Weight(EntriesText(ms)) + 1
         == Weight(EntryText(ms[0])) + 1 + Weight(EntriesText(ms[1..])) + (if |ms| == 1 then 0 else 1)
  {
    hide Weight, EntryText;
    BracketWeights();
    if |ms| == 1 {
      assert ms[1..] == [];
      WeightConcat(EntryText(ms[0]), "");
    } else {
      var more := EntriesText(ms[1..]);
      WeightConcat(EntryText(ms[0]), "," + more);
      WeightConcat(",", more);
    }
  }

  lemma ObjectWeight(std: Std, ms: seq<Entry>, blank: string, members: map<string, Value>)
    requires Sane(std) && IsWs(blank) && Lists(KeysOf(ms), members) && Known(KeysOf(ms), Obj(members))
    requires LeastMembers(std, Obj(members), KeysOf(ms)) == LeastMembers(std, Obj(members), std.order(members))
    requires var v := Obj(members);
      var text, least := Weight(EntriesText(ms)) + (if ms == [] then 0 else 1), LeastMembers(std, v, KeysOf(ms));
      text > least || (text == least && forall i :: 0 <= i < |ms| ==>
        Legal(KeysOf(ms)[i]) && Writable(std, members[KeysOf(ms)[i]]))
    ensures Outweighs(std, DocText(DObject(ms, blank)), Obj(members))
  {
    hide Weight, EntriesText, Legal, LeastMembers, Least, Writable, Lists;
    var keys, v := KeysOf(ms), Obj(members);
    ObjectTextWeight(ms, blank);
    LeastMembersIsNone(std, v, keys);
    LeastOfMembers(std, members, keys);
    if forall i :: 0 <= i < |ms| ==> Legal(keys[i]) && Writable(std, members[keys[i]]) {
      AllWritable(std, members, keys);
    }
  }

  lemma ObjectTextWeight(ms: seq<Entry>, blank: string)
    requires IsWs(blank)
    ensures Weight(DocText(DObject(ms, blank))) == 2 + Weight(EntriesText(ms))
    ensures ms == [] ==> Weight(EntriesText(ms)) == 0
  {
    hide Weight, EntriesText;
    BracketWeights();
    FourParts("{", EntriesText(ms), blank, "}");
    NoEntriesText(ms);
  }

  lemma LeastOfMembers(std: Std, members: map<string, Value>, keys: seq<string>)
    requires Sane(std) && Known(keys, Obj(members))
    requires LeastMembers(std, Obj(members), keys) == LeastMembers(std, Obj(members), std.order(members))
    ensures Least(std, Obj(members)) == Bracketed(LeastMembers(std, Obj(members), keys))
  {
    hide Sane, LeastMembers, Bracketed;
  }

  lemma AllWritable(std: Std, members: map<string, Value>, keys: seq<string>)
    requires Lists(keys, members)
    requires forall i :: 0 <= i < |keys| ==> Legal(keys[i]) && Writable(std, members[keys[i]])
    ensures Writable(std, Obj(members))
  {
    hide Legal;
    forall k | k in members
      ensures Legal(k) && Writable(std, members[k])
    {
      assert k in keys;
    }
  }

  lemma NoEntriesText(ms: seq<Entry>)
    ensures ms == [] ==> EntriesText(ms) == ""
  {
  }

  lemma LeastMembersIsNone(std: Std, v: Value, keys: seq<string>)
    requires Sane(std) && Known(keys, v)
    ensures LeastMembers(std, v, keys) == 0 <==> keys == []
  {
  }

  // ----- The theorem

  /** What the encoder writes, with any indent, is a JSON text that means the object exactly when no string and no
      key in it, at any depth, needs an escape and every double prints as a number. */
  lemma EncodingIsJson(std: Std, members: map<string, Value>, indent: nat)
    requires Sane(std)
    ensures (exists d :: IsDoc(d) && DocText(d) == EncodedObject(std, members, indent) && Means(std, d, Obj(members)))
      <==> Writable(std, Obj(members))
  {
    hide IsDoc, DocText, EncodedObject, Means, Writable, Weight, Least, Sane;
    if Writable(std, Obj(members)) {
      ObjectIsWritten(std, members, indent);
    }
    forall d | IsDoc(d) && DocText(d) == EncodedObject(std, members, indent) && Means(std, d, Obj(members))
      ensures Writable(std, Obj(members))
    {
      DocWeight(std, d, Obj(members));
      LeastOfObject(std, members, indent);
    }
  }

  /** The same for any value, an array on its own among them. */
  lemma ValueEncodingIsJson(std: Std, v: Value)
    requires Sane(std)
    ensures (exists d :: IsDoc(d) && DocText(d) == EncodedValue(std, v) && Means(std, d, v)) <==> Writable(std, v)
  {
    hide IsDoc, DocText, EncodedValue, Means, Writable, Weight, Least, Sane;
    if Writable(std, v) {
      ValueIsWritten(std, v);
    }
    forall d | IsDoc(d) && DocText(d) == EncodedValue(std, v) && Means(std, d, v)
      ensures Writable(std, v)
    {
      DocWeight(std, d, v);
      EncodedWeight(std, v);
    }
  }

  lemma LeastOfObject(std: Std, members: map<string, Value>, indent: nat)
    requires Sane(std)
    ensures Weight(EncodedObject(std, members, indent)) == Least(std, Obj(members))
  {
    hide Weight, EncodedObject, LeastMembers, Sane;
    EncodedObjectWeight(std, members, indent);
  }

  lemma ObjectIsWritten(std: Std, members: map<string, Value>, indent: nat)
    requires Sane(std) && Writable(std, Obj(members))
    ensures exists d :: IsDoc(d) && DocText(d) == EncodedObject(std, members, indent) && Means(std, d, Obj(members))
  {
    hide Sane, Writable, EncodedMembers, EntriesText, AreEntries, EntriesMean, EntriesOf, Closing, Ending;
    var v, keys := Obj(members), std.order(members);
    KeysAreKnown(std, members);
    EntriesAreWritten(std, v, keys, indent);
    MarginIsWs(indent);
    var d := DObject(EntriesOf(std, v, keys, indent), Ending(indent));
    Regroup("{", EncodedMembers(std, v, keys, indent, true), Ending(indent), "}");
    assert IsDoc(d) && DocText(d) == EncodedObject(std, members, indent) && Means(std, d, v);
  }
}
