/** When decoding gives back what was encoded. */
module JsonRoundTrip {
  import opened Buffers
  import opened CLibrary
  import opened Json
  import opened JsonEncoding
  import opened JsonGrammar

  /** A value the decoder reads back: no array is empty and none holds a scalar, no string is empty or
      holds a quote, and there is no nested object. */
  predicate Plain(v: Value)
    decreases v, 0
  {
    match v
    case Str(s) => Clean(s)
    case Int(i) => INT_MIN <= i <= INT_MAX
    case Double(_) => false
    case Bool(_) => true
    case Arr(items) => items != [] && PlainItems(items)
    case Obj(_) => false
  }

  predicate PlainItems(items: seq<Value>)
    decreases items, 1
  {
    items == [] || (!items[0].Int? && !items[0].Bool? && Plain(items[0]) && PlainItems(items[1..]))
  }

  predicate PlainMembers(members: map<string, Value>, keys: seq<string>) {
    forall i :: 0 <= i < |keys| ==> keys[i] in members && Clean(keys[i]) && Plain(members[keys[i]])
  }

  // ----- What the encoder writes for plain values is a text of the grammar

  function TextOf(v: Value): Text
    requires Plain(v)
    decreases v, 0
  {
    match v
    case Str(s) => TStr(s)
    case Int(i) => if i < 0 then TInt(true, Decimal(-i)) else TInt(false, Decimal(i))
    case Bool(b) => TBool(b)
    case Arr(items) => TArr(ElementsOf(items), "")
  }

  function ElementsOf(items: seq<Value>): (es: seq<Element>)
    requires PlainItems(items)
    ensures |es| == |items|
    decreases items, 1
  {
    if items == [] then [] else [Element("", TextOf(items[0]))] + ElementsOf(items[1..])
  }

  lemma {:induction false} TextOfValue(std: Std, v: Value)
    requires Sane(std) && Plain(v)
    ensures var t := TextOf(v);
      IsText(t) && Meaning(t) == v && Render(t) == EncodedValue(std, v) && (IsScalar(t) ==> v.Int? || v.Bool?)
    decreases v, 0
  {
    match v
    case Str(_) =>
    case Int(i) => DecimalDigits(if i < 0 then -i else i);
    case Bool(_) =>
    case Arr(items) => ItemsAreElements(std, items); TextOfItems(std, items);
  }

  lemma ItemText(std: Std, v: Value)
    requires Sane(std)
    ensures EncodedItem(std, v, true) == EncodedValue(std, v)
    ensures EncodedItem(std, v, false) == "," + EncodedValue(std, v)
  {
    hide EncodedValue;
    assert "" + EncodedValue(std, v) == EncodedValue(std, v);
  }

  /** The text of a list that starts with an element. */
  lemma RenderElementsStep(e: Element, es: seq<Element>)
    requires e.blank == ""
    ensures RenderElements([e] + es) == Render(e.text) + (if es == [] then "" else "," + RenderElements(es))
    ensures Meanings([e] + es) == [Meaning(e.text)] + Meanings(es)
    ensures AreElements([e] + es) <==> !IsScalar(e.text) && IsText(e.text) && AreElements(es)
  {
    hide Render, Meaning, IsText;
    assert ([e] + es)[1..] == es;
    assert "" + Render(e.text) == Render(e.text);
  }

  lemma {:induction false} ItemsAreElements(std: Std, items: seq<Value>)
    requires Sane(std) && PlainItems(items)
    ensures AreElements(ElementsOf(items)) && Meanings(ElementsOf(items)) == items
    decreases items, 1
  {
    hide Sane, IsText, Render, Meaning, TextOf, RenderElements;
    if items != [] {
      TextOfValue(std, items[0]);
      ItemsAreElements(std, items[1..]);
      RenderElementsStep(Element("", TextOf(items[0])), ElementsOf(items[1..]));
      assert items == [items[0]] + items[1..];
    }
  }

  lemma LaterItems(std: Std, items: seq<Value>)
    requires Sane(std)
    ensures EncodedItems(std, items, false) == if items == [] then "" else "," + EncodedItems(std, items, true)
  {
    hide Sane, EncodedValue;
    if items != [] {
      ItemText(std, items[0]);
      hide EncodedItem;
      var v, rest := EncodedValue(std, items[0]), EncodedItems(std, items[1..], false);
      assert EncodedItems(std, items, false) == "," + v + rest;
      assert EncodedItems(std, items, true) == v + rest;
      assert "," + v + rest == "," + (v + rest);
    }
  }

  lemma {:induction false} TextOfItems(std: Std, items: seq<Value>)
    requires Sane(std) && PlainItems(items)
    ensures EncodedItems(std, items, true) == RenderElements(ElementsOf(items))
    decreases items, 1
  {
    hide Sane, IsText, Render, Meaning, EncodedValue, EncodedItem, TextOf, Meanings, AreElements;
    if items != [] {
      var v, rest := items[0], ElementsOf(items[1..]);
      TextOfValue(std, v);
      ItemText(std, v);
      TextOfItems(std, items[1..]);
      LaterItems(std, items[1..]);
      hide RenderElements;
      RenderElementsStep(Element("", TextOf(v)), rest);
    }
  }

  function MembersOf(members: map<string, Value>, keys: seq<string>): (ms: seq<Member>)
    requires PlainMembers(members, keys)
    ensures |ms| == |keys|
  {
    if keys == [] then [] else [Member(0, keys[0], 0, 0, TextOf(members[keys[0]]), 0)] + MembersOf(members, keys[1..])
  }

  lemma MemberText(std: Std, key: string, v: Value, isFirst: bool)
    requires Sane(std) && Plain(v)
    ensures EncodedMember(std, key, v, 0, isFirst)
      == (if isFirst then "" else ",") + RenderMember(Member(0, key, 0, 0, TextOf(v), 0))
  {
    hide EncodedValue, Render, TextOf;
    TextOfValue(std, v);
  }

  lemma RenderMembersStep(m: Member, ms: seq<Member>)
    ensures RenderMembers([m] + ms) == RenderMember(m) + (if ms == [] then "" else "," + RenderMembers(ms))
    ensures AreMembers([m] + ms) <==> Clean(m.key) && IsText(m.text) && AreMembers(ms)
    ensures forall before :: Merged([m] + ms, before) == Merged(ms, Inserted(before, m.key, Meaning(m.text)))
  {
    hide RenderMember, IsText, Clean, Meaning, Inserted;
    assert ([m] + ms)[1..] == ms;
  }

  lemma {:induction false} MembersAreMembers(std: Std, members: map<string, Value>, keys: seq<string>)
    requires Sane(std) && PlainMembers(members, keys)
    ensures AreMembers(MembersOf(members, keys))
  {
    hide Sane, Plain, Clean, IsText, RenderMember, RenderMembers, Merged, TextOf;
    if keys != [] {
      TextOfValue(std, members[keys[0]]);
      MembersAreMembers(std, members, keys[1..]);
      assert MembersOf(members, keys)[1..] == MembersOf(members, keys[1..]);
    }
  }

  lemma LaterMember(std: Std, key: string, v: Value, indent: nat)
    requires Sane(std)
    ensures EncodedMember(std, key, v, indent, false) == "," + EncodedMember(std, key, v, indent, true)
  {
    hide Sane, EncodedValue;
    var first, rest := Opening(indent, true), "\"" + key + "\":" + EncodedValue(std, v);
    assert Opening(indent, false) == "," + first;
    hide Opening;
    assert EncodedMember(std, key, v, indent, true) == first + rest;
    assert EncodedMember(std, key, v, indent, false) == "," + first + rest;
    CommaFirst(first, rest);
  }

  lemma LaterMembers(std: Std, v: Value, keys: seq<string>, indent: nat)
    requires Sane(std) && Known(keys, v)
    ensures EncodedMembers(std, v, keys, indent, false) == if keys == [] then ""
      else "," + EncodedMembers(std, v, keys, indent, true)
  {
    hide Sane, EncodedMember, Known;
    if keys != [] {
      KnownSlice(keys, v, 0);
      KnownSlice(keys, v, 1);
      var m, rest := v.members[keys[0]], EncodedMembers(std, v, keys[1..], indent, false);
      LaterMember(std, keys[0], m, indent);
      EncodedMembersOf(std, v, keys, indent, true);
      EncodedMembersOf(std, v, keys, indent, false);
      hide EncodedMembers;
      CommaFirst(EncodedMember(std, keys[0], m, indent, true), rest);
    }
  }

  lemma CommaFirst(first: string, rest: string)
    ensures "," + first + rest == "," + (first + rest)
  {
  }

  lemma EncodedMembersOf(std: Std, v: Value, keys: seq<string>, indent: nat, isFirst: bool)
    requires Sane(std) && Known(keys, v) && keys != []
    ensures (EncodedMembers(std, v, keys, indent, isFirst)
      == EncodedMember(std, keys[0], v.members[keys[0]], indent, isFirst)
        + EncodedMembers(std, v, keys[1..], indent, false))
  {
    hide Sane, EncodedMember;
  }

  lemma {:induction false} TextOfMembers(std: Std, members: map<string, Value>, keys: seq<string>)
    requires Sane(std) && PlainMembers(members, keys)
    ensures EncodedMembers(std, Obj(members), keys, 0, true) == RenderMembers(MembersOf(members, keys))
  {
    hide Sane, Plain, Clean, IsText, EncodedMember, RenderMember, RenderMembers, AreMembers, Merged, TextOf;
    if keys == [] {
      NothingRendered();
    } else {
      var v, rest := members[keys[0]], MembersOf(members, keys[1..]);
      var m := Member(0, keys[0], 0, 0, TextOf(v), 0);
      MemberText(std, keys[0], v, true);
      TextOfMembers(std, members, keys[1..]);
      LaterMembers(std, Obj(members), keys[1..], 0);
      RenderMembersStep(m, rest);
      assert "" + RenderMember(m) == RenderMember(m);
    }
  }

  lemma NothingRendered()
    ensures RenderMembers([]) == "" && AreMembers([])
  {
  }

  /** The part of a map on some of its keys. */
  function Restricted(members: map<string, Value>, keys: seq<string>): map<string, Value> {
    map k | k in members && k in keys :: members[k]
  }

  lemma RestrictedStep(members: map<string, Value>, keys: seq<string>, before: map<string, Value>)
    requires keys != [] && keys[0] in members && keys[0] !in before && keys[0] !in keys[1..]
    ensures Inserted(before, keys[0], members[keys[0]]) + Restricted(members, keys[1..])
      == before + Restricted(members, keys)
  {
    assert forall k :: k in keys <==> k == keys[0] || k in keys[1..];
  }

  /** Distinct keys: nothing is dropped when the members are merged. */
  lemma {:induction false} MergedMembers(std: Std, members: map<string, Value>, keys: seq<string>,
        before: map<string, Value>)
    requires Sane(std) && PlainMembers(members, keys)
    requires (forall i, j :: 0 <= i < j < |keys| ==> keys[i] != keys[j])
    requires (forall i :: 0 <= i < |keys| ==> keys[i] !in before)
    ensures Merged(MembersOf(members, keys), before) == before + Restricted(members, keys)
  {
    hide Sane, Plain, Clean, IsText, RenderMember, RenderMembers, AreMembers, TextOf;
    if keys == [] {
      assert Restricted(members, keys) == map[];
    } else {
      var v := members[keys[0]];
      TextOfValue(std, v);
      RestrictedStep(members, keys, before);
      hide Restricted;
      MergedMembers(std, members, keys[1..], Inserted(before, keys[0], v));
      RenderMembersStep(Member(0, keys[0], 0, 0, TextOf(v), 0), MembersOf(members, keys[1..]));
    }
  }

  /** Decoding what was encoded with no indent gives the object back and reads every byte, whatever
      bytes follow, when its values are plain. */
  lemma PlainObjectReads(std: Std, members: map<string, Value>, mem: string, pos: nat, len: nat)
    requires Sane(std) && members != map[] && PlainMembers(members, std.order(members))
    requires Holds(mem, pos, EncodedObject(std, members, 0)) && |EncodedObject(std, members, 0)| <= len < UINT32
    ensures DecodeObject(mem, pos, len) == Part(members, |EncodedObject(std, members, 0)|)
  {
    hide Plain, Clean, RenderMember, AreMembers, RenderMembers, Merged, EncodedMembers, DecodeObject, Holds;
    var keys := std.order(members);
    assert Lists(keys, members);
    assert keys != [];
    var ms := MembersOf(members, keys);
    MembersAreMembers(std, members, keys);
    TextOfMembers(std, members, keys);
    MergedMembers(std, members, keys, map[]);
    assert map[] + Restricted(members, keys) == members;
    assert EncodedObject(std, members, 0) == Spaces(0) + ("{" + RenderMembers(ms) + "}");
    ObjectReads(mem, pos, len, 0, ms);
  }

  // ----- What the decoder can read at all

  /** A value that some bytes decode to. */
  predicate Readable(v: Value)
    decreases v, 0
  {
    match v
    case Str(s) => Clean(s)
    case Int(i) => INT_MIN <= i <= INT_MAX
    case Double(_) => true
    case Bool(_) => true
    case Arr(items) => ReadableItems(items)
    case Obj(members) => forall k :: k in members ==> Clean(k) && Readable(members[k])
  }

  predicate ReadableItem(v: Value)
    decreases v, 1
  {
    (v.Str? || v.Arr? || v.Obj?) && Readable(v)
  }

  predicate ReadableItems(items: seq<Value>)
    decreases items, 2
  {
    forall i :: 0 <= i < |items| ==> ReadableItem(items[i])
  }

  predicate ReadableMembers(members: map<string, Value>) {
    forall k :: k in members ==> Clean(k) && Readable(members[k])
  }

  lemma ScalarIsReadable(s: string)
    requires s != "" && DecodeScalar(s).Scalar?
    ensures Readable(DecodeScalar(s).value)
  {
    hide Atoi;
  }

  lemma {:induction false} ValueIsReadable(mem: string, pos: nat, len: nat)
    requires DecodeValue(mem, pos, len).Part? && DecodeValue(mem, pos, len).parsed > 0
    ensures ReadableItem(DecodeValue(mem, pos, len).value)
    decreases |mem| - pos, 2
  {
    hide DecodeString, DecodeScalar, DecodeArray, DecodeObject, TokenEnd;
    if mem[pos] == '[' {
      ArrayIsReadable(mem, pos, len);
    } else if mem[pos] == '{' {
      ObjectIsReadable(mem, pos, len);
    }
  }

  lemma {:induction false} ArrayIsReadable(mem: string, pos: nat, len: nat)
    requires DecodeArray(mem, pos, len).Part?
    ensures ReadableItems(DecodeArray(mem, pos, len).value)
    decreases |mem| - pos, 1
  {
    hide ArrayItems, ReadableItem;
    if len != 0 {
      var start := SkipBlankFirst(mem, pos, pos + len);
      if start.index < pos + len && mem[start.index] == '[' {
        var first := SkipBlankFirst(mem, start.index + 1, pos + len);
        if first.index < pos + len {
          ItemsAreReadable(mem, pos, len, first.index, []);
        }
      }
    }
  }

  lemma {:induction false} ItemsAreReadable(mem: string, pos: nat, len: nat, at: nat, items: seq<Value>)
    requires pos < at <= |mem| && ReadableItems(items) && ArrayItems(mem, pos, len, at, items).Part?
    ensures ReadableItems(ArrayItems(mem, pos, len, at, items).value)
    decreases |mem| - at, 4
  {
    hide DecodeValue, SkipBlank, ReadableItem;
    var i := SkipBlank(mem, at, pos + len).index;
    var read := DecodeValue(mem, i, Remaining(len, i - pos));
    if read.parsed > 0 {
      ValueIsReadable(mem, i, Remaining(len, i - pos));
      var turn := ElementTurn(mem, pos, len, at, items);
      if turn.More? {
        ItemsAreReadable(mem, pos, len, turn.at, turn.result);
      }
    }
  }

  lemma {:induction false} ObjectIsReadable(mem: string, pos: nat, len: nat)
    requires DecodeObject(mem, pos, len).Part?
    ensures ReadableMembers(DecodeObject(mem, pos, len).value)
    decreases |mem| - pos, 1
  {
    hide ObjectMembers, SkipSpaces;
    var start := SkipSpaces(mem, pos).index;
    if mem[start] == '{' {
      MembersAreReadable(mem, pos, len, start + 1, map[]);
    }
  }

  lemma {:induction false} MemberIsReadable(mem: string, pos: nat, len: nat, at: nat)
    requires pos <= at < |mem| && MemberValue(mem, pos, len, at).Part? && MemberValue(mem, pos, len, at).parsed > 0
    ensures Readable(MemberValue(mem, pos, len, at).value)
    decreases |mem| - at, 2
  {
    hide DecodeString, DecodeScalar, DecodeArray, DecodeObject, TokenEnd, Remaining;
    if mem[at] == '[' {
      ArrayIsReadable(mem, at, Remaining(len, at - pos));
    } else if mem[at] == '{' {
      ObjectIsReadable(mem, at, Remaining(len, at - pos));
    } else if mem[at] != '"' {
      ScalarIsReadable(mem[at..TokenEnd(mem, at + 1).index]);
    }
  }

  lemma {:induction false} MembersAreReadable(mem: string, pos: nat, len: nat, at: nat, members: map<string, Value>)
    requires pos < at <= |mem| && ReadableMembers(members) && ObjectMembers(mem, pos, len, at, members).Part?
    ensures ReadableMembers(ObjectMembers(mem, pos, len, at, members).value)
    decreases |mem| - at, 4
  {
    hide MemberHead, MemberValue, SkipSpaces, Readable;
    var head := MemberHead(mem, pos, len, at);
    if head.Head? && MemberValue(mem, pos, len, head.start).parsed > 0 {
      MemberIsReadable(mem, pos, len, head.start);
      var turn := MemberTurn(mem, pos, len, at, members);
      if turn.More? {
        MembersAreReadable(mem, pos, len, turn.at, turn.result);
      }
    }
  }
}
