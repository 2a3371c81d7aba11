/** Where the decoder goes astray on what was encoded, and that it then never reads every byte: decoding
    gives back what was encoded exactly when all values are plain. */
module JsonStuck {
  import opened Buffers
  import opened CLibrary
  import opened Json
  import opened JsonEncoding
  import opened JsonGrammar
  import opened JsonRoundTrip

  /** The rest of the text of nested arrays, innermost first: for each the elements not yet read. */
  ghost function LevelsText(std: Std, levels: seq<seq<Value>>): string
    requires Sane(std)
  {
    if levels == [] then "" else EncodedItems(std, levels[0], false) + "]" + LevelsText(std, levels[1..])
  }

  /** At q the rest of these arrays is still to be read, and the text goes on after it, up to end. */
  ghost predicate Left(std: Std, mem: string, q: nat, end: nat, levels: seq<seq<Value>>)
    requires Sane(std)
  {
    (forall i :: 0 <= i < |levels| ==> ReadableItems(levels[i])) && Holds(mem, q, LevelsText(std, levels))
      && q + |LevelsText(std, levels)| < end
  }

  /** At q is what stands inside an object with an indent: no array and no object goes on from there. */
  predicate Dead(mem: string, q: nat, end: nat) {
    && q < |mem| && q + 1 < end && (mem[q] == '\n' || mem[q] == '"' || mem[q] == '}')
    && match SkipBlank(mem, q, end)
       case ScanFault => false
       case At(j) => j + 1 < end && j < |mem| && (mem[j] == '"' || mem[j] == '}')
  }

  /** The text up to end closes the object it is in. */
  predicate Closed(mem: string, end: nat) { 0 < end <= |mem| && mem[end - 1] == '}' }

  datatype Stuck = DeadEnd | Leaves(levels: seq<seq<Value>>)

  ghost predicate Reaches(std: Std, mem: string, q: nat, end: nat, s: Stuck, atLeast: nat)
    requires Sane(std)
  {
    match s
    case DeadEnd => Dead(mem, q, end)
    case Leaves(levels) => Left(std, mem, q, end, levels) && |levels| >= atLeast
  }

  // ----- The loop of an array after one of its elements

  /** What the loop of JsonArray::decode comes to once an element has been read up to p. */
  function Rest(mem: string, pos: nat, end: nat, p: nat, items: seq<Value>): Part<seq<Value>>
    requires pos < p <= |mem| && pos < end
  {
    if p >= end then Part(items, p - pos)
    else if p >= |mem| then PartFault
    else if mem[p] == ',' then ArrayItems(mem, pos, end - pos, p + 1, items)
    else
      match SkipBlank(mem, p, end)
      case ScanFault => PartFault
      case At(close) =>
        if close > |mem| then PartFault
        else if close >= end || mem[close] != ']' then Part(items, close - pos)
        else Part(items, close - pos + 1)
  }

  lemma AfterItem(mem: string, pos: nat, end: nat, at: nat, i: nat, v: Value, n: nat, items: seq<Value>)
    requires pos < at <= i <= end && at <= |mem| && end - pos < UINT32 && n > 0
    requires SkipBlank(mem, at, end) == At(i) && DecodeValue(mem, i, end - i) == Part(v, n)
    ensures i + n <= |mem| && ArrayItems(mem, pos, end - pos, at, items) == Rest(mem, pos, end, i + n, items + [v])
  {
    hide SkipBlank, DecodeValue;
    assert Remaining(end - pos, i - pos) == end - i;
  }

  lemma RestAtDeadEnd(mem: string, pos: nat, end: nat, q: nat, items: seq<Value>)
    requires pos < q && Dead(mem, q, end)
    ensures var r := Rest(mem, pos, end, q, items); r.Part? && r.parsed > 0 && pos + r.parsed < end
    ensures Dead(mem, pos + Rest(mem, pos, end, q, items).parsed, end)
  {
    hide ArrayItems;
    var j := SkipBlank(mem, q, end).index;
    assert SkipBlank(mem, j, end) == At(j);
  }

  /** The first byte of an array element tells what it is. */
  lemma FirstByteOf(std: Std, v: Value)
    requires Sane(std) && ReadableItem(v)
    ensures var s := EncodedValue(std, v); s[0] == (if v.Str? then '"' else if v.Arr? then '[' else '{')
  {
  }

  lemma NoBlank(mem: string, q: nat, end: nat)
    requires q < |mem| && q < end && !IsSpace(mem[q])
    ensures SkipBlank(mem, q, end) == At(q) && SkipBlankFirst(mem, q, end) == At(q)
  {
  }

  lemma LevelsTextOf(std: Std, items: seq<Value>, levels: seq<seq<Value>>)
    requires Sane(std)
    ensures LevelsText(std, [items] + levels) == EncodedItems(std, items, false) + ("]" + LevelsText(std, levels))
  {
    hide Sane, EncodedItems;
    assert ([items] + levels)[1..] == levels;
  }

  lemma EncodedItemsOf(std: Std, items: seq<Value>)
    requires Sane(std) && items != []
    ensures EncodedItems(std, items, true) == EncodedValue(std, items[0]) + EncodedItems(std, items[1..], false)
    ensures EncodedItems(std, items, false) == "," + EncodedValue(std, items[0]) + EncodedItems(std, items[1..], false)
  {
    hide Sane, EncodedValue, EncodedItem;
    ItemText(std, items[0]);
  }

  lemma Regroup(a: string, b: string, c: string, d: string)
    ensures a + b + c + d == a + (b + (c + d)) && (a + (b + c)) + d == a + (b + (c + d))
  {
  }

  lemma LevelsTextStep(std: Std, levels: seq<seq<Value>>)
    requires Sane(std) && levels != []
    ensures levels[0] == [] ==> LevelsText(std, levels) == "]" + LevelsText(std, levels[1..])
    ensures (levels[0] != [] ==>
      var more := EncodedValue(std, levels[0][0]) + LevelsText(std, [levels[0][1..]] + levels[1..]);
      LevelsText(std, levels) == "," + more)
  {
    hide LevelsText, EncodedItems, EncodedValue;
    var tail := "]" + LevelsText(std, levels[1..]);
    LevelsTextOf(std, levels[0], levels[1..]);
    assert levels == [levels[0]] + levels[1..];
    hide Sane;
    if levels[0] == [] {
      NoItems(std, false);
      assert "" + tail == tail;
    } else {
      LevelsTextOf(std, levels[0][1..], levels[1..]);
      EncodedItemsOf(std, levels[0]);
      Regroup(",", EncodedValue(std, levels[0][0]), EncodedItems(std, levels[0][1..], false), tail);
    }
  }

  /** What stands where in the rest of some arrays. */
  lemma LevelsSplit(std: Std, mem: string, q: nat, levels: seq<seq<Value>>)
    requires Sane(std) && levels != [] && Holds(mem, q, LevelsText(std, levels))
    ensures q < |mem|
    ensures levels[0] == [] ==> mem[q] == ']' && Holds(mem, q + 1, LevelsText(std, levels[1..]))
    ensures levels[0] == [] ==> |LevelsText(std, levels)| == 1 + |LevelsText(std, levels[1..])|
    ensures (levels[0] != [] ==>
      var more := EncodedValue(std, levels[0][0]) + LevelsText(std, [levels[0][1..]] + levels[1..]);
      mem[q] == ',' && Holds(mem, q + 1, more) && |LevelsText(std, levels)| == 1 + |more|)
  {
    hide Sane, EncodedValue, LevelsText, Holds;
    LevelsTextStep(std, levels);
    var first := if levels[0] == [] then "]" else ",";
    var more := if levels[0] == [] then LevelsText(std, levels[1..])
      else EncodedValue(std, levels[0][0]) + LevelsText(std, [levels[0][1..]] + levels[1..]);
    HoldsParts(mem, q, first, more);
    HoldsAt(mem, q, first, 0);
  }

  lemma {:induction false} RestStuck(std: Std, mem: string, pos: nat, end: nat, q: nat,
          levels: seq<seq<Value>>, items: seq<Value>)
    returns (s: Stuck)
    requires Sane(std) && levels != [] && pos < q && Closed(mem, end) && q < end && end - pos < UINT32
    requires Left(std, mem, q, end, levels)
    ensures var r := Rest(mem, pos, end, q, items); r.Part? && r.parsed > 0 && pos + r.parsed < end
    ensures var least := if PlainItems(levels[0]) then |levels| - 1 else |levels|;
      Reaches(std, mem, pos + Rest(mem, pos, end, q, items).parsed, end, s, least)
    decreases end - q, 0
  {
    hide Sane, Holds, Closed, LevelsText, DecodeValue, ArrayItems, EncodedValue, Plain, ReadableItem, SkipBlank;
    LevelsSplit(std, mem, q, levels);
    if levels[0] == [] {
      NoBlank(mem, q, end);
      s := Leaves(levels[1..]);
    } else {
      var v := levels[0][0];
      var next := [levels[0][1..]] + levels[1..];
      assert next[1..] == levels[1..];
      HoldsParts(mem, q + 1, EncodedValue(std, v), LevelsText(std, next));
      HoldsAt(mem, q + 1, EncodedValue(std, v), 0);
      FirstByteOf(std, v);
      NoBlank(mem, q + 1, end);
      s := ItemStuck(std, mem, q + 1, end, v, next);
      var read := DecodeValue(mem, q + 1, end - (q + 1));
      AfterItem(mem, pos, end, q + 1, q + 1, read.value, read.parsed, items);
      s := GoOn(std, mem, pos, end, q + 1 + read.parsed, s, items + [read.value]);
      PlainStep(levels[0]);
    }
  }

  /** The loop goes on from where one of its elements left it. */
  lemma {:induction false} GoOn(std: Std, mem: string, pos: nat, end: nat, q: nat, from: Stuck, items: seq<Value>)
    returns (s: Stuck)
    requires Sane(std) && pos < q && Closed(mem, end) && q < end && end - pos < UINT32
    requires Reaches(std, mem, q, end, from, 1)
    ensures var r := Rest(mem, pos, end, q, items); r.Part? && r.parsed > 0 && pos + r.parsed < end
    ensures from.DeadEnd? ==> s.DeadEnd?
    ensures (Reaches(std, mem, pos + Rest(mem, pos, end, q, items).parsed, end, s,
      if from.DeadEnd? then 0 else if PlainItems(from.levels[0]) then |from.levels| - 1 else |from.levels|))
    decreases end - q, 1
  {
    hide Sane, Left, Dead, PlainItems, Rest;
    if from.DeadEnd? {
      RestAtDeadEnd(mem, pos, end, q, items);
      s := DeadEnd;
    } else {
      s := RestStuck(std, mem, pos, end, q, from.levels, items);
    }
  }

  lemma PlainStep(items: seq<Value>)
    requires items != [] && ReadableItem(items[0])
    ensures PlainItems(items) <==> Plain(items[0]) && PlainItems(items[1..])
  {
    hide Plain, Readable;
  }

  // ----- Values

  /** The first bytes of an object with an indent: a line feed, blanks and a quote or a brace. */
  lemma ObjectText(std: Std, v: Value) returns (blanks: string, rest: string)
    requires Sane(std) && v.Obj?
    ensures EncodedValue(std, v) == "{\n" + blanks + rest && AllBlank(blanks) && rest != ""
    ensures (rest[0] == '"' || rest[0] == '}')
  {
    var keys := std.order(v.members);
    assert Lists(keys, v.members);
    if keys == [] {
      blanks, rest := "", "}";
    } else {
      var m := v.members[keys[0]];
      hide Lists, Sane;
      blanks := Spaces(2);
      var member := "\"" + keys[0] + "\":" + EncodedValue(std, m);
      var more := EncodedMembers(std, v, keys[1..], 2, false) + "\n}";
      rest := member + more;
      assert EncodedValue(std, v) == "{" + EncodedMembers(std, v, keys, 2, true) + "\n}";
      hide EncodedValue;
      assert EncodedMember(std, keys[0], m, 2, true) == "\n" + blanks + member by {
        assert Opening(2, true) == "\n" + blanks;
      }
      hide EncodedMember;
      Regroup("{", "\n" + blanks + member, EncodedMembers(std, v, keys[1..], 2, false), "\n}");
      Regroup("{\n", blanks, member, more);
    }
  }

  /** An object with an indent is given up after its brace. */
  lemma ObjectStuck(std: Std, mem: string, q: nat, end: nat, v: Value)
    requires Sane(std) && v.Obj? && Holds(mem, q, EncodedValue(std, v)) && q + |EncodedValue(std, v)| < end
    requires end - q < UINT32
    ensures DecodeValue(mem, q, end - q) == Part(Obj(map[]), 1) && Dead(mem, q + 1, end)
  {
    hide Holds, EncodedValue, AllBlank;
    var blanks, rest := ObjectText(std, v);
    var white := "\n" + blanks;
    assert "{\n" + blanks + rest == "{" + (white + rest);
    HoldsParts(mem, q, "{", white + rest);
    HoldsParts(mem, q + 1, white, rest);
    HoldsAt(mem, q, "{", 0);
    HoldsAt(mem, q + 1, white, 0);
    HoldsAt(mem, q + 1 + |white|, rest, 0);
    BlankFrom(blanks);
    SkipsBlank(mem, q + 1, white, end);
    GivenUp(mem, q, end - q);
  }

  lemma GivenUp(mem: string, q: nat, len: nat)
    requires q + 1 < |mem| && mem[q] == '{' && mem[q + 1] == '\n' && len > 0
    ensures DecodeValue(mem, q, len) == Part(Obj(map[]), 1)
  {
    assert SkipSpaces(mem, q) == At(q) && SkipSpaces(mem, q + 1) == At(q + 1);
    assert MemberHead(mem, q, len, q + 1) == NoHead(1);
    hide SkipSpaces, MemberHead;
    assert ObjectMembers(mem, q, len, q + 1, map[]) == Part(map[], 1);
    assert DecodeObject(mem, q, len) == Part(map[], 1);
  }

  lemma BlankFrom(blanks: string)
    requires AllBlank(blanks)
    ensures AllBlank("\n" + blanks)
  {
  }

  lemma {:induction false} TokenEnds(mem: string, i: nat, end: nat)
    requires Closed(mem, end) && i < end
    ensures TokenEnd(mem, i).At? && TokenEnd(mem, i).index < end
    decreases end - i
  {
    if !EndsToken(mem[i]) {
      TokenEnds(mem, i + 1, end);
    }
  }

  /** An empty array is given up after its bracket. */
  lemma EmptyArrayStuck(mem: string, q: nat, end: nat)
    requires Closed(mem, end) && q + 2 < end && end - q < UINT32 && mem[q] == '[' && mem[q + 1] == ']'
    ensures DecodeValue(mem, q, end - q) == Part(Arr([]), 1)
  {
    hide DecodeScalar, SkipBlank, SkipBlankFirst, TokenEnd;
    assert Remaining(end - q, 1) == end - q - 1;
    NoBlank(mem, q, end);
    NoBlank(mem, q + 1, end);
    NoValueThere(mem, q + 1, end);
    hide DecodeValue;
    assert ElementTurn(mem, q, end - q, q + 1, []) == Stop([], 1);
    hide ElementTurn;
    assert ArrayItems(mem, q, end - q, q + 1, []) == Part([], 1);
    assert DecodeArray(mem, q, end - q) == Part([], 1);
    ArrayThere(mem, q, end - q);
  }

  lemma ArrayThere(mem: string, q: nat, len: nat)
    requires q < |mem| && mem[q] == '[' && DecodeArray(mem, q, len) == Part([], 1)
    ensures DecodeValue(mem, q, len) == Part(Arr([]), 1)
  {
  }

  lemma NoValueThere(mem: string, q: nat, end: nat)
    requires Closed(mem, end) && q + 1 < end && mem[q] == ']'
    ensures DecodeValue(mem, q, end - q) == Part(Str(""), 0)
  {
    hide DecodeScalar, TokenEnd;
    TokenEnds(mem, q + 1, end);
    BracketIsNoScalar(mem[q..TokenEnd(mem, q + 1).index]);
  }

  lemma BracketIsNoScalar(s: string)
    requires s != "" && s[0] == ']'
    ensures DecodeScalar(s) == NoScalar
  {
    assert !DoubleText(s);
    if |s| > 255 {
      assert s[..256][0] == ']';
    }
  }

  /** A non-empty array is read as far as its loop comes. */
  lemma ArrayEnters(mem: string, q: nat, end: nat, v: Value, n: nat)
    requires q + 1 < end <= |mem| && end - q < UINT32 && mem[q] == '[' && !IsSpace(mem[q + 1]) && n > 0
    requires DecodeValue(mem, q + 1, end - (q + 1)) == Part(v, n)
    ensures q + 1 + n <= |mem|
    ensures match Rest(mem, q, end, q + 1 + n, [v])
      case PartFault => DecodeValue(mem, q, end - q).PartFault?
      case Part(all, k) => DecodeValue(mem, q, end - q) == Part(Arr(all), k)
  {
    hide SkipBlank, SkipBlankFirst, Rest, ArrayItems;
    NoBlank(mem, q, end);
    NoBlank(mem, q + 1, end);
    AfterItem(mem, q, end, q + 1, q + 1, v, n, []);
    assert [] + [v] == [v];
  }

  lemma ArrayTextStep(std: Std, items: seq<Value>, levels: seq<seq<Value>>)
    requires Sane(std)
    ensures (items == [] ==>
      EncodedValue(std, Arr(items)) + LevelsText(std, levels) == "[" + LevelsText(std, [items] + levels))
    ensures (items != [] ==>
      var more := EncodedValue(std, items[0]) + LevelsText(std, [items[1..]] + levels);
      EncodedValue(std, Arr(items)) + LevelsText(std, levels) == "[" + more)
  {
    assert EncodedValue(std, Arr(items)) == "[" + EncodedItems(std, items, true) + "]";
    if items == [] {
      LevelsTextOf(std, items, levels);
      NoItems(std, true);
      NoItems(std, false);
    } else {
      LevelsTextOf(std, items[1..], levels);
      EncodedItemsOf(std, items);
      Regroup("[", EncodedValue(std, items[0]), EncodedItems(std, items[1..], false), "]" + LevelsText(std, levels));
      assert "[" + EncodedItems(std, items, true) + "]" + LevelsText(std, levels)
        == "[" + EncodedItems(std, items, true) + ("]" + LevelsText(std, levels));
    }
  }

  lemma {:induction false} ArrayStuck(std: Std, mem: string, q: nat, end: nat,
          items: seq<Value>, levels: seq<seq<Value>>)
    returns (s: Stuck)
    requires Sane(std) && ReadableItems(items) && (forall i :: 0 <= i < |levels| ==> ReadableItems(levels[i]))
    requires items != []
    requires Holds(mem, q, EncodedValue(std, Arr(items)) + LevelsText(std, levels))
    requires q + |EncodedValue(std, Arr(items))| + |LevelsText(std, levels)| < end && end - q < UINT32
    requires Closed(mem, end)
    ensures var r := DecodeValue(mem, q, end - q); r.Part? && r.parsed > 0 && q + r.parsed < end
    ensures Reaches(std, mem, q + DecodeValue(mem, q, end - q).parsed, end, s, if PlainItems(items) then |levels|
      else |levels| + 1)
    decreases end - q, 2
  {
    hide Sane, Holds, LevelsText, DecodeValue, EncodedValue, Plain, ReadableItem, SkipBlank, Left, Dead;
    var v := items[0];
    var next := [items[1..]] + levels;
    ArrayTextStep(std, items, levels);
    var more := EncodedValue(std, v) + LevelsText(std, next);
    HoldsParts(mem, q, "[", more);
    HoldsAt(mem, q, "[", 0);
    HoldsAt(mem, q + 1, more, 0);
    FirstByteOf(std, v);
    s := ItemStuck(std, mem, q + 1, end, v, next);
    var read := DecodeValue(mem, q + 1, end - (q + 1));
    ArrayEnters(mem, q, end, read.value, read.parsed);
    s := GoOn(std, mem, q, end, q + 1 + read.parsed, s, [read.value]);
    PlainStep(items);
  }

  lemma PlainOrNot(v: Value)
    requires ReadableItem(v)
    ensures v.Str? || v.Obj? || v.Arr?
    ensures v.Str? ==> Plain(v)
    ensures v.Obj? ==> !Plain(v)
    ensures v.Arr? ==> ReadableItems(v.items) && (Plain(v) <==> v.items != [] && PlainItems(v.items))
  {
    hide Clean, PlainItems, ReadableItems;
  }

  lemma {:induction false} ItemStuck(std: Std, mem: string, q: nat, end: nat, v: Value, levels: seq<seq<Value>>)
    returns (s: Stuck)
    requires Sane(std) && ReadableItem(v) && (forall i :: 0 <= i < |levels| ==> ReadableItems(levels[i]))
    requires Holds(mem, q, EncodedValue(std, v) + LevelsText(std, levels))
    requires q + |EncodedValue(std, v)| + |LevelsText(std, levels)| < end
    requires end - q < UINT32 && Closed(mem, end)
    ensures var r := DecodeValue(mem, q, end - q); r.Part? && r.parsed > 0 && q + r.parsed < end
    ensures Reaches(std, mem, q + DecodeValue(mem, q, end - q).parsed, end, s, if Plain(v) then |levels|
      else |levels| + 1)
    ensures Plain(v) ==> s == Leaves(levels)
    decreases end - q, 3
  {
    hide Sane, Holds, LevelsText, DecodeValue, EncodedValue, Plain, PlainItems, Clean, ReadableItem, ReadableItems;
    hide Dead;
    HoldsParts(mem, q, EncodedValue(std, v), LevelsText(std, levels));
    PlainOrNot(v);
    if Plain(v) {
      TextOfValue(std, v);
      ValueReads(mem, q, end - q, TextOf(v));
      s := Leaves(levels);
    } else if v.Obj? {
      ObjectStuck(std, mem, q, end, v);
      s := DeadEnd;
    } else if v.items == [] {
      ArrayTextStep(std, [], levels);
      HoldsParts(mem, q, "[", LevelsText(std, [[]] + levels));
      HoldsAt(mem, q, "[", 0);
      LevelsSplit(std, mem, q + 1, [[]] + levels);
      EmptyArrayStuck(mem, q, end);
      s := Leaves([[]] + levels);
    } else {
      s := ArrayStuck(std, mem, q, end, v.items, levels);
    }
  }

  // ----- The members of an object

  /** An object that decode leaves before end. */
  predicate Short(r: Part<map<string, Value>>, pos: nat, end: nat) { r.Part? && pos + r.parsed < end }

  /** The start of an array element is no key with a colon after it. */
  lemma NoHeadThere(std: Std, mem: string, pos: nat, end: nat, at: nat, v: Value, levels: seq<seq<Value>>)
    requires Sane(std) && ReadableItem(v) && levels != [] && pos < at && end - pos < UINT32
    requires Holds(mem, at, EncodedValue(std, v) + LevelsText(std, levels))
    requires at + |EncodedValue(std, v)| + |LevelsText(std, levels)| < end
    ensures var r := MemberHead(mem, pos, end - pos, at); r.NoHead? && pos + r.parsed < end
  {
    hide Sane, Holds, LevelsText, DecodeString, SkipSpaces, EncodedValue;
    HoldsParts(mem, at, EncodedValue(std, v), LevelsText(std, levels));
    HoldsAt(mem, at, EncodedValue(std, v), 0);
    FirstByteOf(std, v);
    LevelsSplit(std, mem, at + |EncodedValue(std, v)|, levels);
    assert Remaining(end - pos, at - pos) == end - at;
    SpaceNotThere(mem, at);
    SpaceNotThere(mem, at + |EncodedValue(std, v)|);
    if v.Str? {
      assert EncodedValue(std, v) == Quoted(v.s) by {
        StringText(std, v);
      }
      StringReads(mem, at, end - at, v.s);
    } else {
      NoString(mem, at, end - at);
    }
  }

  lemma StringText(std: Std, v: Value)
    requires Sane(std) && v.Str?
    ensures EncodedValue(std, v) == Quoted(v.s)
  {
  }

  lemma NoString(mem: string, at: nat, len: nat)
    requires at < |mem| && mem[at] != '"'
    ensures DecodeString(mem, at, len) == Part("", 0)
  {
  }

  lemma SpaceNotThere(mem: string, i: nat)
    requires i < |mem| && mem[i] != ' '
    ensures SkipSpaces(mem, i) == At(i)
  {
  }

  /** After a value the decoder went astray on, the object ends too early. */
  lemma EndsEarly(std: Std, mem: string, pos: nat, end: nat, q: nat, s: Stuck, members: map<string, Value>)
    requires Sane(std) && pos < q <= |mem| && end - pos < UINT32 && pos < end && Reaches(std, mem, q, end, s, 1)
    ensures match AfterMember(mem, pos, end - pos, q, members)
      case TurnFault => false
      case Stop(_, n) => pos + n < end
      case More(more, at) => Short(ObjectMembers(mem, pos, end - pos, at, more), pos, end)
  {
    hide Sane, Holds, LevelsText, SkipSpaces, SkipBlank, EncodedValue, MemberHead, MemberValue, ReadableItem;
    if s.DeadEnd? {
      SpaceNotThere(mem, q);
    } else {
      LevelsSplit(std, mem, q, s.levels);
      SpaceNotThere(mem, q);
      if s.levels[0] != [] {
        var v := s.levels[0][0];
        NoHeadThere(std, mem, pos, end, q + 1, v, [s.levels[0][1..]] + s.levels[1..]);
      }
    }
  }

  lemma SameValue(mem: string, pos: nat, len: nat, at: nat)
    requires pos <= at < |mem| && (mem[at] == '[' || mem[at] == '{')
    ensures MemberValue(mem, pos, len, at) == DecodeValue(mem, at, Remaining(len, at - pos))
  {
    hide DecodeArray, DecodeObject;
  }

  /** The first member that is not plain ends the object too early. */
  lemma MemberStuck(std: Std, mem: string, pos: nat, end: nat, at: nat, key: string, v: Value, before: map<string,
        Value>)
    requires Sane(std) && Clean(key) && ReadableItem(v) && !Plain(v) && pos < at && end - pos < UINT32
    requires Closed(mem, end)
    requires Holds(mem, at, EncodedMember(std, key, v, 0, true)) && at + |EncodedMember(std, key, v, 0, true)| < end
    ensures Short(ObjectMembers(mem, pos, end - pos, at, before), pos, end)
  {
    hide Sane, Holds, Closed, Clean, EncodedValue, DecodeValue, AfterMember, MemberValue, MemberHead, Inserted;
    hide Readable;
    var m := Member(0, key, 0, 0, TStr(""), 0);
    var head := Spaces(0) + Quoted(key) + Spaces(0) + ":" + Spaces(0);
    assert EncodedMember(std, key, v, 0, true) == head + EncodedValue(std, v);
    var start := at + |head|;
    HoldsParts(mem, at, head, EncodedValue(std, v));
    HoldsAt(mem, start, EncodedValue(std, v), 0);
    FirstByteOf(std, v);
    HeadReads(mem, pos, end - pos, at, m);
    assert Remaining(end - pos, start - pos) == end - start;
    PlainOrNot(v);
    SameValue(mem, pos, end - pos, start);
    assert EncodedValue(std, v) + LevelsText(std, []) == EncodedValue(std, v);
    var s := ItemStuck(std, mem, start, end, v, []);
    var read := DecodeValue(mem, start, end - start);
    EndsEarly(std, mem, pos, end, start + read.parsed, s, Inserted(before, key, read.value));
  }

  lemma MembersText(std: Std, members: map<string, Value>, keys: seq<string>)
    requires Sane(std) && keys != [] && Known(keys, Obj(members)) && keys[0] in members
    ensures (EncodedMembers(std, Obj(members), keys, 0, true) == EncodedMember(std, keys[0], members[keys[0]], 0, true)
      + (if |keys| == 1 then "" else "," + EncodedMembers(std, Obj(members), keys[1..], 0, true)))
  {
    hide Sane, EncodedMember;
    LaterMembers(std, Obj(members), keys[1..], 0);
  }

  /** Some of these members has a value that is not plain. */
  lemma {:induction false} MembersStuck(std: Std, mem: string, pos: nat, end: nat, at: nat,
          members: map<string, Value>, keys: seq<string>, before: map<string, Value>)
    requires Sane(std) && pos < at && end - pos < UINT32 && Closed(mem, end) && Known(keys, Obj(members))
    requires ReadableMembers(members)
    requires (forall k :: k in members ==> !members[k].Double?)
    requires (exists i :: 0 <= i < |keys| && !Plain(members[keys[i]]))
    requires Holds(mem, at, EncodedMembers(std, Obj(members), keys, 0, true))
    requires at + |EncodedMembers(std, Obj(members), keys, 0, true)| < end
    ensures Short(ObjectMembers(mem, pos, end - pos, at, before), pos, end)
    decreases |keys|
  {
    hide Sane, Holds, Closed, Short, Clean, EncodedMembers, EncodedMember, Plain, Readable, ObjectMembers;
    var key, v := keys[0], members[keys[0]];
    var first := EncodedMember(std, key, v, 0, true);
    var more := if |keys| == 1 then "" else "," + EncodedMembers(std, Obj(members), keys[1..], 0, true);
    MembersText(std, members, keys);
    HoldsParts(mem, at, first, more);
    if Plain(v) {
      HoldsParts(mem, at + |first|, ",", EncodedMembers(std, Obj(members), keys[1..], 0, true));
      HoldsAt(mem, at + |first|, ",", 0);
      PlainMemberReads(std, mem, pos, end, at, key, v, before);
      MembersStuck(std, mem, pos, end, at + |first| + 1, members, keys[1..], Inserted(before, key, v));
    } else {
      NotPlain(v);
      MemberStuck(std, mem, pos, end, at, key, v, before);
    }
  }

  lemma NotPlain(v: Value)
    requires Readable(v) && !Plain(v) && !v.Double?
    ensures ReadableItem(v)
  {
  }

  lemma PlainMemberReads(std: Std, mem: string, pos: nat, end: nat, at: nat, key: string, v: Value,
        before: map<string, Value>)
    requires Sane(std) && Clean(key) && Plain(v) && pos < at && end - pos < UINT32
    requires var s := EncodedMember(std, key, v, 0, true);
      Holds(mem, at, s) && at + |s| < end && at + |s| < |mem| && mem[at + |s|] == ','
    ensures var next := at + |EncodedMember(std, key, v, 0, true)| + 1;
      ObjectMembers(mem, pos, end - pos, at, before)
        == ObjectMembers(mem, pos, end - pos, next, Inserted(before, key, v))
  {
    hide Sane, Holds, Clean, EncodedMember, Plain, TextOf, IsText, Meaning, RenderMember, MemberTurn, Inserted;
    TextOfValue(std, v);
    MemberText(std, key, v, true);
    var m := Member(0, key, 0, 0, TextOf(v), 0);
    assert "" + RenderMember(m) == RenderMember(m);
    MemberReads(mem, pos, end - pos, at, m, before);
  }

  // ----- The round trip

  /** What decoding gives back: an object with some member, no member whose key is empty or holds a
      quote, and plain values only. */
  predicate PlainObject(members: map<string, Value>) {
    members != map[] && forall k :: k in members ==> Clean(k) && Plain(members[k])
  }

  /** decode after encode with no indent, for every object without doubles, whatever bytes follow the
      text: it gives the object back and reads every byte exactly when the object is plain. */
  lemma DecodingUndoesEncoding(std: Std, members: map<string, Value>, mem: string, pos: nat)
    requires Sane(std) && forall k :: k in members ==> !members[k].Double?
    requires Holds(mem, pos, EncodedObject(std, members, 0)) && |EncodedObject(std, members, 0)| < UINT32
    ensures var len := |EncodedObject(std, members, 0)|;
      DecodeObject(mem, pos, len) == Part(members, len) <==> PlainObject(members)
  {
    hide Plain, Clean, Holds, DecodeObject, EncodedObject, Readable, Lists;
    var keys := std.order(members);
    assert Lists(keys, members);
    ListsKeys(keys, members);
    var len := |EncodedObject(std, members, 0)|;
    if PlainObject(members) {
      PlainObjectReads(std, members, mem, pos, len);
    } else if DecodeObject(mem, pos, len) == Part(members, len) {
      ObjectIsReadable(mem, pos, len);
      ObjectEndsEarly(std, members, mem, pos);
    }
  }

  lemma ListsKeys(keys: seq<string>, members: map<string, Value>)
    requires Lists(keys, members)
    ensures Known(keys, Obj(members)) && (keys != [] ==> keys[0] in members)
    ensures forall k :: k in members ==> exists i :: 0 <= i < |keys| && keys[i] == k
  {
  }

  lemma ObjectEndsEarly(std: Std, members: map<string, Value>, mem: string, pos: nat)
    requires Sane(std) && (forall k :: k in members ==> !members[k].Double?) && ReadableMembers(members)
    requires Holds(mem, pos, EncodedObject(std, members, 0)) && |EncodedObject(std, members, 0)| < UINT32
    requires members == map[] || exists k :: k in members && !Plain(members[k])
    ensures Short(DecodeObject(mem, pos, |EncodedObject(std, members, 0)|), pos, pos + |EncodedObject(std, members, 0)|)
  {
    hide Plain, Clean, Holds, EncodedMembers, Readable, Lists, SkipSpaces, ObjectMembers;
    var keys := std.order(members);
    assert Lists(keys, members);
    ListsKeys(keys, members);
    var text := EncodedMembers(std, Obj(members), keys, 0, true);
    assert EncodedObject(std, members, 0) == "{" + (text + "}");
    HoldsParts(mem, pos, "{", text + "}");
    HoldsParts(mem, pos + 1, text, "}");
    HoldsAt(mem, pos, "{", 0);
    HoldsAt(mem, pos + 1 + |text|, "}", 0);
    SpaceNotThere(mem, pos);
    var end := pos + |text| + 2;
    if members == map[] {
      assert keys == [];
      NoMembers(std, Obj(members), 0, true);
      SpaceNotThere(mem, pos + 1);
      NoMemberThere(mem, pos, end);
    } else {
      MembersStuck(std, mem, pos, end, pos + 1, members, keys, map[]);
    }
  }

  lemma NoMemberThere(mem: string, pos: nat, end: nat)
    requires pos + 1 < end <= |mem| && mem[pos + 1] == '}'
    ensures ObjectMembers(mem, pos, end - pos, pos + 1, map[]) == Part(map[], 1)
  {
    SpaceNotThere(mem, pos + 1);
    assert MemberHead(mem, pos, end - pos, pos + 1) == NoHead(1);
  }

  /** With an indent no object is read back: decode stops at the line feed after the brace. */
  lemma IndentedIsNotRead(std: Std, members: map<string, Value>, indent: nat, mem: string, pos: nat, len: nat)
    requires Sane(std) && indent > 0 && Holds(mem, pos, EncodedObject(std, members, indent)) && 0 < len
    ensures DecodeObject(mem, pos, len) == Part(map[], 1)
  {
    var keys := std.order(members);
    assert Lists(keys, members);
    var text := EncodedObject(std, members, indent);
    assert text[1] == '\n' by {
      hide EncodedMember, Lists, Sane;
      if keys == [] {
        NoMembers(std, Obj(members), indent, true);
      } else {
        OpensWithLineFeed(std, keys[0], members[keys[0]], indent);
      }
    }
    hide EncodedObject;
    HoldsAt(mem, pos, text, 0);
    HoldsAt(mem, pos, text, 1);
    GivenUp(mem, pos, len);
  }

  lemma OpensWithLineFeed(std: Std, key: string, v: Value, indent: nat)
    requires Sane(std) && indent > 0
    ensures EncodedMember(std, key, v, indent, true)[0] == '\n'
  {
    hide EncodedValue;
  }
}
