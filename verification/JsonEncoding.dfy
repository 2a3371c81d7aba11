/** What the JSON encoder of encoding/fwoop_json.cpp writes. */
module JsonEncoding {
  import opened CLibrary
  import opened Json

  /** What the encoder takes from the standard library: the order in which an unordered_map is walked
      and std::to_string of a double. */
  datatype Std = Std(order: map<string, Value> -> seq<string>, show: string -> string)

  predicate Lists(keys: seq<string>, members: map<string, Value>) {
    && (forall i :: 0 <= i < |keys| ==> keys[i] in members) && (forall k :: k in members ==> k in keys)
    && (forall i, j :: 0 <= i < j < |keys| ==> keys[i] != keys[j])
  }

  /** Every map is walked over each of its keys once, and no number prints as nothing. */
  ghost predicate Sane(std: Std) {
    (forall m :: Lists(std.order(m), m)) && (forall d :: std.show(d) != "")
  }

  /** encodeValue; a nested array or object is encoded with an indent of 2. */
  ghost function EncodedValue(std: Std, v: Value): (s: string)
    requires Sane(std)
    ensures s != ""
    decreases v, 1, 0
  {
    match v
    case Str(s) => "\"" + s + "\""
    case Int(i) => IntToString(i)
    case Double(d) => std.show(d)
    case Bool(b) => if b then "true" else "false"
    case Arr(items) => EncodedArray(std, items)
    case Obj(members) => "{" + EncodedMembers(std, v, std.order(members), 2, true) + Closing(2)
  }

  /** JsonArray::encode, which makes no use of its indent. */
  ghost function EncodedArray(std: Std, items: seq<Value>): string
    requires Sane(std)
    decreases items, 1, 0
  {
    "[" + EncodedItems(std, items, true) + "]"
  }

  ghost function EncodedItems(std: Std, items: seq<Value>, isFirst: bool): string
    requires Sane(std)
    decreases items, 0, 0
  {
    if items == [] then "" else EncodedItem(std, items[0], isFirst) + EncodedItems(std, items[1..], false)
  }

  ghost function EncodedItem(std: Std, v: Value, isFirst: bool): (s: string)
    requires Sane(std)
    ensures s != ""
    decreases v, 1, 1
  {
    (if isFirst then "" else ",") + EncodedValue(std, v)
  }

  /** What stands before the key of a member. */
  function Opening(indent: nat, isFirst: bool): string {
    (if isFirst then "" else ",") + (if indent > 0 then "\n" + Spaces(indent) else "")
  }

  /** What ends an object. */
  function Closing(indent: nat): string {
    if indent > 0 then "\n}" else "}"
  }

  predicate Known(keys: seq<string>, v: Value) {
    v.Obj? && forall i :: 0 <= i < |keys| ==> keys[i] in v.members
  }

  /** The members with the given keys of the object v. */
  ghost function EncodedMembers(std: Std, v: Value, keys: seq<string>, indent: nat, isFirst: bool): string
    requires Sane(std) && Known(keys, v)
    decreases v, 0, |keys|
  {
    if keys == [] then ""
    else
      var first := EncodedMember(std, keys[0], v.members[keys[0]], indent, isFirst);
      first + EncodedMembers(std, v, keys[1..], indent, false)
  }

  ghost function EncodedMember(std: Std, key: string, v: Value, indent: nat, isFirst: bool): (s: string)
    requires Sane(std)
    ensures s != ""
    decreases v, 1, 1
  {
    Opening(indent, isFirst) + "\"" + key + "\":" + EncodedValue(std, v)
  }

  /** JsonObject::encode */
  ghost function EncodedObject(std: Std, members: map<string, Value>, indent: nat): string
    requires Sane(std)
  {
    "{" + EncodedMembers(std, Obj(members), std.order(members), indent, true) + Closing(indent)
  }

  // ----- One turn of the encoding loops

  lemma ItemsStep(std: Std, items: seq<Value>, isFirst: bool, written: string, tail: string)
    requires Sane(std) && items != []
    ensures written + EncodedItems(std, items, isFirst) + tail
      == written + EncodedItem(std, items[0], isFirst) + EncodedItems(std, items[1..], false) + tail
  {
    hide EncodedItem;
  }

  lemma NoItems(std: Std, isFirst: bool)
    requires Sane(std)
    ensures EncodedItems(std, [], isFirst) == ""
  {
  }

  lemma MembersStep(std: Std, v: Value, keys: seq<string>, indent: nat, isFirst: bool, written: string)
    requires Sane(std) && keys != [] && Known(keys, v) && keys[0] in v.members
    ensures (written + EncodedMembers(std, v, keys, indent, isFirst)
      == written + EncodedMember(std, keys[0], v.members[keys[0]], indent, isFirst)
        + EncodedMembers(std, v, keys[1..], indent, false))
  {
    hide EncodedMember;
  }

  lemma EncodedObjectOf(std: Std, members: map<string, Value>, indent: nat)
    requires Sane(std)
    ensures Known(std.order(members), Obj(members))
    ensures (EncodedObject(std, members, indent)
      == "{" + EncodedMembers(std, Obj(members), std.order(members), indent, true) + Closing(indent))
  {
    hide EncodedMembers, Closing;
    assert Lists(std.order(members), members);
  }

  lemma KnownSlice(keys: seq<string>, v: Value, i: nat)
    requires Known(keys, v) && i <= |keys|
    ensures Known(keys[i..], v)
    ensures (i < |keys| ==> keys[i] in v.members && keys[i..][0] == keys[i] && keys[i..][1..] == keys[i + 1..])
  {
  }

  lemma NoMembers(std: Std, v: Value, indent: nat, isFirst: bool)
    requires Sane(std) && v.Obj?
    ensures EncodedMembers(std, v, [], indent, isFirst) == ""
  {
  }
}
