/** The texts the JSON decoder reads, as a grammar with every optional blank, and the completeness of
    the decoder for it. */
module JsonGrammar {
  import opened Buffers
  import opened CLibrary
  import opened Json

  datatype Text =
    | TStr(s: string)
    | TInt(minus: bool, digits: string)
    | TDecimal(token: string)
    | TBool(b: bool)
    | TArr(elements: seq<Element>, trail: string)
    | TObj(members: seq<Member>)

  /** An array element and the white space before it. */
  datatype Element = Element(blank: string, text: Text)

  /** An object member with the spaces around its key and its value. */
  datatype Member = Member(beforeKey: nat, key: string, afterKey: nat, beforeValue: nat, text: Text, afterValue: nat)

  function Quoted(s: string): string { "\"" + s + "\"" }

  function IntText(minus: bool, digits: string): string { (if minus then "-" else "") + digits }

  function BoolText(b: bool): string { if b then "true" else "false" }

  function Render(t: Text): (r: string)
    ensures r != "" || t.TInt? || t.TDecimal?
    decreases t, 0
  {
    match t
    case TStr(s) => Quoted(s)
    case TInt(minus, digits) => IntText(minus, digits)
    case TDecimal(token) => token
    case TBool(b) => BoolText(b)
    case TArr(elements, trail) => "[" + RenderElements(elements) + trail + "]"
    case TObj(members) => "{" + RenderMembers(members) + "}"
  }

  function RenderElements(es: seq<Element>): string
    decreases es, 1
  {
    if es == [] then ""
    else es[0].blank + Render(es[0].text) + (if |es| == 1 then "" else "," + RenderElements(es[1..]))
  }

  function RenderMember(m: Member): string
    decreases m, 1
  {
    Spaces(m.beforeKey) + Quoted(m.key) + Spaces(m.afterKey) + ":" + Spaces(m.beforeValue) + Render(m.text)
      + Spaces(m.afterValue)
  }

  function RenderMembers(ms: seq<Member>): string
    decreases ms, 2
  {
    if ms == [] then "" else RenderMember(ms[0]) + (if |ms| == 1 then "" else "," + RenderMembers(ms[1..]))
  }

  // ----- Which of them are texts of the grammar

  predicate Clean(s: string) { s != "" && '"' !in s }

  predicate AllBlank(s: string) { forall i :: 0 <= i < |s| ==> IsSpace(s[i]) }

  /** A decimal number in int's range; zero only as the single digit 0. */
  predicate IsIntText(minus: bool, digits: string) {
    && AllDigits(digits)
    && (if minus then Digits(digits, 0) <= 0x8000_0000 else Digits(digits, 0) <= 0x7FFF_FFFF)
    && (Digits(digits, 0) != 0 || (!minus && |digits| == 1))
  }

  /** Digits and a point, after a minus sign or not; decodeDouble counts them in a byte. */
  predicate IsDecimalText(token: string) {
    && |token| <= 255 && '.' in token
    && forall i :: 0 <= i < |token| ==> IsDigit(token[i]) || token[i] == '.' || (i == 0 && token[i] == '-')
  }

  predicate IsScalar(t: Text) { t.TInt? || t.TDecimal? || t.TBool? }

  predicate IsText(t: Text)
    decreases t, 0
  {
    match t
    case TStr(s) => Clean(s)
    case TInt(minus, digits) => IsIntText(minus, digits)
    case TDecimal(token) => IsDecimalText(token)
    case TBool(_) => true
    case TArr(elements, trail) => elements != [] && AreElements(elements) && AllBlank(trail)
    case TObj(members) => members != [] && AreMembers(members)
  }

  /** Strings, arrays and objects only: the decoder reads no bare scalar in an array. */
  predicate AreElements(es: seq<Element>)
    decreases es, 1
  {
    es == [] || (AllBlank(es[0].blank) && !IsScalar(es[0].text) && IsText(es[0].text) && AreElements(es[1..]))
  }

  predicate AreMembers(ms: seq<Member>)
    decreases ms, 1
  {
    ms == [] || (Clean(ms[0].key) && IsText(ms[0].text) && AreMembers(ms[1..]))
  }

  // ----- What they mean

  function Meaning(t: Text): Value
    decreases t, 0
  {
    match t
    case TStr(s) => Str(s)
    case TInt(minus, digits) => Int(if minus then 0 - Digits(digits, 0) else Digits(digits, 0))
    case TDecimal(token) => Double(token)
    case TBool(b) => Bool(b)
    case TArr(elements, _) => Arr(Meanings(elements))
    case TObj(members) => Obj(Merged(members, map[]))
  }

  function Meanings(es: seq<Element>): seq<Value>
    decreases es, 1
  {
    if es == [] then [] else [Meaning(es[0].text)] + Meanings(es[1..])
  }

  /** The first of several members with one key counts. */
  function Merged(ms: seq<Member>, before: map<string, Value>): map<string, Value>
    decreases ms, 1
  {
    if ms == [] then before else Merged(ms[1..], Inserted(before, ms[0].key, Meaning(ms[0].text)))
  }

  /** What the merging comes to: the keys are those of the members, each with the value of its first member. */
  lemma {:induction false} FirstMemberCounts(ms: seq<Member>, before: map<string, Value>, key: string)
    ensures key in Merged(ms, before) <==> key in before || exists i :: 0 <= i < |ms| && ms[i].key == key
    ensures key in before ==> Merged(ms, before)[key] == before[key]
    ensures key !in before ==>
      forall i :: 0 <= i < |ms| && IsFirstOf(ms, i, key) ==> Merged(ms, before)[key] == Meaning(ms[i].text)
    decreases |ms|
  {
    hide Meaning;
    if ms != [] {
      var more := Inserted(before, ms[0].key, Meaning(ms[0].text));
      FirstMemberCounts(ms[1..], more, key);
      assert forall i :: 1 <= i < |ms| ==> ms[i] == ms[1..][i - 1];
      assert forall i :: 0 <= i < |ms| - 1 ==> ms[1..][i] == ms[i + 1];
      assert forall i :: 1 <= i < |ms| && IsFirstOf(ms, i, key) ==> IsFirstOf(ms[1..], i - 1, key);
    }
  }

  /** Member i is the first with this key. */
  predicate IsFirstOf(ms: seq<Member>, i: nat, key: string)
    requires i < |ms|
  {
    ms[i].key == key && forall j :: 0 <= j < i ==> ms[j].key != key
  }

  // ----- Scanning over what the grammar allows

  lemma {:induction false} SkipsSpaces(mem: string, i: nat, n: nat)
    requires Holds(mem, i, Spaces(n)) && i + n < |mem| && mem[i + n] != ' '
    ensures SkipSpaces(mem, i) == At(i + n)
    decreases n
  {
    if n > 0 {
      HoldsAt(mem, i, Spaces(n), 0);
      assert Spaces(n) == [' '] + Spaces(n - 1);
      HoldsParts(mem, i, [' '], Spaces(n - 1));
      SkipsSpaces(mem, i + 1, n - 1);
    }
  }

  lemma {:induction false} SkipsBlank(mem: string, i: nat, b: string, end: nat)
    requires AllBlank(b) && Holds(mem, i, b) && i + |b| < end && i + |b| < |mem| && !IsSpace(mem[i + |b|])
    ensures SkipBlank(mem, i, end) == At(i + |b|) && SkipBlankFirst(mem, i, end) == At(i + |b|)
    decreases |b|
  {
    if b != "" {
      HoldsAt(mem, i, b, 0);
      assert b == [b[0]] + b[1..];
      HoldsParts(mem, i, [b[0]], b[1..]);
      SkipsBlank(mem, i + 1, b[1..], end);
    }
  }

  lemma {:induction false} FindsQuote(mem: string, i: nat, s: string, end: nat)
    requires '"' !in s && Holds(mem, i, s) && i + |s| < |mem| && mem[i + |s|] == '"' && i + |s| <= end
    ensures QuoteEnd(mem, i, end) == At(i + |s|)
    decreases |s|
  {
    if s != "" {
      HoldsAt(mem, i, s, 0);
      assert s == [s[0]] + s[1..];
      HoldsParts(mem, i, [s[0]], s[1..]);
      FindsQuote(mem, i + 1, s[1..], end);
    }
  }

  lemma {:induction false} FindsTokenEnd(mem: string, i: nat, s: string)
    requires (forall k :: 0 <= k < |s| ==> !EndsToken(s[k])) && Holds(mem, i, s) && i + |s| < |mem|
    requires EndsToken(mem[i + |s|])
    ensures TokenEnd(mem, i) == At(i + |s|)
    decreases |s|
  {
    if s != "" {
      HoldsAt(mem, i, s, 0);
      assert s == [s[0]] + s[1..];
      HoldsParts(mem, i, [s[0]], s[1..]);
      FindsTokenEnd(mem, i + 1, s[1..]);
    }
  }

  lemma StringReads(mem: string, pos: nat, len: nat, s: string)
    requires Clean(s) && Holds(mem, pos, Quoted(s)) && |s| + 2 <= len
    ensures DecodeString(mem, pos, len) == Part(s, |s| + 2)
  {
    HoldsParts(mem, pos, "\"" + s, "\"");
    HoldsParts(mem, pos, "\"", s);
    HoldsAt(mem, pos, "\"", 0);
    HoldsAt(mem, pos + 1 + |s|, "\"", 0);
    FindsQuote(mem, pos + 1, s, pos + len);
  }

  // ----- Scalars

  lemma {:induction false} DigitsOfDigits(s: string, n: nat)
    requires forall i :: 0 <= i < |s| ==> IsDigit(s[i])
    ensures forall i :: 0 <= i < |s| ==> !EndsToken(s[i]) && s[i] != '.' && !IsSpace(s[i]) && s[i] != '-' && s[i] != '+'
    ensures Digits(s, n) >= n
  {
    if s != "" {
      DigitsOfDigits(s[1..], 10 * n + Digit(s[0]));
    }
  }

  /** The text of a bare scalar as decodeValue's fall-through branch sees it. */
  predicate Bare(s: string) {
    s != "" && (forall i :: 0 <= i < |s| ==> !EndsToken(s[i])) && s[0] != '"' && s[0] != '[' && s[0] != '{'
  }

  lemma IntReads(minus: bool, digits: string)
    requires IsIntText(minus, digits)
    ensures var s := IntText(minus, digits);
      Bare(s) && DecodeScalar(s) == Scalar(Meaning(TInt(minus, digits)))
  {
    var s := IntText(minus, digits);
    DigitsOfDigits(digits, 0);
    if minus {
      assert s[0] == '-' && s[1..] == digits;
      assert Atoi(s) == 0 - Digits(digits, 0);
      hide Digits, Atoi;
    } else {
      assert s == digits;
      assert Atoi(s) == Digits(digits, 0);
      if |digits| == 1 {
        assert digits[1..] == "";
        assert Digits(digits, 0) == Digit(digits[0]);
      }
      hide Digits, Atoi;
    }
  }

  lemma BoolReads(b: bool)
    ensures Bare(BoolText(b)) && DecodeScalar(BoolText(b)) == Scalar(Bool(b))
  {
  }

  /** The token of a decimal is kept whole. */
  lemma DecimalTokenReads(token: string)
    requires IsDecimalText(token)
    ensures Bare(token) && DecodeScalar(token) == Scalar(Double(token))
  {
    hide Atoi;
  }

  /** A number with an exponent and no point is taken for the digits before the exponent. */
  lemma {:induction false} ExponentIsDropped(digits: string, exponent: string)
    requires AllDigits(digits) && 0 < Digits(digits, 0) <= INT_MAX && exponent != "" && exponent[0] == 'e'
    requires '.' !in exponent
    ensures DecodeScalar(digits + exponent) == Scalar(Int(Digits(digits, 0)))
  {
    var s := digits + exponent;
    DigitsOfDigits(digits, 0);
    DigitsStop(digits, exponent, 0);
    assert IsDigit(s[0]) && s[|digits|] == 'e';
  }

  lemma {:induction false} DigitsStop(digits: string, more: string, n: nat)
    requires (forall i :: 0 <= i < |digits| ==> IsDigit(digits[i])) && more != "" && !IsDigit(more[0])
    ensures Digits(digits + more, n) == Digits(digits, n)
  {
    if digits == "" {
      assert digits + more == more;
    } else {
      assert (digits + more)[1..] == digits[1..] + more;
      DigitsStop(digits[1..], more, 10 * n + Digit(digits[0]));
    }
  }

  lemma BareReads(mem: string, pos: nat, len: nat, at: nat, s: string, v: Value)
    requires Bare(s) && DecodeScalar(s) == Scalar(v) && pos <= at && Holds(mem, at, s)
    requires at + |s| < |mem| && EndsToken(mem[at + |s|])
    ensures MemberValue(mem, pos, len, at) == Part(v, |s|) && mem[at] != ' '
  {
    hide DecodeScalar, DecodeString, DecodeArray, DecodeObject, TokenEnd;
    HoldsAt(mem, at, s, 0);
    assert s == [s[0]] + s[1..];
    HoldsParts(mem, at, [s[0]], s[1..]);
    FindsTokenEnd(mem, at + 1, s[1..]);
    assert mem[at..at + |s|] == s;
  }

  lemma BareText(t: Text)
    requires IsScalar(t) && IsText(t)
    ensures Bare(Render(t)) && DecodeScalar(Render(t)) == Scalar(Meaning(t))
  {
    hide DecodeScalar, Digits;
    if t.TInt? {
      IntReads(t.minus, t.digits);
    } else if t.TDecimal? {
      DecimalTokenReads(t.token);
    } else {
      BoolReads(t.b);
    }
  }

  // ----- Arrays

  /** A string, an array or an object starts with a byte of its own. */
  lemma FirstByte(t: Text)
    requires IsText(t) && !IsScalar(t)
    ensures var r := Render(t); r != "" && (r[0] == if t.TStr? then '"' else if t.TArr? then '[' else '{')
  {
  }

  lemma {:induction false} ValueReads(mem: string, pos: nat, len: nat, t: Text)
    requires IsText(t) && !IsScalar(t) && Holds(mem, pos, Render(t)) && |Render(t)| <= len < UINT32
    ensures DecodeValue(mem, pos, len) == Part(Meaning(t), |Render(t)|)
    decreases t, 0
  {
    hide DecodeString, DecodeArray, DecodeObject, RenderElements, RenderMembers, AreElements, AreMembers, Meanings;
    hide Merged, Clean;
    FirstByte(t);
    HoldsAt(mem, pos, Render(t), 0);
    match t
    case TStr(s) => StringReads(mem, pos, len, s); CleanIsNotEmpty(s);
    case TArr(es, trail) => ArrayReads(mem, pos, len, "", es, trail);
    case TObj(ms) => ObjectReads(mem, pos, len, 0, ms);
  }

  lemma CleanIsNotEmpty(s: string)
    requires Clean(s)
    ensures s != ""
  {
  }

  /** White space before the first element does not matter to the loop that reads the elements. */
  lemma ItemsAfterBlank(mem: string, pos: nat, len: nat, at: nat, i: nat)
    requires pos < at <= i <= |mem| && SkipBlank(mem, at, pos + len) == SkipBlank(mem, i, pos + len)
    ensures ArrayItems(mem, pos, len, at, []) == ArrayItems(mem, pos, len, i, [])
  {
    hide SkipBlank, DecodeValue, Remaining;
    assert ElementTurn(mem, pos, len, at, []) == ElementTurn(mem, pos, len, i, []);
  }

  /** The elements, the white space after them and the closing bracket. */
  function ItemsText(es: seq<Element>, trail: string): (r: string)
    ensures |r| == |RenderElements(es)| + |trail| + 1
  {
    RenderElements(es) + trail + "]"
  }

  /** What stands where in ItemsText(es, trail). */
  lemma ItemsSplit(mem: string, at: nat, es: seq<Element>, trail: string)
    requires es != [] && Holds(mem, at, ItemsText(es, trail))
    ensures var e := es[0];
      var i := at + |e.blank|;
      var after := i + |Render(e.text)|;
      && Holds(mem, at, e.blank) && Holds(mem, i, Render(e.text)) && after < |mem|
      && (|es| == 1 ==> Holds(mem, after, trail + "]") && |ItemsText(es, trail)| == after - at + |trail| + 1)
      && (|es| > 1 ==> mem[after] == ',' && Holds(mem, after + 1, ItemsText(es[1..], trail)))
      && (|es| > 1 ==> |ItemsText(es, trail)| == after - at + 1 + |ItemsText(es[1..], trail)|)
  {
    hide Render, RenderElements, ItemsText, Holds;
    if |es| == 1 {
      LastItemStands(mem, at, es, trail);
    } else {
      ItemStands(mem, at, es, trail);
    }
  }

  lemma LastItemStands(mem: string, at: nat, es: seq<Element>, trail: string)
    requires |es| == 1 && Holds(mem, at, ItemsText(es, trail))
    ensures var e := es[0];
      var i := at + |e.blank|;
      var after := i + |Render(e.text)|;
      && Holds(mem, at, e.blank) && Holds(mem, i, Render(e.text)) && after < |mem|
      && Holds(mem, after, trail + "]") && |ItemsText(es, trail)| == after - at + |trail| + 1
  {
    ItemsTextOf(es, trail);
    hide Render, RenderElements, ItemsText, Holds;
    HoldsThree(mem, at, es[0].blank, Render(es[0].text), trail + "]");
  }

  lemma ItemStands(mem: string, at: nat, es: seq<Element>, trail: string)
    requires |es| > 1 && Holds(mem, at, ItemsText(es, trail))
    ensures var e := es[0];
      var i := at + |e.blank|;
      var after := i + |Render(e.text)|;
      && Holds(mem, at, e.blank) && Holds(mem, i, Render(e.text)) && after < |mem| && mem[after] == ','
      && Holds(mem, after + 1, ItemsText(es[1..], trail))
      && |ItemsText(es, trail)| == after - at + 1 + |ItemsText(es[1..], trail)|
  {
    var body := Render(es[0].text);
    ItemsTextOf(es, trail);
    hide Render, RenderElements, ItemsText, Holds;
    HoldsParts(mem, at, es[0].blank, body + ("," + ItemsText(es[1..], trail)));
    MemberStands(mem, at + |es[0].blank|, body, ItemsText(es[1..], trail));
  }

  lemma ItemsTextOf(es: seq<Element>, trail: string)
    requires es != []
    ensures var rest := if |es| == 1 then trail + "]" else "," + ItemsText(es[1..], trail);
      ItemsText(es, trail) == es[0].blank + (Render(es[0].text) + rest)
  {
    hide Render;
    var a, b, c := es[0].blank, Render(es[0].text), trail + "]";
    if |es| == 1 {
      assert RenderElements(es) == a + b + "";
      hide RenderElements;
      assert (a + b + "") + trail + "]" == a + (b + c);
    } else {
      var more := RenderElements(es[1..]);
      assert RenderElements(es) == a + b + ("," + more);
      hide RenderElements;
      assert (a + b + ("," + more)) + trail + "]" == a + (b + ("," + (more + trail + "]")));
    }
  }

  lemma FirstBlank(mem: string, at: nat, es: seq<Element>, trail: string, end: nat)
    requires es != [] && AreElements(es) && Holds(mem, at, ItemsText(es, trail)) && at + |ItemsText(es, trail)| <= end
    ensures at + |es[0].blank| < |mem| && at + |es[0].blank| < end
    ensures SkipBlank(mem, at, end) == SkipBlankFirst(mem, at, end) == SkipBlank(mem, at + |es[0].blank|, end)
      == At(at + |es[0].blank|)
  {
    hide IsText, Render, Holds, ItemsText, RenderElements;
    ItemsSplit(mem, at, es, trail);
    FirstByte(es[0].text);
    HoldsAt(mem, at + |es[0].blank|, Render(es[0].text), 0);
    SkipsBlank(mem, at, es[0].blank, end);
  }

  /** Completeness: an array of the grammar, white space before it or not, is decoded to what it means. */
  lemma {:induction false} ArrayReads(mem: string, pos: nat, len: nat, before: string, es: seq<Element>, trail: string)
    requires es != [] && AreElements(es) && AllBlank(before) && AllBlank(trail)
    requires Holds(mem, pos, before + ("[" + RenderElements(es) + trail + "]"))
    requires |before| + |RenderElements(es)| + |trail| + 2 <= len < UINT32
    ensures DecodeArray(mem, pos, len) == Part(Meanings(es), |before| + |RenderElements(es)| + |trail| + 2)
    decreases es, 3
  {
    hide Holds, RenderElements, SkipBlank, AreElements, ArrayItems, IsText, Render, Meaning, Meanings, AllBlank;
    assert "[" + RenderElements(es) + trail + "]" == "[" + ItemsText(es, trail);
    hide ItemsText;
    var start := pos + |before|;
    HoldsParts(mem, pos, before, "[" + ItemsText(es, trail));
    HoldsParts(mem, start, "[", ItemsText(es, trail));
    HoldsAt(mem, start, "[", 0);
    SkipsBlank(mem, pos, before, pos + len);
    ItemsRead(mem, pos, len, start + 1, es, trail, []);
    FirstBlank(mem, start + 1, es, trail, pos + len);
    ItemsAfterBlank(mem, pos, len, start + 1, start + 1 + |es[0].blank|);
    assert [] + Meanings(es) == Meanings(es);
  }

  /** The turn of the loop for an element with a comma after it. */
  lemma ElementReads(mem: string, pos: nat, len: nat, at: nat, i: nat, items: seq<Value>, v: Value, n: nat)
    requires pos < at <= i <= i + n < pos + len < pos + UINT32 && i + n < |mem| && mem[i + n] == ','
    requires SkipBlank(mem, at, pos + len) == At(i) && DecodeValue(mem, i, len - (i - pos)) == Part(v, n) && n > 0
    ensures ElementTurn(mem, pos, len, at, items) == More(items + [v], i + n + 1)
  {
    hide DecodeValue, SkipBlank;
    assert Remaining(len, i - pos) == len - (i - pos);
  }

  /** The turn of the loop for the last element. */
  lemma LastElementReads(mem: string, pos: nat, len: nat, at: nat, i: nat, items: seq<Value>, v: Value, n: nat,
        trail: string)
    requires pos < at <= i <= i + n && i + n + |trail| < pos + len < pos + UINT32 && AllBlank(trail)
    requires Holds(mem, i + n, trail + "]")
    requires SkipBlank(mem, at, pos + len) == At(i) && DecodeValue(mem, i, len - (i - pos)) == Part(v, n) && n > 0
    ensures ElementTurn(mem, pos, len, at, items) == Stop(items + [v], i + n + |trail| + 1 - pos)
  {
    hide Holds, DecodeValue, SkipBlank;
    assert Remaining(len, i - pos) == len - (i - pos);
    HoldsParts(mem, i + n, trail, "]");
    HoldsAt(mem, i + n + |trail|, "]", 0);
    HoldsAt(mem, i + n, trail + "]", 0);
    SkipsBlank(mem, i + n, trail, pos + len);
  }

  lemma MeaningsStep(es: seq<Element>, items: seq<Value>)
    requires es != []
    ensures items + Meanings(es) == items + [Meaning(es[0].text)] + Meanings(es[1..])
    ensures |es| == 1 ==> items + Meanings(es) == items + [Meaning(es[0].text)]
  {
    hide Meaning;
    if |es| == 1 {
      assert es[1..] == [];
    }
  }

  lemma {:induction false} ItemsRead(mem: string, pos: nat, len: nat, at: nat, es: seq<Element>, trail: string,
        items: seq<Value>)
    requires es != [] && AreElements(es) && AllBlank(trail) && pos < at <= |mem| && Holds(mem, at, ItemsText(es, trail))
    requires at - pos + |ItemsText(es, trail)| <= len < UINT32
    ensures ArrayItems(mem, pos, len, at, items) == Part(items + Meanings(es), at - pos + |ItemsText(es, trail)|)
    decreases es, 2
  {
    hide Holds, ElementTurn, DecodeValue, SkipBlank, SkipBlankFirst, IsText, Render, Meaning, Meanings, AllBlank;
    hide ItemsText, RenderElements;
    MeaningsStep(es, items);
    var e := es[0];
    var n := |Render(e.text)|;
    var i := at + |e.blank|;
    ItemsSplit(mem, at, es, trail);
    FirstBlank(mem, at, es, trail, pos + len);
    FirstByte(e.text);
    ValueReads(mem, i, len - (i - pos), e.text);
    if |es| == 1 {
      LastElementReads(mem, pos, len, at, i, items, Meaning(e.text), n, trail);
    } else {
      ElementReads(mem, pos, len, at, i, items, Meaning(e.text), n);
      ItemsRead(mem, pos, len, i + n + 1, es[1..], trail, items + [Meaning(e.text)]);
    }
  }

  // ----- Objects

  /** The value of a member, up to the byte after it. */
  lemma {:induction false} MemberValueReads(mem: string, pos: nat, len: nat, at: nat, t: Text)
    requires IsText(t) && pos <= at && Holds(mem, at, Render(t)) && at - pos + |Render(t)| <= len < UINT32
    requires at + |Render(t)| < |mem| && EndsToken(mem[at + |Render(t)|])
    ensures at < |mem| && MemberValue(mem, pos, len, at) == Part(Meaning(t), |Render(t)|)
    ensures Render(t) != "" && mem[at] != ' '
    decreases t, 1
  {
    hide DecodeString, DecodeArray, DecodeObject, DecodeScalar, TokenEnd;
    if IsScalar(t) {
      hide IsScalar, Render, Meaning, IsText, MemberValue;
      BareText(t);
      BareReads(mem, pos, len, at, Render(t), Meaning(t));
    } else {
      hide Render, Meaning, IsText;
      FirstByte(t);
      HoldsAt(mem, at, Render(t), 0);
      assert Remaining(len, at - pos) == len - (at - pos);
      ValueReads(mem, at, len - (at - pos), t);
    }
  }

  /** Where the parts of a member's head stand. */
  lemma HeadSplit(mem: string, at: nat, m: Member)
    requires Holds(mem, at, Spaces(m.beforeKey) + Quoted(m.key) + Spaces(m.afterKey) + ":" + Spaces(m.beforeValue))
    ensures var i := at + m.beforeKey;
      var colon := i + |m.key| + 2 + m.afterKey;
      && Holds(mem, at, Spaces(m.beforeKey)) && Holds(mem, i, Quoted(m.key))
      && Holds(mem, i + |m.key| + 2, Spaces(m.afterKey))
      && Holds(mem, colon + 1, Spaces(m.beforeValue)) && colon < |mem| && mem[colon] == ':' && mem[i] == '"'
  {
    hide Holds, Spaces;
    var a, q, b, c := Spaces(m.beforeKey), Quoted(m.key), Spaces(m.afterKey), Spaces(m.beforeValue);
    HoldsParts(mem, at, a + q + b + ":", c);
    HoldsParts(mem, at, a + q + b, ":");
    HoldsParts(mem, at, a + q, b);
    HoldsParts(mem, at, a, q);
    HoldsAt(mem, at + m.beforeKey, q, 0);
    HoldsAt(mem, at + m.beforeKey + |q| + m.afterKey, ":", 0);
  }

  lemma HeadReads(mem: string, pos: nat, len: nat, at: nat, m: Member)
    requires Clean(m.key) && pos < at
    requires Holds(mem, at, Spaces(m.beforeKey) + Quoted(m.key) + Spaces(m.afterKey) + ":" + Spaces(m.beforeValue))
    requires var start := at + m.beforeKey + |m.key| + 2 + m.afterKey + 1 + m.beforeValue;
      start < |mem| && mem[start] != ' ' && start - pos <= len < UINT32
    ensures MemberHead(mem, pos, len, at)
      == Head(m.key, at + m.beforeKey + |m.key| + 2 + m.afterKey + 1 + m.beforeValue)
  {
    hide Holds, DecodeString, SkipSpaces, MemberHead, Clean, Spaces, Quoted;
    CleanIsNotEmpty(m.key);
    HeadSplit(mem, at, m);
    var i := at + m.beforeKey;
    var colon := i + |m.key| + 2 + m.afterKey;
    SkipsSpaces(mem, at, m.beforeKey);
    StringReads(mem, i, len - (i - pos), m.key);
    SkipsSpaces(mem, i + |m.key| + 2, m.afterKey);
    SkipsSpaces(mem, colon + 1, m.beforeValue);
    HeadInSteps(mem, pos, len, at, i, m.key, colon, colon + 1 + m.beforeValue);
  }

  lemma HeadInSteps(mem: string, pos: nat, len: nat, at: nat, i: nat, key: string, colon: nat, start: nat)
    requires pos < at <= i && i - pos <= len < UINT32 && key != "" && colon < |mem| && mem[colon] == ':'
    requires at <= |mem| && SkipSpaces(mem, at) == At(i)
    requires DecodeString(mem, i, len - (i - pos)) == Part(key, |key| + 2)
    requires SkipSpaces(mem, i + |key| + 2) == At(colon) && SkipSpaces(mem, colon + 1) == At(start)
    ensures MemberHead(mem, pos, len, at) == Head(key, start)
  {
    hide DecodeString, SkipSpaces;
    assert Remaining(len, i - pos) == len - (i - pos);
  }

  lemma AfterReads(mem: string, pos: nat, len: nat, at: nat, n: nat, members: map<string, Value>)
    requires pos < at && Holds(mem, at, Spaces(n)) && at + n < |mem| && at + n - pos < len
    ensures mem[at + n] == ',' ==> AfterMember(mem, pos, len, at, members) == More(members, at + n + 1)
    ensures mem[at + n] == '}' ==> AfterMember(mem, pos, len, at, members) == Stop(members, at + n + 1 - pos)
  {
    if mem[at + n] != ' ' {
      SkipsSpaces(mem, at, n);
    }
  }

  /** One member and the byte after it. */
  lemma {:induction false} MemberReads(mem: string, pos: nat, len: nat, at: nat, m: Member, members: map<string, Value>)
    requires Clean(m.key) && IsText(m.text) && pos < at && Holds(mem, at, RenderMember(m))
    requires at + |RenderMember(m)| < |mem| && at + |RenderMember(m)| - pos < len < UINT32
    requires mem[at + |RenderMember(m)|] == ',' || mem[at + |RenderMember(m)|] == '}'
    ensures MemberTurn(mem, pos, len, at, members) ==
      var all := Inserted(members, m.key, Meaning(m.text));
      var end := at + |RenderMember(m)|;
      if mem[end] == ',' then More(all, end + 1) else Stop(all, end + 1 - pos)
    decreases m, 1
  {
    hide MemberHead, MemberValue, AfterMember, Inserted, Render, Meaning, IsText, Clean, Quoted;
    var head := Spaces(m.beforeKey) + Quoted(m.key) + Spaces(m.afterKey) + ":" + Spaces(m.beforeValue);
    var body, tail := Render(m.text), Spaces(m.afterValue);
    QuotedLength(m.key);
    assert RenderMember(m) == head + body + tail;
    HoldsParts(mem, at, head + body, tail);
    HoldsParts(mem, at, head, body);
    var start := at + |head|;
    var end := start + |body|;
    if tail != "" {
      HoldsAt(mem, end, tail, 0);
    }
    MemberValueReads(mem, pos, len, start, m.text);
    HeadReads(mem, pos, len, at, m);
    AfterReads(mem, pos, len, end, m.afterValue, Inserted(members, m.key, Meaning(m.text)));
  }

  lemma QuotedLength(s: string)
    ensures |Quoted(s)| == |s| + 2
  {
  }

  /** The members and the closing brace. */
  function MembersText(ms: seq<Member>): (r: string)
    ensures |r| == |RenderMembers(ms)| + 1
  {
    RenderMembers(ms) + "}"
  }

  /** What stands where in MembersText(ms). */
  lemma MembersSplit(mem: string, at: nat, ms: seq<Member>)
    requires ms != [] && Holds(mem, at, MembersText(ms))
    ensures var after := at + |RenderMember(ms[0])|;
      && Holds(mem, at, RenderMember(ms[0])) && after < |mem|
      && (|ms| == 1 ==> mem[after] == '}' && |MembersText(ms)| == after - at + 1)
      && (|ms| > 1 ==> mem[after] == ',' && Holds(mem, after + 1, MembersText(ms[1..])))
      && (|ms| > 1 ==> |MembersText(ms)| == after - at + 1 + |MembersText(ms[1..])|)
  {
    MembersTextOf(ms);
    hide RenderMember, RenderMembers, MembersText, Holds;
    if |ms| == 1 {
      LastMemberStands(mem, at, RenderMember(ms[0]));
    } else {
      MemberStands(mem, at, RenderMember(ms[0]), MembersText(ms[1..]));
    }
  }

  lemma LastMemberStands(mem: string, at: nat, body: string)
    requires Holds(mem, at, body + "}")
    ensures Holds(mem, at, body) && at + |body| < |mem| && mem[at + |body|] == '}'
  {
    hide Holds;
    HoldsTwo(mem, at, body, "}");
  }

  lemma MemberStands(mem: string, at: nat, body: string, more: string)
    requires Holds(mem, at, body + ("," + more))
    ensures Holds(mem, at, body) && at + |body| < |mem| && mem[at + |body|] == ','
    ensures Holds(mem, at + |body| + 1, more)
  {
    hide Holds;
    HoldsTwo(mem, at, body, "," + more);
    HoldsParts(mem, at + |body|, ",", more);
  }

  lemma MembersTextOf(ms: seq<Member>)
    requires ms != []
    ensures MembersText(ms) == RenderMember(ms[0]) + if |ms| == 1 then "}" else "," + MembersText(ms[1..])
  {
    hide RenderMember;
    var a := RenderMember(ms[0]);
    if |ms| == 1 {
      assert RenderMembers(ms) == a + "";
      hide RenderMembers;
      assert a + "" + "}" == a + "}";
    } else {
      var more := RenderMembers(ms[1..]);
      assert RenderMembers(ms) == a + ("," + more);
      hide RenderMembers;
      assert a + ("," + more) + "}" == a + ("," + (more + "}"));
    }
  }

  lemma {:induction false} MembersRead(mem: string, pos: nat, len: nat, at: nat, ms: seq<Member>,
        members: map<string, Value>)
    requires ms != [] && AreMembers(ms) && pos < at <= |mem| && Holds(mem, at, MembersText(ms))
    requires at - pos + |MembersText(ms)| <= len < UINT32
    ensures ObjectMembers(mem, pos, len, at, members) == Part(Merged(ms, members), at - pos + |MembersText(ms)|)
    decreases ms, 2
  {
    hide Holds, MemberTurn, RenderMember, RenderMembers, MembersText, Inserted, Meaning, IsText, Clean;
    MembersSplit(mem, at, ms);
    MemberReads(mem, pos, len, at, ms[0], members);
    if |ms| == 1 {
      assert ms[1..] == [];
    } else {
      var all := Inserted(members, ms[0].key, Meaning(ms[0].text));
      MembersRead(mem, pos, len, at + |RenderMember(ms[0])| + 1, ms[1..], all);
    }
  }

  /** Completeness: an object of the grammar is decoded to what it means, whatever bytes follow it and
      however many more bytes decode is told there are; the first of several members with one key
      counts and every byte of the text is reported as parsed. */
  lemma {:induction false} ObjectReads(mem: string, pos: nat, len: nat, before: nat, ms: seq<Member>)
    requires ms != [] && AreMembers(ms) && Holds(mem, pos, Spaces(before) + ("{" + RenderMembers(ms) + "}"))
    requires before + |RenderMembers(ms)| + 2 <= len < UINT32
    ensures DecodeObject(mem, pos, len) == Part(Merged(ms, map[]), before + |RenderMembers(ms)| + 2)
    decreases ms, 3
  {
    hide ObjectMembers, SkipSpaces, RenderMembers, Merged, AreMembers;
    assert "{" + RenderMembers(ms) + "}" == "{" + MembersText(ms);
    hide MembersText;
    HoldsParts(mem, pos, Spaces(before), "{" + MembersText(ms));
    HoldsParts(mem, pos + before, "{", MembersText(ms));
    HoldsAt(mem, pos + before, "{", 0);
    SkipsSpaces(mem, pos, before);
    MembersRead(mem, pos, len, pos + before + 1, ms, map[]);
  }
}
