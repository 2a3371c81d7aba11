/** HTTP/1.1 messages as RFC 9110 and RFC 9112 write them, and what encode, parse and build make of them. */
module HttpWire {
  import opened CLibrary
  import opened HttpRequest
  import opened HttpRoundTrip
  import opened HttpText
  import opened Tokenizer
  import opened Wrappers
  import Response = HttpResponse

  // ----- Sections 2.1 and 5 of RFC 9112: a first line, field lines, an empty line

  function FieldLines(fields: seq<(string, string)>): string {
    if fields == [] then "" else fields[0].0 + ": " + fields[0].1 + "\r\n" + FieldLines(fields[1..])
  }

  function Wire(first: string, fields: seq<(string, string)>): string {
    first + "\r\n" + FieldLines(fields) + "\r\n"
  }

  /** Section 9.1 of RFC 9110: the names of the methods the code knows, and any other name. */
  predicate IsMethod(m: Method, name: string) {
    match m
    case Get => name == "GET"
    case Post => name == "POST"
    case Put => name == "PUT"
    case Delete => name == "DELETE"
    case UndefinedMethod => name !in {"GET", "POST", "PUT", "DELETE"}
  }

  /** Section 2.3 of RFC 9112: the version texts the code knows, and any other. */
  predicate IsVersion(v: Version, text: string) {
    match v
    case Http1_0 => text == "HTTP/1.0"
    case Http1_1 => text == "HTTP/1.1"
    case Http2 => text == "HTTP/2"
    case UndefinedVersion => text !in {"HTTP/1.0", "HTTP/1.1", "HTTP/2"}
  }

  predicate CleanFields(fields: seq<(string, string)>) {
    forall i :: 0 <= i < |fields| ==> ':' !in fields[i].0 && '\n' !in fields[i].0 && '\n' !in fields[i].1
  }

  /** No carriage return in the last value, which no line end follows. */
  predicate LastIsClean(fields: seq<(string, string)>) { fields != [] ==> '\r' !in fields[|fields| - 1].1 }

  // ----- Requests

  lemma {:induction false} LinesAreFields(headers: seq<Header>)
    ensures HeaderLines(headers) == FieldLines(Pairs(headers))
  {
    if headers != [] {
      LinesAreFields(headers[1..]);
      assert Pairs(headers)[1..] == Pairs(headers[1..]);
    }
  }

  /** The length of a body that is not empty. */
  function LengthField(body: string): seq<(string, string)> {
    if body == "" then [] else [("content-length", Decimal(|body|))]
  }

  /** What encode writes: the method by its name, the path, HTTP/1.1, every header as a field line in order, the
      length of a body that is not empty, an empty line and the body. */
  lemma EncodingIsWire(m: Method, name: string, path: string, headers: seq<Header>, body: string)
    requires IsMethod(m, name) && m != UndefinedMethod
    ensures Encoded(m, path, headers, body)
         == Wire(name + " " + path + " HTTP/1.1", Pairs(headers) + LengthField(body)) + body
  {
    hide HeaderLines, FieldLines, Decimal;
    var sent := Sent(headers, body);
    LinesAreFields(sent);
    assert Pairs(sent) == Pairs(headers) + LengthField(body);
    assert RequestLine(m, path) == name + " " + path + " HTTP/1.1";
  }

  function Customs(fields: seq<(string, string)>): (headers: seq<Header>)
    ensures |headers| == |fields|
  {
    seq(|fields|, i requires 0 <= i < |fields| => Header(Custom(fields[i].0), fields[i].1))
  }

  lemma WireOfFields(first: string, fields: seq<(string, string)>)
    ensures Wire(first, fields) == Payload(first, Customs(fields)) + BLANK_LINE && Pairs(Customs(fields)) == fields
    ensures CleanHeaders(Customs(fields)) <==> CleanFields(fields)
  {
    var headers := Customs(fields);
    assert Pairs(headers) == fields;
    LinesAreFields(headers);
    LinesJoined(first, headers);
    if CleanHeaders(headers) {
      forall i | 0 <= i < |fields|
        ensures ':' !in fields[i].0 && '\n' !in fields[i].0 && '\n' !in fields[i].1
      {
        assert CleanHeader(headers[i]);
      }
    }
  }

  /** What parse makes of a request and whatever follows its header block: the method of that name, the path, the
      version of that text, every field in order, the upgrade to h2c if one asks for it, and the length of the
      header block, exactly for clean paths and fields and when what follows keeps the end. */
  lemma WireIsParsed(m: Method, name: string, path: string, v: Version, version: string,
        fields: seq<(string, string)>, rest: string)
    requires IsMethod(m, name) && IsVersion(v, version) && IsWord(name) && IsWord(version)
    ensures var head := Wire(name + " " + path + " " + version, fields);
      Parse(head + rest) == Parsed(m, path, v, fields, ("Upgrade", "h2c") in fields, |head|)
      <==> CleanPath(path) && CleanFields(fields) && KeepsEnd(rest) && LastIsClean(fields)
  {
    hide Parse, KeepsEnd, Payload, Wire, CleanPath, CleanHeaders, CleanFields, Pairs;
    WireOfFields(name + " " + path + " " + version, fields);
    BlockParsesBack(name, path, version, Customs(fields), rest);
  }

  /** Whatever the rest of the buffer is, the word before the first space names the method. */
  lemma FirstWordDecides(buffer: string, m: Method, name: string)
    requires IsMethod(m, name) && IsWord(name) && name + " " <= buffer && Parse(buffer).Parsed?
    ensures Parse(buffer).verb == m
  {
    hide Split, ParseLines, Word, HeaderEnd;
    var end := HeaderEnd(buffer);
    EndIsAfter(buffer, name, end);
    var payload := buffer[..end];
    FirstWordOf(payload, name);
  }

  lemma EndIsAfter(buffer: string, name: string, end: int)
    requires IsWord(name) && name + " " <= buffer && end == HeaderEnd(buffer) && end != NPOS
    ensures end > |name| && name + " " <= buffer[..end]
  {
    FindsLast(buffer, |buffer|);
    FirstOfBlankLine(buffer, end);
    assert buffer[..|name|] == name && buffer[|name|] == ' ';
  }

  lemma FirstWordOf(payload: string, name: string)
    requires IsWord(name) && name + " " <= payload
    ensures Split(payload, '\n') != [] && Word(Split(payload, '\n')[0], 0) == name && !StartsWith(payload, '\n')
  {
    hide Split, Find;
    SplitIsRight(payload, '\n');
    var line := Split(payload, '\n')[0];
    JoinBegins(Split(payload, '\n'), '\n');
    assert forall k :: 0 <= k <= |name| ==> payload[k] == (name + " ")[k] && payload[k] != '\n';
    assert name + " " <= line;
    var after := line[|name| + 1..];
    assert line == name + [' '] + after;
    FirstDelim(name, after, ' ', 0);
    assert line[..|name|] == name;
    FirstToken(line, ' ');
  }

  lemma JoinBegins(parts: seq<string>, delim: char)
    requires parts != []
    ensures parts[0] <= Join(parts, delim)
    ensures |parts[0]| < |Join(parts, delim)| ==> Join(parts, delim)[|parts[0]|] == delim
  {
  }

  lemma FirstToken(line: string, delim: char)
    requires Find(line, delim, 0) != NPOS
    ensures Word(line, 0) == Token(line, After(line, ' ', 0))
    ensures delim == ' ' ==> Word(line, 0) == line[..Find(line, delim, 0)]
  {
  }

  // ----- Field lines with other white space (section 5.1 of RFC 9112)

  predicate IsOws(s: string) { forall i :: 0 <= i < |s| ==> s[i] == ' ' || s[i] == '\t' }

  /** A field line is read as its name and value exactly with one blank after the colon, or with none where the
      value is empty. */
  lemma OneBlankIsRead(name: string, ows: string, value: string)
    requires ':' !in name && IsOws(ows) && '\r' !in value
    requires value == "" || (value[0] != ' ' && value[0] != '\t')
    ensures ParseLine(name + ":" + ows + value + "\r") == Field(name, value)
      <==> |ows| == 1 || (ows == "" && value == "")
  {
    hide Find, RFind;
    var line := name + ":" + ows + value + "\r";
    assert line == name + [':'] + (ows + value + "\r");
    FirstDelim(name, ows + value + "\r", ':', 0);
    RFindConcat(name + ":" + ows + value, "\r", '\r');
    OneReturn();
    assert line[..|name|] == name;
    if ows == "" {
      if value != "" {
        assert |value| >= 1 && line[|name| + 2..|line| - 1] == value[1..];
      } else {
        assert line[|name| + 2..] == "";
      }
    } else {
      assert line[|name| + 2..|line| - 1] == ows[1..] + value;
      assert |ows| == 1 ==> ows[1..] + value == value;
    }
  }

  // ----- Responses

  /** A field of a response: its content length, by the number, or any other. */
  datatype WireField = Plain(name: string, value: string) | Length(name: string, n: nat)

  const CONTENT_LENGTH := "content-length"

  predicate FineField(f: WireField) {
    && ':' !in f.name && '\n' !in f.name
    && match f
       case Plain(name, value) => '\n' !in value && Response.Lower(name) != CONTENT_LENGTH
       case Length(name, n) => Response.Lower(name) == CONTENT_LENGTH && n <= 0x7FFF_FFFF
  }

  predicate FineFields(fs: seq<WireField>) { forall i :: 0 <= i < |fs| ==> FineField(fs[i]) }

  function ValueOf(f: WireField): string { if f.Plain? then f.value else Decimal(f.n) }

  function PairsOf(fs: seq<WireField>): (r: seq<(string, string)>)
    ensures |r| == |fs|
  {
    seq(|fs|, i requires 0 <= i < |fs| => (fs[i].name, ValueOf(fs[i])))
  }

  /** The number of the last content length, and what was there before if there is none. */
  function LastLength(fs: seq<WireField>, before: nat): nat {
    if fs == [] then before else LastLength(fs[1..], if fs[0].Length? then fs[0].n else before)
  }

  /** The headers stored: each name, known or not, with its value. */
  function Stored(fs: seq<WireField>): (r: seq<Header>)
    ensures |r| == |fs|
  {
    seq(|fs|, i requires 0 <= i < |fs| => Header(Response.HeaderName(fs[i].name), ValueOf(fs[i])))
  }

  /** What stands before the first space. */
  function FirstWord(s: string): string {
    if s == "" || s[0] == ' ' then "" else [s[0]] + FirstWord(s[1..])
  }

  /** A name is stored in lower case if it is one of the known ones, and otherwise as it is. */
  lemma StoredName(name: string)
    ensures var stored := Response.HeaderName(name);
      && Response.Lower(stored.text) == Response.Lower(name) && (stored.Custom? ==> stored.text == name)
      && (stored.Known? <==> Response.Lower(name) in Response.HEADER_NAMES)
  {
  }

  /** Lower case is that of the ASCII letters. */
  lemma LowerIsAscii(i: nat, c: char)
    requires i < 26
    ensures Response.LowerChar("ABCDEFGHIJKLMNOPQRSTUVWXYZ"[i]) == "abcdefghijklmnopqrstuvwxyz"[i]
    ensures c !in "ABCDEFGHIJKLMNOPQRSTUVWXYZ" ==> Response.LowerChar(c) == c
  {
    var upper := "ABCDEFGHIJKLMNOPQRSTUVWXYZ";
    if 'A' <= c <= 'Z' {
      assert upper[c as int - 'A' as int] == c;
    }
  }

  lemma DecimalRead(n: nat)
    ensures Atoi(Decimal(n)) == n
  {
    DecimalDigits(n);
  }

  lemma LastValueKept(f: WireField)
    requires '\r' !in ValueOf(f)
    ensures Cut(ValueOf(f)) == ValueOf(f)
  {
    RFindIs(ValueOf(f), '\r');
  }

  /** One field line, ended by a carriage return or the last one. */
  lemma FieldReads(f: WireField, tail: string)
    requires FineField(f) && (tail == "\r" || (tail == "" && '\r' !in ValueOf(f)))
    ensures ParseLine(f.name + ": " + ValueOf(f) + tail) == Field(f.name, ValueOf(f))
  {
    hide ParseLine, Cut;
    var h := Header(Custom(f.name), ValueOf(f));
    LineReads(h);
    assert HeaderLine(h) + tail == f.name + ": " + ValueOf(f) + tail;
    if tail == "" {
      assert HeaderLine(h) + "" == HeaderLine(h);
      LastValueKept(f);
    }
  }

  lemma LineStored(f: WireField, line: string, rest: seq<string>, before: nat)
    requires FineField(f) && ParseLine(line) == Field(f.name, ValueOf(f))
    ensures Response.ReadLines([line] + rest, before)
      == Response.Prepended([Header(Response.HeaderName(f.name), ValueOf(f))],
                            Response.ReadLines(rest, if f.Length? then f.n else before))
  {
    hide ParseLine, Atoi, Response.HEADER_NAMES, Decimal;
    assert ([line] + rest)[0] == line && ([line] + rest)[1..] == rest;
    LengthIsKnown();
    if f.Length? {
      DecimalRead(f.n);
    }
  }

  lemma LengthIsKnown()
    ensures CONTENT_LENGTH in Response.HEADER_NAMES
  {
  }

  /** The lines after the first, in order. */
  lemma {:induction false} LinesStored(first: string, fs: seq<WireField>, before: nat)
    requires FineFields(fs) && (fs != [] ==> '\r' !in ValueOf(fs[|fs| - 1]))
    ensures Response.ReadLines(LinesOf(first, Customs(PairsOf(fs)))[1..], before)
      == Response.Lines(Stored(fs), LastLength(fs, before))
    decreases |fs|
  {
    hide ParseLine, FineField, ValueOf, Response.HeaderName;
    var headers := Customs(PairsOf(fs));
    var lines := LinesOf(first, headers);
    if fs == [] {
      assert lines[1..] == [];
    } else {
      var f, more := fs[0], fs[1..];
      var line := HeaderLine(headers[0]);
      var tail := if |fs| == 1 then "" else "\r";
      var rest := LinesOf(line, headers[1..]);
      assert headers[1..] == Customs(PairsOf(more));
      assert lines[1..] == rest;
      assert rest[0] == line + tail;
      assert rest == [line + tail] + rest[1..];
      assert line == f.name + ": " + ValueOf(f);
      FieldReads(f, tail);
      LineStored(f, line + tail, rest[1..], before);
      LinesStored(line, more, if f.Length? then f.n else before);
      assert Stored(fs) == [Header(Response.HeaderName(f.name), ValueOf(f))] + Stored(more);
    }
  }

  // ----- The status line

  lemma {:induction false} FirstWordSplits(s: string)
    ensures Split(s, ' ') != [] && Split(s, ' ')[0] == FirstWord(s)
    decreases |s|
  {
    FirstSpace(s, 0);
    SplitOnce(s, ' ');
    hide Split, Find;
  }

  lemma {:induction false} FirstSpace(s: string, from: nat)
    requires from <= |s|
    ensures var f := Find(s, ' ', from);
      FirstWord(s[from..]) == s[from..if f == NPOS then |s| else f] && (f == NPOS || from <= f < |s|)
    decreases |s| - from
  {
    if from < |s| && s[from] != ' ' {
      FirstSpace(s, from + 1);
      assert s[from..][1..] == s[from + 1..];
    }
  }

  lemma {:induction false} FirstWordEnds(s: string, tail: string)
    requires '\r' !in s && (tail == "" || tail == "\r")
    ensures UntilReturn(FirstWord(s + tail)) == FirstWord(s)
  {
    hide UntilReturn;
    FirstWordOfTwo(s, tail);
    ReturnReads(FirstWord(s), if ' ' in s then "" else tail);
    assert FirstWord(s) + "" == FirstWord(s);
  }

  lemma {:induction false} FirstWordOfTwo(s: string, tail: string)
    requires '\r' !in s && (tail == "" || tail == "\r")
    ensures FirstWord(s + tail) == FirstWord(s) + if ' ' in s then "" else tail
    ensures '\r' !in FirstWord(s)
  {
    if s == "" {
      assert s + tail == tail && tail[..] == tail;
    } else if s[0] != ' ' {
      assert (s + tail)[1..] == s[1..] + tail;
      FirstWordOfTwo(s[1..], tail);
      assert s == [s[0]] + s[1..];
    }
  }

  /** The words of a status line: the version, and the first word of the reason phrase. */
  lemma StatusLineReads(version: string, code: string, phrase: string, tail: string)
    requires IsWord(version) && IsWord(code) && '\r' !in phrase && (tail == "" || tail == "\r")
    ensures var line := version + " " + code + " " + phrase + tail;
      Word(line, 0) == version && UntilReturn(Word(line, 2)) == FirstWord(phrase)
  {
    hide Split, Word, Join, Find, UntilReturn, FirstWord;
    var last := phrase + tail;
    var line := version + " " + code + " " + phrase + tail;
    var parts := [version, code] + Split(last, ' ');
    SplitIsRight(last, ' ');
    JoinTwoMore(version, code, Split(last, ' '), ' ');
    assert line == version + [' '] + code + [' '] + last;
    SplitOfJoin(parts, ' ');
    WordIs(line, parts, 0);
    WordIs(line, parts, 2);
    FirstWordSplits(last);
    FirstWordEnds(phrase, tail);
  }

  lemma JoinTwoMore(a: string, b: string, parts: seq<string>, delim: char)
    requires parts != []
    ensures Join([a, b] + parts, delim) == a + [delim] + b + [delim] + Join(parts, delim)
  {
    var all := [a, b] + parts;
    assert all[1..] == [b] + parts && all[1..][1..] == parts;
    assert Join(all[1..], delim) == b + [delim] + Join(parts, delim);
  }

  lemma VersionIsRead(v: Version, text: string)
    requires IsVersion(v, text)
    ensures VersionFromString(text) == v
  {
  }

  function StatusLine(version: string, code: string, phrase: string): string { version + " " + code + " " + phrase }

  /** The header block build finds in a response head: the version of that text, the first word of the reason
      phrase, every field with its name and its value in order, and the last content length. */
  function BlockOf(v: Version, phrase: string, fs: seq<WireField>): Response.Block {
    Response.Block(v, FirstWord(phrase), Stored(fs), LastLength(fs, 0))
  }

  lemma HeadIsRead(v: Version, version: string, code: string, phrase: string, fs: seq<WireField>)
    requires IsVersion(v, version) && IsWord(version) && IsWord(code) && '\r' !in phrase && '\n' !in phrase
    requires FineFields(fs) && (fs != [] ==> '\r' !in ValueOf(fs[|fs| - 1]))
    ensures var payload := Payload(StatusLine(version, code, phrase), Customs(PairsOf(fs)));
      Response.ReadBlock(payload) == BlockOf(v, phrase, fs)
  {
    hide Split, Word, UntilReturn, FirstWord, Payload, VersionFromString, Response.ReadLines;
    var first, headers := StatusLine(version, code, phrase), Customs(PairsOf(fs));
    FineIsClean(fs);
    PayloadReads(first, headers);
    LinesStored(first, fs, 0);
    StatusLineReads(version, code, phrase, if headers == [] then "" else "\r");
    assert version + " " + code + " " + phrase + "" == first;
    VersionIsRead(v, version);
  }

  lemma FineIsClean(fs: seq<WireField>)
    requires FineFields(fs)
    ensures CleanHeaders(Customs(PairsOf(fs)))
  {
    forall i | 0 <= i < |fs|
      ensures CleanHeader(Customs(PairsOf(fs))[i])
    {
      assert FineField(fs[i]);
      if fs[i].Length? {
        DecimalIsClean(fs[i].n);
      }
    }
  }

  /** A response of the standard's form, cut anywhere after its header block: build reads its version, the first
      word of its reason phrase, its fields in order and the body up to the last content length, and nothing else,
      exactly when what follows the header block in the first buffer keeps the end of that block. */
  lemma ResponseIsRead(r: Response.Response, v: Version, version: string, code: string, phrase: string,
        fs: seq<WireField>, tail: string, rest: seq<string>)
    requires r.state == Response.WaitingOnHeaders && r.body == ""
    requires IsVersion(v, version) && IsWord(version) && IsWord(code) && '\r' !in phrase && '\n' !in phrase
    requires FineFields(fs) && (fs != [] ==> '\r' !in ValueOf(fs[|fs| - 1]))
    ensures var head := Wire(StatusLine(version, code, phrase), PairsOf(fs));
      Response.ReadsAs(Response.Feed(r, [head + tail] + rest), BlockOf(v, phrase, fs), r.headers, |head| - 4,
                       tail + Response.Concat(rest))
      <==> KeepsEnd(tail)
  {
    hide Response.ReadBlock, Response.Feed, Response.Concat, Payload, Wire, BlankLineAt, KeepsEnd, FineFields, Customs;
    var first := StatusLine(version, code, phrase);
    var payload := Payload(first, Customs(PairsOf(fs)));
    WireOfFields(first, PairsOf(fs));
    HeadIsRead(v, version, code, phrase, fs);
    BlankLineThere(payload, tail);
    NoneLater(payload, tail);
    var buffer := payload + BLANK_LINE + tail;
    assert buffer[..|payload|] == payload && buffer[|payload| + 4..] == tail;
    Response.WholeHeadersRead(r, buffer, |payload|, rest);
  }
}
