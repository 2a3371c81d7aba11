/** When HttpRequest::parse undoes HttpRequest::encode. */
module HttpRoundTrip {
  import opened CLibrary
  import opened HttpRequest
  import opened HttpText
  import opened Tokenizer
  import opened Wrappers

  // ----- One header

  lemma {:induction false} RFindConcat(a: string, b: string, c: char)
    ensures RFind(a + b, c) == if RFind(b, c) != NPOS then |a| + RFind(b, c) else RFind(a, c)
    decreases |b|
  {
    if b == "" {
      assert a + b == a;
    } else if b[|b| - 1] != c {
      RFindConcat(a, b[..|b| - 1], c);
      assert (a + b)[..|a + b| - 1] == a + b[..|b| - 1];
    }
  }

  /** What the last value of a block is read as: it ends before its last carriage return. */
  function Cut(value: string): string {
    var r := RFind(value, '\r');
    if r == NPOS then value else value[..r]
  }

  /** A header line is read back; the carriage return that ends it does not belong to the value. */
  lemma LineReads(h: Header)
    requires ':' !in h.name.text
    ensures ParseLine(HeaderLine(h) + "\r") == Field(h.name.text, h.value)
    ensures ParseLine(HeaderLine(h)) == Field(h.name.text, Cut(h.value))
  {
    hide ParseLine;
    EndedLineReads(h);
    LastLineReads(h);
  }

  lemma EndedLineReads(h: Header)
    requires ':' !in h.name.text
    ensures ParseLine(HeaderLine(h) + "\r") == Field(h.name.text, h.value)
  {
    hide RFind, Find;
    ColonFound(h, "\r");
    var start := h.name.text + ": ";
    RFindConcat(start + h.value, "\r", '\r');
    OneReturn();
    Between(start, h.value, "\r");
    assert HeaderLine(h) + "\r" == start + h.value + "\r";
  }

  lemma LastLineReads(h: Header)
    requires ':' !in h.name.text
    ensures ParseLine(HeaderLine(h)) == Field(h.name.text, Cut(h.value))
  {
    hide RFind, Find;
    ColonFound(h, "");
    var start := h.name.text + ": ";
    assert HeaderLine(h) + "" == HeaderLine(h) == start + h.value;
    RFindConcat(start, h.value, '\r');
    var r := RFind(h.value, '\r');
    if r == NPOS {
      Between(start, h.value, "");
    } else {
      Between(start, h.value[..r], h.value[r..]);
      assert start + h.value[..r] + h.value[r..] == start + h.value;
    }
  }

  lemma Between(a: string, b: string, c: string)
    ensures (a + b + c)[|a|..|a| + |b|] == b && (a + b)[|a|..] == b
  {
  }

  lemma OneReturn()
    ensures RFind("\r", '\r') == 0
  {
  }

  lemma ColonFound(h: Header, tail: string)
    requires ':' !in h.name.text
    ensures Find(HeaderLine(h) + tail, ':', 0) == |h.name.text|
    ensures (HeaderLine(h) + tail)[..|h.name.text|] == h.name.text
  {
    hide Find;
    assert HeaderLine(h) + tail == h.name.text + [':'] + (" " + h.value + tail);
    FirstDelim(h.name.text, " " + h.value + tail, ':', 0);
  }

  // ----- All headers

  predicate CleanHeader(h: Header) { ':' !in h.name.text && '\n' !in h.name.text && '\n' !in h.value }

  predicate CleanHeaders(headers: seq<Header>) { forall i :: 0 <= i < |headers| ==> CleanHeader(headers[i]) }

  /** The fields parse finds in the lines of some headers. */
  function Found(headers: seq<Header>): (r: seq<(string, string)>)
    ensures |r| == |headers|
  {
    if headers == [] then []
    else
      var h := headers[0];
      [(h.name.text, if |headers| == 1 then Cut(h.value) else h.value)] + Found(headers[1..])
  }

  lemma {:induction false} LinesRead(first: string, headers: seq<Header>)
    requires CleanHeaders(headers)
    ensures ParseLines(LinesOf(first, headers)[1..]) == Fields(Found(headers))
    decreases headers
  {
    hide ParseLine, HeaderLine, Cut;
    var lines := LinesOf(first, headers);
    if headers != [] {
      var h := headers[0];
      LineReads(h);
      LinesRead(HeaderLine(h), headers[1..]);
      assert lines[1..] == LinesOf(HeaderLine(h), headers[1..]);
    }
  }

  lemma {:induction false} LinesAreLines(first: string, headers: seq<Header>)
    requires CleanHeaders(headers) && '\n' !in first
    ensures forall k :: 0 <= k <= |headers| ==> '\n' !in LinesOf(first, headers)[k]
    decreases headers
  {
    if headers != [] {
      LinesAreLines(HeaderLine(headers[0]), headers[1..]);
    }
  }

  /** What is found is what was sent unless a carriage return cuts the last value. */
  lemma {:induction false} FoundIsSent(headers: seq<Header>)
    ensures Found(headers) == Pairs(headers) <==> headers == [] || '\r' !in headers[|headers| - 1].value
  {
    if headers != [] {
      var last := headers[|headers| - 1];
      RFindIs(last.value, '\r');
      if |headers| > 1 {
        FoundIsSent(headers[1..]);
        assert Pairs(headers) == [(headers[0].name.text, headers[0].value)] + Pairs(headers[1..]);
        assert Found(headers)[1..] == Found(headers[1..]);
        assert Pairs(headers)[1..] == Pairs(headers[1..]);
      } else {
        assert Found(headers)[0] == (last.name.text, Cut(last.value));
        assert Pairs(headers)[0] == (last.name.text, last.value);
      }
    }
  }

  // ----- The request line

  predicate CleanPath(path: string) { ' ' !in path && '\n' !in path }

  lemma WordIs(line: string, parts: seq<string>, n: nat)
    requires Split(line, ' ') == parts && n < |parts| && !StartsWith(line, ' ')
    ensures Word(line, n) == parts[n]
  {
    hide Split, After;
    StandsOnPart(line, ' ', n);
    OnPartToken(line, ' ', After(line, ' ', n), n);
  }

  lemma MethodReads(m: Method)
    ensures StringToMethod(MethodToString(m)) == m && IsWord(MethodToString(m))
  {
  }

  lemma JoinThree(a: string, b: string, c: string, delim: char)
    ensures Join([a, b, c], delim) == a + [delim] + b + [delim] + c
  {
    assert [a, b, c][1..] == [b, c] && [b, c][1..] == [c];
    assert Join([b, c], delim) == b + [delim] + c;
  }

  /** A word of the request line: neither ends it nor is cut in it. */
  predicate IsWord(s: string) { ' ' !in s && '\n' !in s && '\r' !in s && s != "" }

  lemma ReturnReads(word: string, tail: string)
    requires '\r' !in word && (tail == "" || tail == "\r")
    ensures UntilReturn(word + tail) == word
  {
    hide Find;
    if tail == "" {
      assert word + tail == word;
      NoDelim(word, '\r', 0);
    } else {
      FirstDelim(word, "", '\r', 0);
      assert word + tail == word + ['\r'] + "";
    }
  }

  lemma RequestLineReads(name: string, path: string, version: string, tail: string)
    requires IsWord(name) && IsWord(version) && CleanPath(path) && (tail == "" || tail == "\r")
    ensures var line := name + " " + path + " " + version + tail;
      Word(line, 0) == name && Word(line, 1) == path && UntilReturn(Word(line, 2)) == version
  {
    hide Split, Word, Join, Find, UntilReturn;
    var last := version + tail;
    var line := name + " " + path + " " + version + tail;
    var parts := [name, path, last];
    ReturnReads(version, tail);
    JoinThree(name, path, last, ' ');
    assert line == name + [' '] + path + [' '] + last;
    SplitOfJoin(parts, ' ');
    WordIs(line, parts, 0);
    WordIs(line, parts, 1);
    WordIs(line, parts, 2);
  }

  /** Zeros after a body make no blank line. */
  lemma NulsKeepEnd(body: string, n: nat)
    ensures KeepsEnd(body + Nuls(n)) <==> KeepsEnd(body)
  {
    var rest := body + Nuls(n);
    assert StartsWithLineEnd(rest) <==> StartsWithLineEnd(body);
    forall k: nat ensures BlankLineAt(rest, k) == BlankLineAt(body, k) {
      if k + 4 <= |body| {
        assert rest[k..k + 4] == body[k..k + 4];
      } else if k + 4 <= |rest| {
        assert rest[k..k + 4][3] == '\0';
      }
    }
  }

  // ----- The round trip

  /** A first line and headers, without the blank line that ends the header block. */
  function Payload(first: string, headers: seq<Header>): string { Join(LinesOf(first, headers), '\n') }

  lemma PayloadThenBody(m: Method, path: string, headers: seq<Header>, body: string)
    ensures var p := Payload(RequestLine(m, path), Sent(headers, body));
      Encoded(m, path, headers, body) == p + BLANK_LINE + body && |Head(m, path, Sent(headers, body))| == |p| + 4
  {
    hide Join, LinesOf, HeaderLines;
    LinesJoined(RequestLine(m, path), Sent(headers, body));
  }

  /** The lines of a header block whose headers are clean, and what is found in them. */
  lemma PayloadReads(first: string, headers: seq<Header>)
    requires first != "" && '\n' !in first && CleanHeaders(headers)
    ensures var p := Payload(first, headers);
      && Split(p, '\n') == LinesOf(first, headers) && p != "" && p[0] == first[0]
      && ParseLines(Split(p, '\n')[1..]) == Fields(Found(headers))
      && Split(p, '\n')[0] == first + if headers == [] then "" else "\r"
  {
    hide Split, Join, ParseLines, HeaderLine;
    LinesAreLines(first, headers);
    SplitOfJoin(LinesOf(first, headers), '\n');
    LinesRead(first, headers);
    assert first + "" == first;
    JoinStarts(LinesOf(first, headers), '\n');
  }

  lemma JoinStarts(parts: seq<string>, delim: char)
    requires parts != [] && parts[0] != ""
    ensures Join(parts, delim) != "" && Join(parts, delim)[0] == parts[0][0]
  {
  }

  /** What parse can find at all: no colon in a name, no line feed in a name or a value. */
  lemma {:induction false} FieldsAreClean(lines: seq<string>)
    requires ParseLines(lines).Fields? && forall k :: 0 <= k < |lines| ==> '\n' !in lines[k]
    ensures forall i :: 0 <= i < |ParseLines(lines).list| ==>
      var (name, value) := ParseLines(lines).list[i];
      ':' !in name && '\n' !in name && '\n' !in value
  {
    if lines != [] {
      FieldsAreClean(lines[1..]);
      FindsFirst(lines[0], ':', 0);
    }
  }

  /** The header block that parse reads back as this request has a clean path and clean headers. */
  lemma ReadBackIsClean(payload: string, path: string, headers: seq<Header>)
    requires var lines := Split(payload, '\n');
      ParseLines(lines[1..]) == Fields(Pairs(headers)) && Word(lines[0], 1) == path
    ensures CleanPath(path) && CleanHeaders(headers)
  {
    hide Split, Find, After, ParseLines, Token;
    var lines := Split(payload, '\n');
    SplitIsRight(payload, '\n');
    TokenIsClean(lines[0], ' ', 1);
    TokenIsPart(lines[0], ' ', 1, '\n');
    FieldsAreClean(lines[1..]);
    forall i | 0 <= i < |headers| ensures CleanHeader(headers[i]) {
      assert Pairs(headers)[i] == (headers[i].name.text, headers[i].value);
    }
  }

  lemma {:induction false} DecimalIsClean(n: nat)
    ensures forall i :: 0 <= i < |Decimal(n)| ==> Decimal(n)[i] != '\n' && Decimal(n)[i] != '\r'
  {
    DecimalDigits(n);
  }

  /** The requests that survive: no space and no line feed in the path, no colon and no line feed in a
      name, no line feed in a value, no carriage return in the last value before an empty body, and no
      blank line in the body or across its start. */
  predicate Survives(path: string, headers: seq<Header>, body: string) {
    && CleanPath(path) && CleanHeaders(headers) && KeepsEnd(body)
    && (body == "" && headers != [] ==> '\r' !in headers[|headers| - 1].value)
  }

  lemma SentIsClean(headers: seq<Header>, body: string)
    ensures CleanHeaders(Sent(headers, body)) <==> CleanHeaders(headers)
    ensures body != "" ==> '\r' !in Sent(headers, body)[|Sent(headers, body)| - 1].value
  {
    DecimalIsClean(|body|);
    if body != "" && CleanHeaders(Sent(headers, body)) {
      forall i | 0 <= i < |headers| ensures CleanHeader(headers[i]) {
        assert Sent(headers, body)[i] == headers[i];
      }
    }
  }

  /** What parse makes of a header block and whatever follows it, for any method name and version. */
  lemma BlockParsesBack(name: string, path: string, version: string, hs: seq<Header>, rest: string)
    requires IsWord(name) && IsWord(version)
    ensures var payload := Payload(name + " " + path + " " + version, hs);
      var fields := Pairs(hs);
      Parse(payload + BLANK_LINE + rest)
      == Parsed(StringToMethod(name), path, VersionFromString(version), fields, Upgrades(fields), |payload| + 4)
      <==> CleanPath(path) && CleanHeaders(hs) && KeepsEnd(rest) && (hs != [] ==> '\r' !in hs[|hs| - 1].value)
  {
    hide Split, Find, Word, ParseLines, Payload, HeaderEnd, KeepsEnd, CleanPath, CleanHeaders, Pairs, Upgrades;
    hide UntilReturn, StringToMethod, VersionFromString;
    var first := name + " " + path + " " + version;
    var payload := Payload(first, hs);
    EndsThere(payload, rest);
    assert (payload + BLANK_LINE + rest)[..|payload|] == payload;
    var lines := Split(payload, '\n');
    if CleanPath(path) && CleanHeaders(hs) {
      FirstLineClean(name, path, version);
      PayloadReads(first, hs);
      RequestLineReads(name, path, version, if hs == [] then "" else "\r");
      FoundIsSent(hs);
    } else if ParseLines(lines[1..]) == Fields(Pairs(hs)) && Word(lines[0], 1) == path {
      ReadBackIsClean(payload, path, hs);
    }
  }

  lemma FirstLineClean(name: string, path: string, version: string)
    requires IsWord(name) && IsWord(version) && CleanPath(path)
    ensures var first := name + " " + path + " " + version;
      first != "" && '\n' !in first && first[0] == name[0] && first[0] != '\n'
  {
  }

  /** What a caller of parse gets back from the buffer encode returned: nothing where encode wrote
      beyond that buffer. */
  function ParsedBack(m: Method, path: string, headers: seq<Header>, body: string): Option<Parsed> {
    match EncodedBuffer(m, path, headers, body)
    case None => None
    case Some(buffer) => Some(Parse(buffer))
  }

  /** parse on the buffer of encode gives back the method, the path, HTTP/1.1 and every name and value in
      order, the length of a body that is not empty last, and reports the length of the header block,
      exactly for the requests that survive and whose custom names are together no longer than their
      values. */
  lemma ParseUndoesEncode(m: Method, path: string, headers: seq<Header>, body: string)
    ensures var fields := Pairs(Sent(headers, body));
      var length := |Head(m, path, Sent(headers, body))|;
      ParsedBack(m, path, headers, body) == Some(Parsed(m, path, Http1_1, fields, Upgrades(fields), length))
      <==> Survives(path, headers, body) && Excess(headers) <= 0
  {
    hide Encoded, EncodedLength, Excess, Payload, Head, Parse, KeepsEnd, CleanPath, CleanHeaders, Sent, Pairs, Upgrades;
    hide StringToMethod, MethodToString;
    EncodingFills(m, path, headers, body);
    MethodReads(m);
    if Excess(headers) <= 0 {
      var hs := Sent(headers, body);
      var nuls := Nuls(-Excess(headers));
      var payload := Payload(RequestLine(m, path), hs);
      PayloadThenBody(m, path, headers, body);
      assert payload + BLANK_LINE + body + nuls == payload + BLANK_LINE + (body + nuls);
      assert RequestLine(m, path) == MethodToString(m) + " " + path + " " + "HTTP/1.1";
      BlockParsesBack(MethodToString(m), path, "HTTP/1.1", hs, body + nuls);
      NulsKeepEnd(body, -Excess(headers));
      SentIsClean(headers, body);
      SentWithoutBody(headers);
    }
  }

  lemma SentWithoutBody(headers: seq<Header>)
    ensures Sent(headers, "") == headers
  {
  }

  /** A body without a carriage return keeps the end of the header block. */
  lemma BodyWithoutReturn(body: string)
    requires '\r' !in body
    ensures KeepsEnd(body)
  {
    assert !StartsWithLineEnd(body);
    forall k: nat | k < |body| ensures !BlankLineAt(body, k) {
      FirstOfBlankLine(body, k);
    }
  }

  /** One custom header with a name longer than its value: the request survives as text, but encode
      writes beyond its buffer. */
  lemma LongNameOverruns()
    ensures var headers := [Header(Custom("X-Request-Id"), "7")];
      Survives("/", headers, "") && Excess(headers) == 11 && ParsedBack(Get, "/", headers, "") == None
  {
    var headers := [Header(Custom("X-Request-Id"), "7")];
    assert headers[1..] == [];
    assert Excess(headers) == 11;
    EncodingFills(Get, "/", headers, "");
    hide Encoded, EncodedLength;
  }
}
