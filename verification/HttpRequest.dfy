/** The HTTP/1.1 request of http/fwoop_httprequest.cpp: its printer, its parser, and when one undoes the
    other. */
module HttpRequest {
  import opened CLibrary
  import opened HttpText
  import opened Tokenizer
  import opened Wrappers

  datatype Method = UndefinedMethod | Get | Post | Put | Delete

  function MethodToString(m: Method): string {
    match m
    case Get => "GET"
    case Post => "POST"
    case Put => "PUT"
    case Delete => "DELETE"
    case UndefinedMethod => "Undefined"
  }

  function StringToMethod(s: string): Method {
    if s == "GET" then Get
    else if s == "POST" then Post
    else if s == "PUT" then Put
    else if s == "DELETE" then Delete
    else UndefinedMethod
  }

  // ----- encode

  /** The headers encode writes: those of the request, and the length of a body that is not empty. */
  function Sent(headers: seq<Header>, body: string): seq<Header> {
    if body == "" then headers else headers + [Header(Known("content-length"), Decimal(|body|))]
  }

  /** The length encode computes for the headers; a custom name counts with the length of its value. */
  function HeadersLength(headers: seq<Header>): nat {
    if headers == [] then 0
    else
      var h := headers[0];
      (if h.name.Known? then |h.name.text| else |h.value|) + 2 + |h.value| + 2 + HeadersLength(headers[1..])
  }

  function EncodedLength(m: Method, path: string, headers: seq<Header>, body: string): nat {
    |MethodToString(m)| + 1 + |path| + 1 + |"HTTP/1.1"| + 2 + |body| + HeadersLength(Sent(headers, body)) + 2
  }

  function HeaderLine(h: Header): string { h.name.text + ": " + h.value }

  function HeaderLines(headers: seq<Header>): string {
    if headers == [] then "" else HeaderLine(headers[0]) + "\r\n" + HeaderLines(headers[1..])
  }

  function RequestLine(m: Method, path: string): string { MethodToString(m) + " " + path + " HTTP/1.1" }

  /** Everything before the body. */
  function Head(m: Method, path: string, headers: seq<Header>): string {
    RequestLine(m, path) + "\r\n" + HeaderLines(headers) + "\r\n"
  }

  function Encoded(m: Method, path: string, headers: seq<Header>, body: string): string {
    Head(m, path, Sent(headers, body)) + body
  }

  /** What memset leaves in a buffer. */
  function Nuls(n: nat): (s: string)
    ensures |s| == n && forall i :: 0 <= i < n ==> s[i] == '\0'
  {
    seq(n, _ => '\0')
  }

  /** The buffer encode returns: the text and the zeros after it, or none where the text does not fit
      the computed length. */
  function EncodedBuffer(m: Method, path: string, headers: seq<Header>, body: string): Option<string> {
    var text, length := Encoded(m, path, headers, body), EncodedLength(m, path, headers, body);
    if |text| > length then None else Some(text + Nuls(length - |text|))
  }

  // ----- parse

  /** What parse sees in a header block. */
  datatype Parsed =
    | NoEnd
    | Hangs
    | Thrown
    | Parsed(verb: Method, path: string, version: Version, fields: seq<(string, string)>, canUpgrade: bool,
             bytesParsed: nat)

  predicate Upgrades(fields: seq<(string, string)>) { ("Upgrade", "h2c") in fields }

  function Parse(buffer: string): Parsed {
    var end := HeaderEnd(buffer);
    if end == NPOS then NoEnd
    else if StartsWith(buffer[..end], '\n') then Hangs
    else
      var lines := Split(buffer[..end], '\n');
      match ParseLines(lines[1..])
      case Throws => Thrown
      case Fields(list) =>
        var line := lines[0];
        var version := VersionFromString(UntilReturn(Word(line, 2)));
        Parsed(StringToMethod(Word(line, 0)), Word(line, 1), version, list, Upgrades(list), end + 4)
  }

  // ----- The class

  class HttpRequest {
    var d_method: Method
    var d_path: string
    var d_version: Version
    var d_headers: seq<Header>
    var d_canUpgrade: bool
    var d_body: string

    constructor ()
      ensures d_method == UndefinedMethod && d_path == "" && d_version == UndefinedVersion && d_headers == []
      ensures !d_canUpgrade && d_body == ""
    {
      d_method, d_path, d_version := UndefinedMethod, "", UndefinedVersion;
      d_headers, d_canUpgrade, d_body := [], false, "";
    }

    /** What was parsed into this request. */
    function Seen(bytesParsed: nat): Parsed
      reads this
    {
      Parsed(d_method, d_path, d_version, Pairs(d_headers), d_canUpgrade, bytesParsed)
    }

    /** encode; a fault is a write beyond the length computed. */
    method Encode() returns (fault: bool, encoding: array<char>, length: nat)
      ensures length == EncodedLength(d_method, d_path, d_headers, d_body) == encoding.Length
      ensures match EncodedBuffer(d_method, d_path, d_headers, d_body)
        case None => fault
        case Some(buffer) => !fault && encoding[..] == buffer
    {
      hide RequestLine, HeadersLength, HeaderLines, Encoded, EncodedLength, Sent;
      var headers := Sent(d_headers, d_body);
      length := EncodedLength(d_method, d_path, d_headers, d_body);
      encoding := new char[length](_ => '\0');
      EncodedInParts(d_method, d_path, d_headers, d_body);
      var fits, end := PutParts(encoding, RequestLine(d_method, d_path) + "\r\n", headers, "\r\n" + d_body);
      fault := !fits;
      if fits {
        assert encoding[..] == encoding[..end] + Nuls(length - end);
      }
    }

    /** The three parts of the text, one after the other. */
    static method PutParts(encoding: array<char>, line: string, headers: seq<Header>, tail: string)
      returns (fits: bool, end: nat)
      modifies encoding
      ensures fits <==> |line + HeaderLines(headers) + tail| <= encoding.Length
      ensures fits ==> end <= encoding.Length && encoding[..end] == line + HeaderLines(headers) + tail
      ensures fits ==> forall k :: end <= k < encoding.Length ==> encoding[k] == old(encoding[k])
    {
      hide HeaderLines;
      fits, end := Put(encoding, 0, line);
      if fits {
        fits, end := PutHeaders(encoding, end, headers);
      }
      if fits {
        fits, end := Put(encoding, end, tail);
      }
    }

    /** The loop that writes the headers. */
    static method PutHeaders(encoding: array<char>, offset: nat, headers: seq<Header>) returns (fits: bool, end: nat)
      requires offset <= encoding.Length
      modifies encoding
      ensures end <= offset + |HeaderLines(headers)|
      ensures fits <==> offset + |HeaderLines(headers)| <= encoding.Length
      ensures fits ==> end == offset + |HeaderLines(headers)|
      ensures fits ==> encoding[..end] == old(encoding[..offset]) + HeaderLines(headers)
      ensures fits ==> forall k :: end <= k < encoding.Length ==> encoding[k] == old(encoding[k])
    {
      hide HeaderLine, HeaderLines;
      ghost var before := encoding[..offset];
      fits, end := true, offset;
      var i := 0;
      assert headers[0..] == headers;
      while fits && i < |headers|
        modifies encoding
        invariant 0 <= i <= |headers| && offset <= end
        invariant end + |HeaderLines(headers[i..])| == offset + |HeaderLines(headers)|
        invariant fits ==> end <= encoding.Length
        invariant fits ==> encoding[..end] + HeaderLines(headers[i..]) == before + HeaderLines(headers)
        invariant fits ==> forall k :: end <= k < encoding.Length ==> encoding[k] == old(encoding[k])
        invariant !fits ==> end > encoding.Length
      {
        assert headers[i..][1..] == headers[i + 1..];
        LinesStep(headers[i..], encoding[..end]);
        fits, end := Put(encoding, end, HeaderLine(headers[i]) + "\r\n");
        i := i + 1;
      }
      if fits {
        NoHeadersLeft(headers);
      }
    }

    /** memcpy into the encoding, as far as it is a write within it */
    static method Put(encoding: array<char>, offset: nat, s: string) returns (fits: bool, end: nat)
      requires offset <= encoding.Length
      modifies encoding
      ensures end == offset + |s| && (fits <==> end <= encoding.Length)
      ensures fits ==> encoding[..end] == old(encoding[..offset]) + s
      ensures fits ==> forall k :: end <= k < encoding.Length ==> encoding[k] == old(encoding[k])
    {
      end := offset + |s|;
      fits := end <= encoding.Length;
      if fits {
        forall i | 0 <= i < |s| {
          encoding[offset + i] := s[i];
        }
      }
    }

    /** The three words of the request line. */
    method ParseRequestLine(line: string)
      modifies this
      ensures d_method == StringToMethod(Word(line, 0)) && d_path == Word(line, 1)
      ensures d_version == VersionFromString(UntilReturn(Word(line, 2)))
      ensures d_headers == old(d_headers) && d_canUpgrade == old(d_canUpgrade) && d_body == old(d_body)
    {
      var rlItr := new Iterator(line, ' ');
      d_method := StringToMethod(rlItr.Current());
      rlItr.Advance();
      d_path := rlItr.Current();
      rlItr.Advance();
      d_version := VersionFromString(UntilReturn(rlItr.Current()));
    }

    /** The body of the loop over the header lines. */
    method ParseHeaderLine(line: string) returns (fine: bool)
      modifies `d_headers, `d_canUpgrade
      ensures match ParseLine(line)
        case OutOfRange => !fine
        case NoColon => fine && d_headers == old(d_headers) && d_canUpgrade == old(d_canUpgrade)
        case Field(name, value) =>
          && fine && d_headers == old(d_headers) + [Header(Custom(name), value)]
          && d_canUpgrade == (old(d_canUpgrade) || (name == "Upgrade" && value == "h2c"))
    {
      var split := Find(line, ':', 0);
      if split == NPOS {
        return true;
      }
      var name := line[..split];
      var valueEnd := RFind(line, '\r');
      if split + 2 > |line| {
        return false;
      }
      var value := if valueEnd < split + 2 then line[split + 2..] else line[split + 2..valueEnd];
      if name == "Upgrade" && value == "h2c" {
        d_canUpgrade := true;
      }
      d_headers := d_headers + [Header(Custom(name), value)];
      fine := true;
    }

    /** The loop over the header lines. */
    method ParseHeaderLines(itr: Iterator) returns (fine: bool)
      requires itr.Valid() && itr.d_delim == '\n' && itr.At() == After(itr.d_parseString, '\n', 0)
      requires !StartsWith(itr.d_parseString, '\n')
      requires d_headers == [] && !d_canUpgrade
      modifies itr, `d_headers, `d_canUpgrade
      ensures ParseLines(Split(itr.d_parseString, '\n')[1..]) == if fine then Fields(Pairs(d_headers)) else Throws
      ensures fine ==> d_canUpgrade == Upgrades(Pairs(d_headers)) && AllCustom(d_headers)
    {
      hide Split, ParseLines, ParseLine, After, Token, Find, StartsWith, Next, AtEnd;
      ghost var payload := itr.d_parseString;
      ghost var lines := Split(payload, '\n');
      ghost var n := 1;
      AfterNext(payload, '\n', 0);
      LineAt(payload, 1);
      itr.Advance();
      while !AtEnd(itr.At())
        modifies itr, `d_headers, `d_canUpgrade
        invariant itr.Valid() && 1 <= n <= |lines| && itr.At() == After(payload, '\n', n)
        invariant Before(Pairs(d_headers), ParseLines(lines[n..])) == ParseLines(lines[1..])
        invariant d_canUpgrade == Upgrades(Pairs(d_headers)) && AllCustom(d_headers)
        decreases |lines| - n
      {
        LineAt(payload, n);
        LinesFrom(lines, n);
        ghost var before := Pairs(d_headers);
        fine := ParseHeaderLine(itr.Current());
        if !fine {
          return;
        }
        PairsStep(before, d_headers, ParseLine(lines[n]), ParseLines(lines[n + 1..]));
        n := n + 1;
        AfterNext(payload, '\n', n - 1);
        itr.Advance();
      }
      LineAt(payload, n);
      NoLinesLeft(lines);
      fine := true;
    }

    static method ParseBuffer(buffer: string) returns (outcome: Parsed, request: HttpRequest, bytesParsed: nat)
      ensures outcome == Parse(buffer) && fresh(request)
      ensures outcome.Parsed? ==> outcome == request.Seen(bytesParsed)
      ensures outcome.Parsed? ==> request.d_body == "" && AllCustom(request.d_headers)
    {
      hide Split, ParseLines, Word, HeaderEnd, UntilReturn, Upgrades, Pairs;
      request := new HttpRequest();
      bytesParsed := 0;
      var end := HeaderEnd(buffer);
      if end == NPOS {
        outcome := NoEnd;
        return;
      }
      bytesParsed := end + 4;
      var payload := buffer[..end];
      var itr := new Iterator(payload, '\n');
      var line := itr.Current();
      request.ParseRequestLine(line);
      // The loop over the header lines never leaves a payload that starts with a line feed.
      if StartsWith(payload, '\n') {
        outcome := Hangs;
        return;
      }
      assert line == Split(payload, '\n')[0] by {
        LineAt(payload, 0);
      }
      var fine := request.ParseHeaderLines(itr);
      outcome := if fine then request.Seen(bytesParsed) else Thrown;
    }
  }

  // ----- The loops over the headers

  lemma EncodedInParts(m: Method, path: string, headers: seq<Header>, body: string)
    ensures (Encoded(m, path, headers, body)
      == RequestLine(m, path) + "\r\n" + HeaderLines(Sent(headers, body)) + ("\r\n" + body))
  {
    hide RequestLine, HeaderLines, Sent;
  }

  lemma LinesStep(headers: seq<Header>, written: string)
    requires headers != []
    ensures HeaderLines(headers) == HeaderLine(headers[0]) + "\r\n" + HeaderLines(headers[1..])
    ensures written + HeaderLines(headers) == written + (HeaderLine(headers[0]) + "\r\n") + HeaderLines(headers[1..])
  {
    hide HeaderLine;
  }

  lemma NoHeadersLeft(headers: seq<Header>)
    ensures HeaderLines(headers[|headers|..]) == ""
  {
  }

  /** By how much the custom names are longer than the values they are counted with. */
  function Excess(headers: seq<Header>): int {
    if headers == [] then 0
    else
      var h := headers[0];
      (if h.name.Custom? then |h.name.text| - |h.value| else 0) + Excess(headers[1..])
  }

  lemma {:induction false} LinesLength(headers: seq<Header>, more: seq<Header>)
    requires forall i :: 0 <= i < |more| ==> more[i].name.Known?
    ensures |HeaderLines(headers + more)| == HeadersLength(headers + more) + Excess(headers)
  {
    if headers == [] {
      assert headers + more == more;
      if more != [] {
        LinesLength([], more[1..]);
        assert [] + more[1..] == more[1..];
      }
    } else {
      assert (headers + more)[1..] == headers[1..] + more;
      LinesLength(headers[1..], more);
    }
  }

  /** encode writes exactly length bytes when the custom names are together as long as their values, in
      particular when there is none; with longer names it writes beyond its buffer. */
  lemma EncodingFills(m: Method, path: string, headers: seq<Header>, body: string)
    ensures |Encoded(m, path, headers, body)| == EncodedLength(m, path, headers, body) + Excess(headers)
    ensures (forall i :: 0 <= i < |headers| ==> headers[i].name.Known?) ==> Excess(headers) == 0
  {
    var more := if body == "" then [] else [Header(Known("content-length"), Decimal(|body|))];
    assert headers + [] == headers;
    LinesLength(headers, more);
    if forall i :: 0 <= i < |headers| ==> headers[i].name.Known? {
      NoExcess(headers);
    }
  }

  lemma {:induction false} NoExcess(headers: seq<Header>)
    requires forall i :: 0 <= i < |headers| ==> headers[i].name.Known?
    ensures Excess(headers) == 0
  {
    if headers != [] {
      NoExcess(headers[1..]);
    }
  }

  function Pairs(headers: seq<Header>): (r: seq<(string, string)>)
    ensures |r| == |headers|
  {
    seq(|headers|, i requires 0 <= i < |headers| => (headers[i].name.text, headers[i].value))
  }

  predicate AllCustom(headers: seq<Header>) { forall i :: 0 <= i < |headers| ==> headers[i].name.Custom? }

  /** The fields read so far before those of the lines to come. */
  function Before(list: seq<(string, string)>, rest: Fields): Fields {
    match rest
    case Throws => Throws
    case Fields(more) => Fields(list + more)
  }

  /** Appending the field of a line to those read so far. */
  lemma PairsStep(before: seq<(string, string)>, headers: seq<Header>, line: Line, rest: Fields)
    requires match line
      case OutOfRange => false
      case NoColon => Pairs(headers) == before
      case Field(name, value) =>
        var n := |headers| - 1;
        headers != [] && headers[n] == Header(Custom(name), value) && Pairs(headers[..n]) == before
    ensures match line
      case OutOfRange => false
      case NoColon => Before(Pairs(headers), rest) == Before(before, rest)
        && (Upgrades(Pairs(headers)) <==> Upgrades(before))
      case Field(name, value) =>
        && Before(Pairs(headers), rest) == Before(before, Before([(name, value)], rest))
        && (Upgrades(Pairs(headers)) <==> Upgrades(before) || (name == "Upgrade" && value == "h2c"))
  {
    if line.Field? {
      assert Pairs(headers) == before + [(line.name, line.value)];
    }
  }

  lemma LinesFrom(lines: seq<string>, n: nat)
    requires n < |lines|
    ensures ParseLines(lines[n..]) == match ParseLine(lines[n])
      case OutOfRange => Throws
      case NoColon => ParseLines(lines[n + 1..])
      case Field(name, value) => Before([(name, value)], ParseLines(lines[n + 1..]))
  {
    hide ParseLine;
    assert lines[n..][1..] == lines[n + 1..];
  }

  lemma NoLinesLeft(lines: seq<string>)
    ensures ParseLines(lines[|lines|..]) == Fields([])
  {
  }

  // ----- Parsing what was encoded

  /** The lines of a header block, without the blank line that ends it. */
  function LinesOf(first: string, headers: seq<Header>): (lines: seq<string>)
    ensures |lines| == |headers| + 1
    decreases headers
  {
    if headers == [] then [first] else [first + "\r"] + LinesOf(HeaderLine(headers[0]), headers[1..])
  }

  lemma {:induction false} LinesJoined(first: string, headers: seq<Header>)
    ensures first + "\r\n" + HeaderLines(headers) + "\r\n" == Join(LinesOf(first, headers), '\n') + BLANK_LINE
    decreases headers
  {
    if headers != [] {
      var rest := LinesOf(HeaderLine(headers[0]), headers[1..]);
      LinesJoined(HeaderLine(headers[0]), headers[1..]);
      hide HeaderLine;
      assert LinesOf(first, headers)[1..] == rest;
      var line := HeaderLine(headers[0]);
      assert Join(LinesOf(first, headers), '\n') == first + "\r" + ['\n'] + Join(rest, '\n');
      hide Join, LinesOf;
      assert HeaderLines(headers) + "\r\n" == line + "\r\n" + HeaderLines(headers[1..]) + "\r\n";
      assert first + "\r\n" + HeaderLines(headers) + "\r\n" == first + "\r\n" + (HeaderLines(headers) + "\r\n");
    }
  }
}
