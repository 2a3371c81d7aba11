/** HttpResponse::build of http/fwoop_httpresponse.cpp: a response read buffer by buffer. */
module HttpResponse {
  import opened CLibrary
  import opened HttpText
  import opened Tokenizer

  const UINT32 := 0x1_0000_0000
  const INT_MIN := -0x8000_0000
  const INT_MAX := 0x7FFF_FFFF

  datatype State = Complete | WaitingOnHeaders | WaitingOnBody | Errored
  datatype BuildResult = Done | Incomplete | Failure

  /** The fields of a response that build reads and writes. */
  datatype Response = Response(state: State, contentLength: nat, version: Version, status: string,
                               headers: seq<Header>, body: string)

  // ----- A header block

  function LowerChar(c: char): char { if 'A' <= c <= 'Z' then (c as int + 32) as char else c }

  function Lower(s: string): (r: string)
    ensures |r| == |s| && forall i :: 0 <= i < |s| ==> r[i] == LowerChar(s[i])
  {
    seq(|s|, i requires 0 <= i < |s| => LowerChar(s[i]))
  }

  /** The names stringToHttpHeader knows. */
  const HEADER_NAMES := {
    ":authority", ":method", ":path", ":scheme", ":status", "accept-charset", "accept-encoding", "accept-language",
    "accept-ranges", "accept", "access-control-allow-origin", "age", "allow", "authorization", "cache-control",
    "content-disposition", "content-encoding", "content-language", "content-length", "content-location",
    "content-range", "content-type", "cookie", "date", "etag", "expect", "expires", "from", "host", "if-match",
    "if-modified-since",
    "if-none-match", "if-range", "if-unmodified-since", "last-modified", "link", "location", "max-forwards",
    "proxy-authenticate", "proxy-authorization", "range", "referer", "refresh", "retry-after", "server", "set-cookie",
    "strict-transport-security", "transfer-encoding", "user-agent", "vary", "via", "www-authenticate"
  }

  function HeaderName(name: string): Name { if Lower(name) in HEADER_NAMES then Known(Lower(name)) else Custom(name) }

  /** The lines of a block, or a crash: std::out_of_range, or a content length out of int's range. */
  datatype Lines = Crash | Lines(headers: seq<Header>, contentLength: nat)

  function ReadLines(lines: seq<string>, contentLength: nat): (r: Lines)
    ensures r.Lines? && contentLength < UINT32 ==> r.contentLength < UINT32
  {
    if lines == [] then Lines([], contentLength)
    else
      match ParseLine(lines[0])
      case OutOfRange => Crash
      case NoColon => ReadLines(lines[1..], contentLength)
      case Field(name, value) =>
        var read := [Header(HeaderName(name), value)];
        if HeaderName(name) != Known("content-length") then Prepended(read, ReadLines(lines[1..], contentLength))
        else if Atoi(value) < INT_MIN || Atoi(value) > INT_MAX then Crash
        else Prepended(read, ReadLines(lines[1..], Atoi(value) % UINT32))
  }

  function Prepended(headers: seq<Header>, rest: Lines): Lines {
    match rest
    case Crash => Crash
    case Lines(more, contentLength) => Lines(headers + more, contentLength)
  }

  /** A header block, or none where reading it crashes or never ends. */
  datatype Block = NoBlock | Block(version: Version, status: string, headers: seq<Header>, contentLength: nat)

  function ReadBlock(payload: string): (r: Block)
    ensures r.Block? ==> r.contentLength < UINT32
  {
    if StartsWith(payload, '\n') then NoBlock
    else
      var lines := Split(payload, '\n');
      match ReadLines(lines[1..], 0)
      case Crash => NoBlock
      case Lines(headers, contentLength) =>
        var version, status := VersionFromString(Word(lines[0], 0)), UntilReturn(Word(lines[0], 2));
        Block(version, status, headers, contentLength)
  }

  // ----- build

  datatype Outcome = Crashed | Built(response: Response, result: BuildResult, bytesParsed: nat)

  function Min(a: nat, b: nat): nat { if a < b then a else b }

  /** The part of build for a response that waits for its body. */
  function TakeBody(r: Response, buffer: string, parsed: nat): Outcome
    requires parsed <= |buffer|
  {
    var end := Min(|buffer| - parsed, (r.contentLength - |r.body|) % UINT32);
    var body := r.body + buffer[parsed..parsed + end];
    Built(r.(body := body), if |body| < r.contentLength then Incomplete else Done, parsed + end)
  }

  /** The part of build that reads a header block, up to the body. */
  function TakeHeaders(r: Response, buffer: string): Outcome {
    var end := HeaderEnd(buffer);
    var parsed := if end == NPOS then |buffer| else end + 4;
    match ReadBlock(if end == NPOS then buffer else buffer[..end])
    case NoBlock => Crashed
    case Block(version, status, headers, contentLength) =>
      var state := if end == NPOS then WaitingOnHeaders else WaitingOnBody;
      var all := r.headers + headers;
      var next := Response(state, contentLength, version, status, all, r.body);
      if parsed < |buffer| then TakeBody(next, buffer, parsed)
      else if contentLength == 0 then Built(next.(state := Complete), Done, parsed)
      else Built(next, Incomplete, parsed)
  }

  function BuildStep(r: Response, buffer: string): Outcome {
    match r.state
    case Errored => Built(r, Failure, 0)
    case WaitingOnHeaders => TakeHeaders(r, buffer)
    case WaitingOnBody => TakeBody(r, buffer, 0)
    case Complete => Built(r, Done, 0)
  }

  // ----- A run over several buffers

  datatype Run = RunCrashed | Run(response: Response, results: seq<BuildResult>, bytesParsed: nat)

  function Feed(r: Response, buffers: seq<string>): Run
    decreases |buffers|
  {
    if buffers == [] then Run(r, [], 0)
    else
      var last := |buffers| - 1;
      match Feed(r, buffers[..last])
      case RunCrashed => RunCrashed
      case Run(before, results, parsed) =>
        match BuildStep(before, buffers[last])
        case Crashed => RunCrashed
        case Built(now, result, n) => Run(now, results + [result], parsed + n)
  }

  function Concat(buffers: seq<string>): string
    decreases |buffers|
  {
    if buffers == [] then "" else Concat(buffers[..|buffers| - 1]) + buffers[|buffers| - 1]
  }

  /** The response while its body is read: stream is what followed the header block so far. */
  predicate Holds(r: Response, block: Block, before: seq<Header>, stream: string)
    requires block.Block?
  {
    && r.contentLength == block.contentLength < UINT32 && r.version == block.version && r.status == block.status
    && r.headers == before + block.headers && r.body == stream[..Min(block.contentLength, |stream|)]
    && (r.state == WaitingOnBody || (r.state == Complete && block.contentLength == 0))
  }

  lemma BodyStep(r: Response, block: Block, before: seq<Header>, stream: string, buffer: string)
    requires block.Block? && Holds(r, block, before, stream)
    ensures var out := BuildStep(r, buffer);
      && out.Built? && Holds(out.response, block, before, stream + buffer)
      && out.result == (if |stream| + |buffer| >= block.contentLength then Done else Incomplete)
      && out.bytesParsed == Min(block.contentLength, |stream + buffer|) - Min(block.contentLength, |stream|)
  {
    var n := block.contentLength;
    assert |stream| >= n ==> (stream + buffer)[..n] == stream[..n];
    var m := Min(n, |stream + buffer|);
    assert |stream| < n ==> (stream + buffer)[..m] == stream + buffer[..m - |stream|];
    assert (n - Min(n, |stream|)) % UINT32 == n - Min(n, |stream|);
  }

  lemma HeadStep(r: Response, buffer: string)
    requires r.state == WaitingOnHeaders && r.body == "" && HeaderEnd(buffer) != NPOS
    requires ReadBlock(buffer[..HeaderEnd(buffer)]).Block?
    ensures var end := HeaderEnd(buffer);
      var block := ReadBlock(buffer[..end]);
      var stream := buffer[end + 4..];
      var out := BuildStep(r, buffer);
      && out.Built? && Holds(out.response, block, r.headers, stream)
      && out.result == (if |stream| >= block.contentLength then Done else Incomplete)
      && out.bytesParsed == end + 4 + Min(block.contentLength, |stream|)
  {
    hide ReadBlock, HeaderEnd;
  }

  /** However the rest is cut into buffers: when the last blank line of the first buffer ends the header
      block, the headers are those of the block, the body is what follows it up to its content length,
      Done is returned by exactly the calls by which that length has been reached, and all the calls
      together report the header block and that much of the body as parsed. */
  lemma {:induction false} ChunkIndependent(r: Response, first: string, rest: seq<string>)
    requires r.state == WaitingOnHeaders && r.body == "" && HeaderEnd(first) != NPOS
    requires ReadBlock(first[..HeaderEnd(first)]).Block?
    ensures var end := HeaderEnd(first);
      var block := ReadBlock(first[..end]);
      var stream := first[end + 4..] + Concat(rest);
      var run := Feed(r, [first] + rest);
      && run.Run? && Holds(run.response, block, r.headers, stream) && |run.results| == |rest| + 1
      && run.bytesParsed == end + 4 + Min(block.contentLength, |stream|)
      && forall k :: 0 <= k <= |rest| ==>
        run.results[k] == if |first[end + 4..] + Concat(rest[..k])| >= block.contentLength then Done else Incomplete
    decreases |rest|
  {
    hide BuildStep, Holds, ReadBlock, HeaderEnd;
    var head := first[HeaderEnd(first) + 4..];
    HeadStep(r, first);
    if rest == [] {
      assert head + "" == head && ([first] + rest)[..0] == [];
      assert Feed(r, []) == Run(r, [], 0);
      assert rest[..0] == rest;
    } else {
      var last := |rest| - 1;
      ChunkIndependent(r, first, rest[..last]);
      assert ([first] + rest)[..|rest|] == [first] + rest[..last] && ([first] + rest)[|rest|] == rest[last];
      var run := Feed(r, [first] + rest[..last]);
      var block := ReadBlock(first[..HeaderEnd(first)]);
      BodyStep(run.response, block, r.headers, head + Concat(rest[..last]), rest[last]);
      assert head + Concat(rest[..last]) + rest[last] == head + Concat(rest);
      assert forall k :: 0 <= k < |rest| ==> rest[..last][..k] == rest[..k];
      assert rest[..|rest|] == rest;
    }
  }

  lemma {:induction false} CrashStays(r: Response, first: string, rest: seq<string>)
    requires BuildStep(r, first).Crashed?
    ensures Feed(r, [first] + rest) == RunCrashed
    decreases |rest|
  {
    hide BuildStep;
    assert ([first] + rest)[..|rest|] == if rest == [] then [] else [first] + rest[..|rest| - 1];
    if rest == [] {
      assert Feed(r, []) == Run(r, [], 0);
    } else {
      CrashStays(r, first, rest[..|rest| - 1]);
    }
  }

  /** With a blank line in the first buffer every byte reported as parsed is one of the header block or of the
      body, and the run crashes exactly when reading that block does. */
  lemma BytesParsed(r: Response, first: string, rest: seq<string>)
    requires r.state == WaitingOnHeaders && r.body == "" && HeaderEnd(first) != NPOS
    ensures var run := Feed(r, [first] + rest);
      && (run.Run? <==> ReadBlock(first[..HeaderEnd(first)]).Block?)
      && (run.Run? ==> run.bytesParsed == HeaderEnd(first) + 4 + |run.response.body|)
  {
    hide ReadBlock, HeaderEnd, Feed, Concat;
    if ReadBlock(first[..HeaderEnd(first)]).Block? {
      ChunkIndependent(r, first, rest);
    } else {
      CrashStays(r, first, rest);
    }
  }

  /** The run has read block, which starts at the front of the first buffer and ends with the blank line at e,
      and then stream up to the content length the block announces. */
  predicate ReadsAs(run: Run, block: Block, before: seq<Header>, e: nat, stream: string)
    requires block.Block?
  {
    && run.Run? && run.bytesParsed == e + 4 + Min(block.contentLength, |stream|)
    && Holds(run.response, block, before, stream)
  }

  /** A header block that is whole in the first buffer is read as it stands, and the body after it, exactly when
      no blank line follows in that buffer: whatever the bytes up to a later one say, and however many come. */
  lemma WholeHeadersRead(r: Response, first: string, e: nat, rest: seq<string>)
    requires r.state == WaitingOnHeaders && r.body == "" && BlankLineAt(first, e) && ReadBlock(first[..e]).Block?
    ensures var stream := first[e + 4..] + Concat(rest);
      ReadsAs(Feed(r, [first] + rest), ReadBlock(first[..e]), r.headers, e, stream) <==> !LaterBlankLine(first, e)
  {
    hide ReadBlock, HeaderEnd, Feed, Concat, BlankLineAt;
    HeaderEndIs(first, e);
    if HeaderEnd(first) == e {
      ChunkIndependent(r, first, rest);
    } else {
      EndIsLater(first, e);
      BytesParsed(r, first, rest);
    }
  }

  lemma EndIsLater(s: string, e: nat)
    requires BlankLineAt(s, e)
    ensures HeaderEnd(s) != NPOS && HeaderEnd(s) >= e && e + 4 <= |s|
  {
    FindsLast(s, |s|);
  }

  /** Two ways of cutting the same bytes, with the header block whole in the first buffer of each and found in
      one of them, come to the same response with the same bytes parsed exactly when no blank line follows
      the header block in the first buffer of the other. */
  lemma EverySplitAgrees(r: Response, first: string, rest: seq<string>, first': string, rest': seq<string>, e: nat)
    requires r.state == WaitingOnHeaders && r.body == "" && first + Concat(rest) == first' + Concat(rest')
    requires HeaderEnd(first) == e && BlankLineAt(first', e) && ReadBlock(first[..e]).Block?
    ensures var run, run' := Feed(r, [first] + rest), Feed(r, [first'] + rest');
      && run.Run?
      && ((run'.Run? && run.bytesParsed == run'.bytesParsed
           && run.response.(state := Complete) == run'.response.(state := Complete))
          <==> !LaterBlankLine(first', e))
  {
    hide ReadBlock, HeaderEnd, Feed, Concat, Min, BlankLineAt;
    EndIsLater(first', e);
    CutAfterHead(first, Concat(rest), first', Concat(rest'), e);
    ChunkIndependent(r, first, rest);
    BytesParsed(r, first, rest);
    HeaderEndIs(first', e);
    BytesParsed(r, first', rest');
    if HeaderEnd(first') == e {
      ChunkIndependent(r, first', rest');
    }
  }

  lemma CutAfterHead(a: string, b: string, a': string, b': string, end: nat)
    requires a + b == a' + b' && end + 4 <= |a| && end + 4 <= |a'|
    ensures a[..end] == a'[..end] && a[end + 4..] + b == a'[end + 4..] + b'
  {
    assert (a + b)[..end] == a[..end] && (a' + b')[..end] == a'[..end];
    assert (a + b)[end + 4..] == a[end + 4..] + b && (a' + b')[end + 4..] == a'[end + 4..] + b';
  }

  /** A first buffer without the end of the header block is taken for all of it: with no content length
      in it the response is done at once and takes nothing from the buffers that follow. */
  lemma {:induction false} CutHeadersAreLost(r: Response, first: string, rest: seq<string>)
    requires r.state == WaitingOnHeaders && HeaderEnd(first) == NPOS
    requires ReadBlock(first).Block? && ReadBlock(first).contentLength == 0
    ensures var run := Feed(r, [first] + rest);
      var block := ReadBlock(first);
      && run.Run? && run.bytesParsed == |first|
      && run.response == Response(Complete, 0, block.version, block.status, r.headers + block.headers, r.body)
      && forall k :: 0 <= k < |run.results| ==> run.results[k] == Done
    decreases |rest|
  {
    hide ReadBlock, HeaderEnd;
    if rest == [] {
      assert ([first] + rest)[..0] == [];
      assert Feed(r, []) == Run(r, [], 0);
    } else {
      var last := |rest| - 1;
      CutHeadersAreLost(r, first, rest[..last]);
      assert ([first] + rest)[..|rest|] == [first] + rest[..last] && ([first] + rest)[|rest|] == rest[last];
    }
  }

  /** A first buffer without a blank line that holds a content length above 0: its headers are kept, and the
      next buffer is read as a header block of its own, with its own version, status and content length. */
  lemma {:induction false} CutHeadersStartOver(r: Response, first: string, rest: seq<string>)
    requires r.state == WaitingOnHeaders && HeaderEnd(first) == NPOS
    requires ReadBlock(first).Block? && ReadBlock(first).contentLength > 0
    ensures var block := ReadBlock(first);
      var after := Response(WaitingOnHeaders, block.contentLength, block.version, block.status,
                            r.headers + block.headers, r.body);
      Feed(r, [first] + rest) == AfterCut(|first|, Feed(after, rest))
    decreases |rest|
  {
    hide ReadBlock, HeaderEnd;
    if rest == [] {
      assert ([first] + rest)[..0] == [];
      assert Feed(r, []) == Run(r, [], 0);
    } else {
      var last := |rest| - 1;
      CutHeadersStartOver(r, first, rest[..last]);
      assert ([first] + rest)[..|rest|] == [first] + rest[..last] && ([first] + rest)[|rest|] == rest[last];
    }
  }

  /** A run whose first call took n bytes and was not done. */
  function AfterCut(n: nat, run: Run): Run {
    match run
    case RunCrashed => RunCrashed
    case Run(response, results, parsed) => Run(response, [Incomplete] + results, n + parsed)
  }

  /** What build takes for the header block: the first buffer with a blank line or without a content length
      above 0 ends it, and what the buffers before that one held is read as header lines only. */
  datatype Head = Crashes | Unfinished | Ends(block: Block, taken: nat)

  function HeadOf(buffers: seq<string>): (r: Head)
    ensures r.Ends? ==> r.block.Block?
    decreases |buffers|
  {
    if buffers == [] then Unfinished
    else
      var first, end := buffers[0], HeaderEnd(buffers[0]);
      var block := ReadBlock(if end == NPOS then first else first[..end]);
      if block.NoBlock? then Crashes
      else if end != NPOS then Ends(block, end + 4)
      else if block.contentLength == 0 then Ends(block, |first|)
      else AfterLines(first, block.headers, HeadOf(buffers[1..]))
  }

  function AfterLines(first: string, headers: seq<Header>, head: Head): Head
    requires head.Ends? ==> head.block.Block?
  {
    if head.Ends? then Ends(head.block.(headers := headers + head.block.headers), |first| + head.taken) else head
  }

  /** The run over the bytes of all has read this head, and then the body up to its content length. */
  predicate HasRead(run: Run, head: Head, before: seq<Header>, all: string)
    requires head.Ends? ==> head.block.Block?
  {
    match head
    case Crashes => run == RunCrashed
    case Unfinished => run.Run? && run.response.state == WaitingOnHeaders
    case Ends(block, taken) =>
      && taken <= |all| && run.Run? && Holds(run.response, block, before, all[taken..])
      && run.bytesParsed == taken + Min(block.contentLength, |all| - taken)
  }

  lemma FirstBufferEnds(r: Response, first: string, rest: seq<string>)
    requires r.state == WaitingOnHeaders && r.body == ""
    requires var end := HeaderEnd(first);
      var block := ReadBlock(if end == NPOS then first else first[..end]);
      end == NPOS && block.Block? ==> block.contentLength == 0
    ensures HasRead(Feed(r, [first] + rest), HeadOf([first] + rest), r.headers, first + Concat(rest))
  {
    hide ReadBlock, HeaderEnd, Feed, Concat;
    var end := HeaderEnd(first);
    if ReadBlock(if end == NPOS then first else first[..end]).NoBlock? {
      CrashStays(r, first, rest);
    } else if end != NPOS {
      ChunkIndependent(r, first, rest);
      assert (first + Concat(rest))[end + 4..] == first[end + 4..] + Concat(rest);
    } else {
      CutHeadersAreLost(r, first, rest);
    }
  }

  lemma CutGoesOn(first: string, headers: seq<Header>, run: Run, head: Head, before: seq<Header>, all: string)
    requires (head.Ends? ==> head.block.Block?) && HasRead(run, head, before + headers, all)
    ensures HasRead(AfterCut(|first|, run), AfterLines(first, headers, head), before, first + all)
  {
    if head.Ends? {
      assert (first + all)[|first| + head.taken..] == all[head.taken..];
      assert before + headers + head.block.headers == before + (headers + head.block.headers);
    }
  }

  lemma {:induction false} HeadIsRead(r: Response, buffers: seq<string>)
    requires r.state == WaitingOnHeaders && r.body == ""
    ensures HasRead(Feed(r, buffers), HeadOf(buffers), r.headers, Concat(buffers))
    decreases |buffers|
  {
    hide ReadBlock, HeaderEnd, Concat, BuildStep;
    if buffers != [] {
      hide Feed, HasRead, AfterLines, AfterCut;
      var first, rest, end := buffers[0], buffers[1..], HeaderEnd(buffers[0]);
      assert buffers == [first] + rest;
      ConcatFirst(first, rest);
      var block := ReadBlock(if end == NPOS then first else first[..end]);
      if block.NoBlock? || end != NPOS || block.contentLength == 0 {
        FirstBufferEnds(r, first, rest);
      } else {
        CutHeadersStartOver(r, first, rest);
        var after := Response(WaitingOnHeaders, block.contentLength, block.version, block.status,
                              r.headers + block.headers, r.body);
        HeadIsRead(after, rest);
        CutGoesOn(first, block.headers, Feed(after, rest), HeadOf(rest), r.headers, Concat(rest));
      }
    }
  }

  /** However a stream with a blank line at e is cut: what stands before e is read as the header block and what
      follows as the body exactly when that is the block, with its blank line, the buffers are taken to hold. */
  lemma EveryCutRead(r: Response, buffers: seq<string>, e: nat)
    requires r.state == WaitingOnHeaders && r.body == "" && BlankLineAt(Concat(buffers), e)
    requires ReadBlock(Concat(buffers)[..e]).Block?
    ensures var all := Concat(buffers);
      var block := ReadBlock(all[..e]);
      ReadsAs(Feed(r, buffers), block, r.headers, e, all[e + 4..]) <==> HeadOf(buffers) == Ends(block, e + 4)
  {
    hide ReadBlock, Feed, Concat, HeadOf;
    HeadIsRead(r, buffers);
    var all, run := Concat(buffers), Feed(r, buffers);
    var block := ReadBlock(all[..e]);
    match HeadOf(buffers)
    case Ends(found, taken) =>
      if ReadsAs(run, block, r.headers, e, all[e + 4..]) {
        SameBlock(run.response, found, block, r.headers, all[taken..], all[e + 4..]);
      }
    case _ =>
  }

  /** What a response holds determines the block and the length of its body. */
  lemma SameBlock(r: Response, a: Block, b: Block, before: seq<Header>, s: string, t: string)
    requires a.Block? && b.Block? && Holds(r, a, before, s) && Holds(r, b, before, t)
    ensures a == b && Min(a.contentLength, |s|) == Min(b.contentLength, |t|)
  {
    assert a.headers == (before + a.headers)[|before|..];
    assert b.headers == (before + b.headers)[|before|..];
  }

  /** A stream whose first blank line is at e, wherever that lies, is read exactly when that line is whole in the
      first buffer and the last one there: unless the first buffer holds a content length above 0 and no blank
      line, where the buffers that follow decide. */
  lemma FirstBlankLineRead(r: Response, first: string, e: nat, rest: seq<string>)
    requires r.state == WaitingOnHeaders && r.body == "" && BlankLineAt(first + Concat(rest), e)
    requires forall k: nat :: k < e ==> !BlankLineAt(first + Concat(rest), k)
    requires ReadBlock((first + Concat(rest))[..e]).Block?
    requires HeaderEnd(first) != NPOS || ReadBlock(first).NoBlock? || ReadBlock(first).contentLength == 0
    ensures var all := first + Concat(rest);
      ReadsAs(Feed(r, [first] + rest), ReadBlock(all[..e]), r.headers, e, all[e + 4..])
      <==> (e + 4 <= |first| && !LaterBlankLine(first, e))
  {
    hide ReadBlock, HeaderEnd, Feed, Concat, BlankLineAt;
    var all := first + Concat(rest);
    if e + 4 <= |first| {
      BlankLineOfPart(first, Concat(rest), e);
      assert all[..e] == first[..e] && all[e + 4..] == first[e + 4..] + Concat(rest);
      WholeHeadersRead(r, first, e, rest);
    } else {
      NoBlankLineYet(first, Concat(rest), e);
      if ReadBlock(first).Block? {
        CutHeadersAreLost(r, first, rest);
      } else {
        CrashStays(r, first, rest);
      }
    }
  }

  lemma BlankLineOfPart(a: string, b: string, k: nat)
    requires k + 4 <= |a|
    ensures BlankLineAt(a, k) <==> BlankLineAt(a + b, k)
  {
    assert (a + b)[k..k + 4] == a[k..k + 4];
  }

  lemma NoBlankLineYet(a: string, b: string, e: nat)
    requires e + 4 > |a| && forall k: nat :: k < e ==> !BlankLineAt(a + b, k)
    ensures HeaderEnd(a) == NPOS
  {
    FindsLast(a, |a|);
    if HeaderEnd(a) != NPOS {
      BlankLineOfPart(a, b, HeaderEnd(a));
    }
  }

  /** A blank line after the header block, in the same buffer: what stands before it is taken for header
      lines.  Cutting that buffer right after the header block changes what is read exactly then. */
  lemma BlankLineInBody(r: Response, first: string, e: nat, rest: seq<string>)
    requires r.state == WaitingOnHeaders && r.body == "" && BlankLineAt(first, e) && ReadBlock(first[..e]).Block?
    ensures var whole, cut := Feed(r, [first] + rest), Feed(r, [first[..e + 4]] + ([first[e + 4..]] + rest));
      && ReadsAs(cut, ReadBlock(first[..e]), r.headers, e, first[e + 4..] + Concat(rest))
      && ((whole.Run? && cut.bytesParsed == whole.bytesParsed
           && cut.response.(state := Complete) == whole.response.(state := Complete))
          <==> !LaterBlankLine(first, e))
  {
    hide ReadBlock, Feed, Concat, Holds, HeaderEnd;
    var head, tail := first[..e + 4], first[e + 4..];
    assert head[..e] == first[..e] && head[e + 4..] == "" && first == head + tail;
    assert head[e..e + 4] == first[e..e + 4];
    HeaderEndIs(head, e);
    ConcatFirst(tail, rest);
    assert first + Concat(rest) == head + Concat([tail] + rest);
    assert "" + Concat([tail] + rest) == tail + Concat(rest);
    WholeHeadersRead(r, head, e, [tail] + rest);
    EverySplitAgrees(r, head, [tail] + rest, first, rest, e);
  }

  lemma {:induction false} ConcatFirst(first: string, rest: seq<string>)
    ensures Concat([first] + rest) == first + Concat(rest)
    decreases |rest|
  {
    if rest == [] {
      assert Concat([first]) == Concat([first][..0]) + first;
    } else {
      var n, all := |rest| - 1, [first] + rest;
      ConcatFirst(first, rest[..n]);
      assert all[..n + 1] == [first] + rest[..n] && all[n + 1] == rest[n];
      assert Concat(all) == Concat(all[..n + 1]) + all[n + 1] && Concat(rest) == Concat(rest[..n]) + rest[n];
      hide Concat;
    }
  }

  lemma BlockOfFour(line: string)
    requires '\n' !in line
    ensures ReadBlock(line + "\r\ncontent-length: 4").Block?
    ensures ReadBlock(line + "\r\ncontent-length: 4").contentLength == 4
  {
    hide Split, Find, Word, VersionFromString, UntilReturn, ReadLines;
    var lines := [line + "\r", "content-length: 4"];
    assert lines[1..] == ["content-length: 4"];
    assert Join(lines, '\n') == line + "\r\ncontent-length: 4" by {
      assert Join(lines[1..], '\n') == "content-length: 4";
    }
    SplitOfJoin(lines, '\n');
    FourIsRead();
  }

  lemma FourIsRead()
    ensures ReadLines(["content-length: 4"], 0) == Lines([Header(Known("content-length"), "4")], 4)
  {
    hide HEADER_NAMES, HeaderName, Find, ParseLine;
    FieldOfFour();
    NameOfFour();
  }

  lemma FieldOfFour()
    ensures ParseLine("content-length: 4") == Field("content-length", "4")
  {
    hide Find;
    var line := "content-length: 4";
    assert line == "content-length" + [':'] + " 4";
    FirstDelim("content-length", " 4", ':', 0);
    assert line[..14] == "content-length" && line[16..] == "4";
    RFindIs(line, '\r');
  }

  lemma NameOfFour()
    ensures HeaderName("content-length") == Known("content-length")
  {
    assert Lower("content-length") == "content-length";
  }

  /** Such an input for any status line: a body that is a blank line.  Sent with its header block it is lost. */
  lemma BlankLineInBodyExample(r: Response, line: string)
    requires r.state == WaitingOnHeaders && r.body == "" && '\n' !in line
    ensures var head := line + "\r\ncontent-length: 4" + BLANK_LINE;
      var cut, whole := Feed(r, [head] + [BLANK_LINE]), Feed(r, [head + BLANK_LINE] + []);
      && cut.Run? && cut.response.body == BLANK_LINE && cut.results == [Incomplete, Done]
      && (whole.Run? ==> whole.response.body == "" && whole.bytesParsed == cut.bytesParsed)
  {
    hide ReadBlock, HeaderEnd, Feed, KeepsEnd;
    var block := line + "\r\ncontent-length: 4";
    var head := block + BLANK_LINE;
    NothingKeepsEnd();
    BlockOfFour(line);
    EndsThere(block, "");
    assert head + "" == head && head[..|block|] == block;
    ChunkIndependent(r, head, [BLANK_LINE]);
    EndsThere(head, "");
    assert head + BLANK_LINE + "" == head + BLANK_LINE;
    if ReadBlock((head + BLANK_LINE)[..|head|]).Block? {
      ChunkIndependent(r, head + BLANK_LINE, []);
    } else {
      CrashStays(r, head + BLANK_LINE, []);
    }
  }

  lemma NothingKeepsEnd()
    ensures KeepsEnd("")
  {
  }

  // ----- The class

  class HttpResponse {
    var d_state: State
    var d_contentLength: nat
    var d_version: Version
    var d_headers: seq<Header>
    var d_status: string
    var d_body: string

    function At(): Response
      reads this
    {
      Response(d_state, d_contentLength, d_version, d_status, d_headers, d_body)
    }

    constructor ()
      ensures d_state == WaitingOnHeaders && d_status == "" && d_headers == [] && d_body == ""
    {
      d_state, d_status, d_headers, d_body := WaitingOnHeaders, "", [], "";
    }

    /** build; crash stands for an exception, an undefined conversion or a loop that never ends. */
    method Build(buffer: string) returns (crash: bool, result: BuildResult, bytesParsed: nat)
      modifies this
      ensures match BuildStep(old(At()), buffer)
        case Crashed => crash
        case Built(r, outcome, n) => !crash && At() == r && result == outcome && bytesParsed == n
    {
      hide ReadBlock, HeaderEnd, TakeBody;
      crash, result, bytesParsed := false, Done, 0;
      if d_state == Errored {
        result := Failure;
        return;
      }
      if d_state == WaitingOnHeaders {
        var payload := buffer;
        var end := HeaderEnd(payload);
        if end == NPOS {
          bytesParsed := |buffer|;
        } else {
          d_state := WaitingOnBody;
          bytesParsed := end + 4;
          payload := payload[..end];
        }
        crash := TakeBlock(payload);
        if crash {
          return;
        }
        if bytesParsed == |buffer| {
          if d_contentLength == 0 {
            d_state := Complete;
          } else {
            result := Incomplete;
          }
          return;
        }
      }
      if d_state == WaitingOnBody {
        result, bytesParsed := TakeBytes(buffer, bytesParsed);
      }
    }

    /** The bytes of the body in a buffer. */
    method TakeBytes(buffer: string, parsed: nat) returns (result: BuildResult, bytesParsed: nat)
      requires parsed <= |buffer|
      modifies `d_body
      ensures TakeBody(old(At()), buffer, parsed) == Built(At(), result, bytesParsed)
    {
      var bytesRemaining := |buffer| - parsed;
      var bodyLenRemaining := (d_contentLength - |d_body|) % UINT32;
      var end := Min(bytesRemaining, bodyLenRemaining);
      d_body := d_body + buffer[parsed..parsed + end];
      bytesParsed := parsed + end;
      result := if |d_body| < d_contentLength then Incomplete else Done;
    }

    /** The header block. */
    method TakeBlock(payload: string) returns (crash: bool)
      modifies this
      ensures d_state == old(d_state) && d_body == old(d_body)
      ensures match ReadBlock(payload)
        case NoBlock => crash
        case Block(version, status, headers, contentLength) =>
          !crash && d_version == version && d_status == status && d_headers == old(d_headers) + headers
            && d_contentLength == contentLength
    {
      hide Split, ReadLines, Word, Token, StartsWith, Find;
      var itr := new Iterator(payload, '\n');
      var line := itr.Current();
      TakeStatusLine(line);
      d_contentLength := 0;
      // The loop over the header lines never leaves a payload that starts with a line feed.
      if StartsWith(payload, '\n') {
        crash := true;
        return;
      }
      assert line == Split(payload, '\n')[0] by {
        LineAt(payload, 0);
      }
      crash := TakeLines(itr);
    }

    /** The words of the status line. */
    method TakeStatusLine(line: string)
      modifies `d_version, `d_status
      ensures d_version == VersionFromString(Word(line, 0)) && d_status == UntilReturn(Word(line, 2))
    {
      hide Token, Find;
      AfterNext(line, ' ', 0);
      AfterNext(line, ' ', 1);
      var rlItr := new Iterator(line, ' ');
      d_version := VersionFromString(rlItr.Current());
      rlItr.Advance();
      rlItr.Advance();
      d_status := UntilReturn(rlItr.Current());
    }

    /** The loop over the header lines. */
    method TakeLines(itr: Iterator) returns (crash: bool)
      requires itr.Valid() && itr.d_delim == '\n' && itr.At() == After(itr.d_parseString, '\n', 0)
      requires !StartsWith(itr.d_parseString, '\n')
      modifies itr, `d_headers, `d_contentLength
      ensures match ReadLines(Split(itr.d_parseString, '\n')[1..], old(d_contentLength))
        case Crash => crash
        case Lines(headers, contentLength) =>
          !crash && d_headers == old(d_headers) + headers && d_contentLength == contentLength
    {
      hide Split, ReadLines, ParseLine, After, Token, Find, StartsWith, Next, AtEnd;
      ghost var payload := itr.d_parseString;
      ghost var lines := Split(payload, '\n');
      ghost var n, taken := 1, [];
      AfterNext(payload, '\n', 0);
      LineAt(payload, 1);
      itr.Advance();
      while !AtEnd(itr.At())
        modifies itr, `d_headers, `d_contentLength
        invariant itr.Valid() && 1 <= n <= |lines| && itr.At() == After(payload, '\n', n)
        invariant d_headers == old(d_headers) + taken
        invariant ReadLines(lines[1..], old(d_contentLength))
          == Prepended(taken, ReadLines(lines[n..], d_contentLength))
        decreases |lines| - n
      {
        LineAt(payload, n);
        ghost var more;
        crash, more := TakeLine(itr.Current(), lines[n..]);
        if crash {
          return;
        }
        taken := taken + more;
        assert lines[n..][1..] == lines[n + 1..];
        n := n + 1;
        AfterNext(payload, '\n', n - 1);
        itr.Advance();
      }
      LineAt(payload, n);
      NoLinesLeft(lines, d_contentLength);
      crash := false;
    }

    /** The body of the loop. */
    method TakeLine(line: string, ghost lines: seq<string>) returns (crash: bool, ghost more: seq<Header>)
      requires lines != [] && lines[0] == line
      modifies `d_headers, `d_contentLength
      ensures crash ==> ReadLines(lines, old(d_contentLength)) == Crash
      ensures !crash ==> d_headers == old(d_headers) + more
      ensures !crash ==>
        ReadLines(lines, old(d_contentLength)) == Prepended(more, ReadLines(lines[1..], d_contentLength))
    {
      crash, more := false, [];
      var split := Find(line, ':', 0);
      if split == NPOS {
        return;
      }
      var name := line[..split];
      var valueEnd := RFind(line, '\r');
      if split + 2 > |line| {
        crash := true;
        return;
      }
      var value := if valueEnd < split + 2 then line[split + 2..] else line[split + 2..valueEnd];
      var httpName := HeaderName(name);
      more := [Header(httpName, value)];
      d_headers := d_headers + [Header(httpName, value)];
      if httpName == Known("content-length") {
        if Atoi(value) < INT_MIN || Atoi(value) > INT_MAX {
          crash := true;
          return;
        }
        d_contentLength := Atoi(value) % UINT32;
      }
    }
  }

  lemma NoLinesLeft(lines: seq<string>, contentLength: nat)
    ensures ReadLines(lines[|lines|..], contentLength) == Lines([], contentLength)
  {
  }
}
