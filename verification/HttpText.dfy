/** What HttpRequest::parse and HttpResponse::build share: the end of a header block, its lines, and
    the names of headers and versions. */
module HttpText {
  import opened Tokenizer

  const BLANK_LINE := "\r\n\r\n"

  /** std::string::rfind of one character */
  function RFind(s: string, c: char): (r: int)
    ensures r == NPOS || 0 <= r < |s|
  {
    if s == "" then NPOS else if s[|s| - 1] == c then |s| - 1 else RFind(s[..|s| - 1], c)
  }

  lemma {:induction false} RFindIs(s: string, c: char)
    ensures RFind(s, c) == NPOS <==> c !in s
  {
    if s != "" && s[|s| - 1] != c {
      RFindIs(s[..|s| - 1], c);
      assert s == s[..|s| - 1] + [s[|s| - 1]];
    }
  }

  predicate BlankLineAt(s: string, i: nat) { i + 4 <= |s| && s[i..i + 4] == BLANK_LINE }

  /** payload.rfind("\r\n\r\n"): the last place up to i at which a blank line starts */
  function LastBlankLine(s: string, i: nat): (r: int)
    ensures r == NPOS || (0 <= r <= i && r + 4 <= |s|)
  {
    if BlankLineAt(s, i) then i else if i == 0 then NPOS else LastBlankLine(s, i - 1)
  }

  function HeaderEnd(s: string): (r: int)
    ensures r == NPOS || (0 <= r && r + 4 <= |s|)
  {
    LastBlankLine(s, |s|)
  }

  /** No place after it starts a blank line. */
  lemma {:induction false} FindsLast(s: string, i: nat)
    ensures var r := LastBlankLine(s, i);
      (r != NPOS ==> BlankLineAt(s, r)) && forall k :: 0 <= k <= i && k > r ==> !BlankLineAt(s, k)
  {
    if !BlankLineAt(s, i) && i > 0 {
      FindsLast(s, i - 1);
    }
  }

  /** A blank line starts in s after e. */
  predicate LaterBlankLine(s: string, e: nat) { exists k :: e < k < |s| && BlankLineAt(s, k) }

  /** A header block ends at i exactly when a blank line starts there and nowhere later. */
  lemma HeaderEndIs(s: string, i: nat)
    ensures HeaderEnd(s) == i <==> BlankLineAt(s, i) && !LaterBlankLine(s, i)
  {
    FindsLast(s, |s|);
  }

  /** The first n bytes of a stream with a blank line at e, and that whole: their header block is what
      stands before e exactly when they hold no later blank line. */
  lemma BlockOfPrefix(stream: string, e: nat, n: nat)
    requires BlankLineAt(stream, e) && e + 4 <= n <= |stream|
    ensures HeaderEnd(stream[..n]) == e <==> forall k :: e < k && k + 4 <= n ==> !BlankLineAt(stream, k)
    ensures stream[..n][..e] == stream[..e]
  {
    HeaderEndIs(stream[..n], e);
    forall k: nat ensures BlankLineAt(stream[..n], k) <==> k + 4 <= n && BlankLineAt(stream, k) {
      if k + 4 <= n {
        assert stream[..n][k..k + 4] == stream[k..k + 4];
      }
    }
  }

  predicate StartsWithLineEnd(s: string) { |s| >= 2 && s[0] == '\r' && s[1] == '\n' }

  /** What follows the blank line that ends the header block neither starts with a line end nor holds a
      blank line. */
  predicate KeepsEnd(rest: string) {
    !StartsWithLineEnd(rest) && forall k :: 0 <= k < |rest| ==> !BlankLineAt(rest, k)
  }

  /** A blank line after the one at the end of the payload is one in the rest, or starts in the middle
      of that one and ends with a line end the rest starts with. */
  lemma BlankLineLater(payload: string, rest: string, k: nat)
    ensures BlankLineAt(payload + BLANK_LINE + rest, |payload| + 4 + k) == BlankLineAt(rest, k)
    ensures BlankLineAt(payload + BLANK_LINE + rest, |payload| + 2) == StartsWithLineEnd(rest)
    ensures !BlankLineAt(payload + BLANK_LINE + rest, |payload| + 1)
    ensures !BlankLineAt(payload + BLANK_LINE + rest, |payload| + 3)
  {
    var s := payload + BLANK_LINE + rest;
    var at := |payload| + 4;
    if k + 4 <= |rest| {
      assert s[at + k..at + k + 4] == rest[k..k + 4];
    }
    if 2 <= |rest| {
      assert s[at - 2..at + 2] == ['\r', '\n', rest[0], rest[1]];
      assert BLANK_LINE == ['\r', '\n', '\r', '\n'];
      assert ['\r', '\n', rest[0], rest[1]][2] == rest[0] && ['\r', '\n', rest[0], rest[1]][3] == rest[1];
    }
    FirstOfBlankLine(s, |payload| + 1);
    FirstOfBlankLine(s, |payload| + 3);
  }

  lemma FirstOfBlankLine(s: string, k: nat)
    ensures BlankLineAt(s, k) ==> s[k] == s[k + 2] == '\r'
  {
    if BlankLineAt(s, k) {
      assert s[k..k + 4][0] == '\r' && s[k..k + 4][2] == '\r';
    }
  }

  lemma NoneLater(payload: string, rest: string)
    ensures LaterBlankLine(payload + BLANK_LINE + rest, |payload|) <==> !KeepsEnd(rest)
  {
    hide BlankLineAt;
    var s, e := payload + BLANK_LINE + rest, |payload|;
    BlankLineLater(payload, rest, 0);
    if LaterBlankLine(s, e) {
      var k :| e < k < |s| && BlankLineAt(s, k);
      if k >= e + 4 {
        BlankLineLater(payload, rest, k - e - 4);
      }
    } else if !KeepsEnd(rest) && !StartsWithLineEnd(rest) {
      var k :| 0 <= k < |rest| && BlankLineAt(rest, k);
      BlankLineLater(payload, rest, k);
    }
  }

  lemma EndsThere(payload: string, rest: string)
    ensures HeaderEnd(payload + BLANK_LINE + rest) == |payload| <==> KeepsEnd(rest)
  {
    hide HeaderEnd, KeepsEnd, BlankLineAt;
    BlankLineThere(payload, rest);
    HeaderEndIs(payload + BLANK_LINE + rest, |payload|);
    NoneLater(payload, rest);
  }

  lemma BlankLineThere(payload: string, rest: string)
    ensures BlankLineAt(payload + BLANK_LINE + rest, |payload|)
  {
  }

  // ----- Header lines

  /** One line: no colon, a value that would start beyond the line (std::out_of_range), or a field. */
  datatype Line = NoColon | OutOfRange | Field(name: string, value: string)

  function ParseLine(line: string): Line {
    var split := Find(line, ':', 0);
    if split == NPOS then NoColon
    else if split + 2 > |line| then OutOfRange
    else
      var valueEnd := RFind(line, '\r');
      Field(line[..split], if valueEnd < split + 2 then line[split + 2..] else line[split + 2..valueEnd])
  }

  /** The fields of some lines, or None where a line throws. */
  datatype Fields = Throws | Fields(list: seq<(string, string)>)

  function ParseLines(lines: seq<string>): Fields {
    if lines == [] then Fields([])
    else
      match ParseLine(lines[0])
      case OutOfRange => Throws
      case NoColon => ParseLines(lines[1..])
      case Field(name, value) =>
        match ParseLines(lines[1..])
        case Throws => Throws
        case Fields(list) => Fields([(name, value)] + list)
  }

  // ----- The first line

  /** The token of a line after n increments, between spaces. */
  function Word(line: string, n: nat): string { Token(line, After(line, ' ', n)) }

  /** What stands before the first carriage return. */
  function UntilReturn(s: string): string {
    var end := Find(s, '\r', 0);
    if end == NPOS then s else s[..end]
  }

  // ----- Versions

  datatype Version = UndefinedVersion | Http1_0 | Http1_1 | Http2

  function VersionFromString(s: string): Version {
    if s == "HTTP/1.0" then Http1_0 else if s == "HTTP/1.1" then Http1_1 else if s == "HTTP/2" then Http2
      else UndefinedVersion
  }

  // ----- Names of headers

  /** HttpHeaderVariant_t: a header of the enumeration, known by its text, or any other name. */
  datatype Name = Known(text: string) | Custom(text: string)
  datatype Header = Header(name: Name, value: string)

  // ----- Tokens

  lemma {:induction false} TokenIsClean(s: string, delim: char, n: nat)
    ensures var p := After(s, delim, n);
      (p.loc == NPOS || p.loc == Find(s, delim, p.lastLoc)) && delim !in Token(s, p)
      && (p.loc == NPOS ==> forall k :: p.lastLoc <= k < |s| ==> s[k] != delim)
  {
    if n > 0 {
      TokenIsClean(s, delim, n - 1);
    }
    var p := After(s, delim, n);
    if n == 0 || After(s, delim, n - 1).loc != NPOS {
      FindsFirst(s, delim, p.lastLoc);
    }
  }

  lemma TokenIsPart(s: string, delim: char, n: nat, c: char)
    requires c !in s
    ensures c !in Token(s, After(s, delim, n))
  {
  }

  /** Split undoes Join. */
  lemma {:induction false} SplitOfJoin(parts: seq<string>, delim: char)
    requires parts != [] && forall k :: 0 <= k < |parts| ==> delim !in parts[k]
    ensures Split(Join(parts, delim), delim) == parts
  {
    hide Split, Find;
    var s := Join(parts, delim);
    if |parts| == 1 {
      NoDelim(s, delim, 0);
      SplitOnce(s, delim);
    } else {
      var rest := Join(parts[1..], delim);
      SplitOfJoin(parts[1..], delim);
      FirstDelim(parts[0], rest, delim, 0);
      SplitOnce(s, delim);
      assert s[..|parts[0]|] == parts[0] && s[|parts[0]| + 1..] == rest;
    }
  }

  lemma {:induction false} NoDelim(s: string, delim: char, from: nat)
    requires forall k :: from <= k < |s| ==> s[k] != delim
    ensures Find(s, delim, from) == NPOS
    decreases |s| - from
  {
    if from < |s| {
      NoDelim(s, delim, from + 1);
    }
  }

  lemma {:induction false} FirstDelim(a: string, b: string, delim: char, from: nat)
    requires delim !in a && from <= |a|
    ensures Find(a + [delim] + b, delim, from) == |a|
    decreases |a| - from
  {
    if from < |a| {
      assert (a + [delim] + b)[from] == a[from];
      FirstDelim(a, b, delim, from + 1);
    }
  }

  /** The tokens of a payload are its lines. */
  lemma LineAt(payload: string, n: nat)
    requires !StartsWith(payload, '\n') && n <= |Split(payload, '\n')|
    ensures var lines := Split(payload, '\n');
      && (AtEnd(After(payload, '\n', n)) <==> n == |lines|)
      && (n < |lines| ==> Token(payload, After(payload, '\n', n)) == lines[n])
  {
    hide Split, After, Token;
    IterationVisitsParts(payload, '\n');
  }

  lemma AfterNext(s: string, delim: char, n: nat)
    ensures After(s, delim, n + 1) == Next(s, delim, After(s, delim, n))
  {
  }
}
