/** The Tokenizer of basis/fwoop_tokenizer.cpp: an iterator over the parts of a string between
    delimiters. */
module Tokenizer {

  /** std::string::npos */
  const NPOS := -1

  /** std::string::find of one character */
  function Find(s: string, c: char, from: nat): (r: int)
    ensures r == NPOS || from <= r < |s|
    decreases |s| - from
  {
    if from >= |s| then NPOS else if s[from] == c then from else Find(s, c, from + 1)
  }

  /** It is the first one at or after from. */
  lemma {:induction false} FindsFirst(s: string, c: char, from: nat)
    ensures var r := Find(s, c, from);
      (r != NPOS ==> s[r] == c) && forall k :: from <= k < (if r == NPOS then |s| else r) ==> s[k] != c
    decreases |s| - from
  {
    if from < |s| && s[from] != c {
      FindsFirst(s, c, from + 1);
    }
  }

  /** Where an iterator stands: d_isEnd, d_lastLoc and d_loc. */
  datatype Place = Place(isEnd: bool, lastLoc: nat, loc: int)

  predicate In(s: string, p: Place) {
    p.lastLoc <= |s| && (p.loc == NPOS || p.lastLoc <= p.loc < |s|)
  }

  /** operator++ on a place inside s. */
  function Next(s: string, delim: char, p: Place): (r: Place)
    requires In(s, p)
    ensures In(s, r)
  {
    if p.loc == NPOS then p.(isEnd := true)
    else
      var lastLoc := if p.loc > 0 then p.loc + 1 else 0;
      p.(lastLoc := lastLoc, loc := Find(s, delim, lastLoc))
  }

  /** operator* */
  function Token(s: string, p: Place): string
    requires In(s, p)
  {
    s[p.lastLoc..if p.loc == NPOS then |s| else p.loc]
  }

  /** operator== with end() */
  predicate AtEnd(p: Place) { p.isEnd && p.loc == NPOS }

  class Iterator {
    const d_parseString: string
    const d_delim: char
    var d_isEnd: bool
    var d_lastLoc: nat
    var d_loc: int

    ghost predicate Valid()
      reads this
    {
      In(d_parseString, At())
    }

    function At(): Place
      reads this
    {
      Place(d_isEnd, d_lastLoc, d_loc)
    }

    /** begin(): the constructor moves to the first token. */
    constructor (parseString: string, delim: char)
      ensures d_parseString == parseString && d_delim == delim
      ensures Valid() && At() == After(parseString, delim, 0)
    {
      d_parseString, d_delim := parseString, delim;
      d_isEnd, d_lastLoc, d_loc := false, 0, Find(parseString, delim, 0);
    }

    /** operator++ */
    method Advance()
      requires Valid()
      modifies this
      ensures Valid() && At() == Next(d_parseString, d_delim, old(At()))
    {
      if d_loc == NPOS {
        d_isEnd := true;
        return;
      }
      d_lastLoc := if d_loc > 0 then d_loc + 1 else 0;
      d_loc := Find(d_parseString, d_delim, d_lastLoc);
    }

    /** operator* */
    function Current(): (t: string)
      requires Valid()
      reads this
      ensures t == Token(d_parseString, At())
    {
      d_parseString[d_lastLoc..if d_loc == NPOS then |d_parseString| else d_loc]
    }
  }

  /** begin() followed by n increments. */
  function After(s: string, delim: char, n: nat): (p: Place)
    ensures In(s, p)
  {
    if n == 0 then Place(false, 0, Find(s, delim, 0)) else Next(s, delim, After(s, delim, n - 1))
  }

  /** The loop from begin to end stops after n tokens, if not before. */
  predicate EndsAfter(s: string, delim: char, n: nat) { AtEnd(After(s, delim, n)) }

  // ----- The parts of a string

  function Count(s: string, delim: char): nat {
    if s == "" then 0 else (if s[0] == delim then 1 else 0) + Count(s[1..], delim)
  }

  /** The parts of s between delimiters. */
  function Split(s: string, delim: char): (parts: seq<string>)
    ensures parts != []
    decreases |s|
  {
    var i := Find(s, delim, 0);
    if i == NPOS then [s] else [s[..i]] + Split(s[i + 1..], delim)
  }

  function Join(parts: seq<string>, delim: char): string {
    if parts == [] then "" else if |parts| == 1 then parts[0] else parts[0] + [delim] + Join(parts[1..], delim)
  }

  lemma {:induction false} CountParts(s: string, t: string, delim: char)
    requires delim !in s
    ensures Count(s + [delim] + t, delim) == 1 + Count(t, delim) && Count(s, delim) == 0
  {
    if s == "" {
      assert (s + [delim] + t)[1..] == t;
    } else {
      assert (s + [delim] + t)[1..] == s[1..] + [delim] + t;
      CountParts(s[1..], t, delim);
    }
  }

  /** Split is what it should be: one part more than there are delimiters, none of them in a part, and
      joined with delimiters the parts are the string. */
  lemma {:induction false} SplitIsRight(s: string, delim: char)
    ensures var parts := Split(s, delim);
      && |parts| == Count(s, delim) + 1 && Join(parts, delim) == s
      && forall k :: 0 <= k < |parts| ==> delim !in parts[k]
    decreases |s|
  {
    var i := Find(s, delim, 0);
    FindsFirst(s, delim, 0);
    if i == NPOS {
      CountParts(s, "", delim);
    } else {
      SplitIsRight(s[i + 1..], delim);
      CountParts(s[..i], s[i + 1..], delim);
      assert s == s[..i] + [delim] + s[i + 1..];
      assert Split(s, delim)[1..] == Split(s[i + 1..], delim);
    }
  }

  lemma {:induction false} FindInSlice(s: string, delim: char, from: nat, i: nat)
    requires from <= i <= |s|
    ensures Find(s[from..], delim, i - from) == if Find(s, delim, i) == NPOS then NPOS else Find(s, delim, i) - from
    decreases |s| - i
  {
    if i < |s| && s[i] != delim {
      FindInSlice(s, delim, from, i + 1);
    }
  }

  predicate StartsWith(s: string, delim: char) { s != "" && s[0] == delim }

  lemma SliceOfSlice(s: string, from: nat, i: nat)
    requires from <= i < |s|
    ensures s[from..][..i - from] == s[from..i] && s[from..][i - from + 1..] == s[i + 1..]
  {
  }

  /** The parts from a position on: up to the next delimiter, and those after it. */
  lemma PartsFrom(s: string, delim: char, from: nat)
    requires from <= |s|
    ensures var i := Find(s, delim, from);
      && Split(s[from..], delim) == (if i == NPOS then [s[from..]] else [s[from..i]] + Split(s[i + 1..], delim))
      && (i == NPOS <==> |Split(s[from..], delim)| == 1)
      && (i != NPOS ==> Split(s[from..], delim)[1..] == Split(s[i + 1..], delim))
  {
    hide Split, Find;
    FindInSlice(s, delim, from, from);
    SplitOnce(s[from..], delim);
    var i := Find(s, delim, from);
    if i != NPOS {
      SliceOfSlice(s, from, i);
    }
  }

  lemma SplitOnce(s: string, delim: char)
    ensures var i := Find(s, delim, 0);
      Split(s, delim) == if i == NPOS then [s] else [s[..i]] + Split(s[i + 1..], delim)
  {
    hide Find;
  }

  /** The iterator stands on part n, and the parts from there on are those of what is left. */
  predicate OnPart(s: string, delim: char, p: Place, n: nat) {
    && In(s, p) && n < |Split(s, delim)| && !p.isEnd && p.loc == Find(s, delim, p.lastLoc) && p.loc != 0
    && Split(s[p.lastLoc..], delim) == Split(s, delim)[n..]
  }

  lemma OnPartToken(s: string, delim: char, p: Place, n: nat)
    requires OnPart(s, delim, p, n)
    ensures Token(s, p) == Split(s, delim)[n] && (p.loc == NPOS <==> n + 1 == |Split(s, delim)|)
  {
    PartsFrom(s, delim, p.lastLoc);
    hide Split, Find;
    assert Token(s, p) == Split(s, delim)[n..][0];
  }

  lemma NextPart(s: string, delim: char, p: Place, n: nat)
    requires OnPart(s, delim, p, n) && n + 1 < |Split(s, delim)|
    ensures OnPart(s, delim, Next(s, delim, p), n + 1)
  {
    hide Split, Find;
    PartsFrom(s, delim, p.lastLoc);
    OnPartToken(s, delim, p, n);
    LaterParts(Split(s, delim), n);
  }

  lemma LaterParts(parts: seq<string>, n: nat)
    requires n < |parts|
    ensures parts[n..][1..] == parts[n + 1..]
  {
  }

  lemma {:induction false} StandsOnPart(s: string, delim: char, n: nat)
    requires !StartsWith(s, delim) && n < |Split(s, delim)|
    ensures OnPart(s, delim, After(s, delim, n), n)
  {
    if n == 0 {
      hide Split;
      assert s[0..] == s;
    } else {
      hide OnPart, Split, Find;
      StandsOnPart(s, delim, n - 1);
      NextPart(s, delim, After(s, delim, n - 1), n - 1);
    }
  }

  /** A string that starts with the delimiter is never left. */
  lemma {:induction false} StuckAtStart(s: string, delim: char, n: nat)
    requires StartsWith(s, delim)
    ensures After(s, delim, n) == Place(false, 0, 0)
  {
    if n > 0 {
      StuckAtStart(s, delim, n - 1);
    }
  }

  /** Iterating from begin to end visits the parts of the string in order and then stops, exactly when
      the string does not start with the delimiter; otherwise it never stops. */
  lemma IterationVisitsParts(s: string, delim: char)
    ensures (!StartsWith(s, delim) ==>
      var parts := Split(s, delim);
      (forall n :: 0 <= n < |parts| ==> !AtEnd(After(s, delim, n)) && Token(s, After(s, delim, n)) == parts[n])
        && AtEnd(After(s, delim, |parts|)))
    ensures (exists n: nat :: EndsAfter(s, delim, n)) <==> !StartsWith(s, delim)
  {
    if StartsWith(s, delim) {
      forall n: nat ensures !EndsAfter(s, delim, n) {
        StuckAtStart(s, delim, n);
      }
    } else {
      var parts := Split(s, delim);
      forall n | 0 <= n < |parts| ensures !AtEnd(After(s, delim, n)) && Token(s, After(s, delim, n)) == parts[n] {
        StandsOnPart(s, delim, n);
        OnPartToken(s, delim, After(s, delim, n), n);
      }
      StandsOnPart(s, delim, |parts| - 1);
      OnPartToken(s, delim, After(s, delim, |parts| - 1), |parts| - 1);
      assert EndsAfter(s, delim, |parts|);
    }
  }
}
