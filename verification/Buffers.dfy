/** Where a text stands in a buffer, and an element in a table written in rows. */
module Buffers {

  /** mem holds b at position at. */
  predicate Holds<T(==)>(mem: seq<T>, at: nat, b: seq<T>) {
    at + |b| <= |mem| && mem[at..at + |b|] == b
  }

  lemma HoldsParts<T>(mem: seq<T>, at: nat, a: seq<T>, b: seq<T>)
    ensures Holds(mem, at, a + b) <==> Holds(mem, at, a) && Holds(mem, at + |a|, b)
  {
    if Holds(mem, at, a + b) {
      assert mem[at..at + |a|] == (a + b)[..|a|];
      assert mem[at + |a|..at + |a + b|] == (a + b)[|a|..];
    }
  }

  lemma HoldsTwo<T>(mem: seq<T>, at: nat, a: seq<T>, b: seq<T>)
    requires Holds(mem, at, a + b) && b != []
    ensures Holds(mem, at, a) && Holds(mem, at + |a|, b) && at + |a| < |mem| && mem[at + |a|] == b[0]
    ensures a != [] ==> mem[at] == a[0]
  {
    HoldsParts(mem, at, a, b);
    HoldsAt(mem, at + |a|, b, 0);
    if a != [] {
      HoldsAt(mem, at, a, 0);
    }
  }

  lemma HoldsThree<T>(mem: seq<T>, at: nat, a: seq<T>, b: seq<T>, c: seq<T>)
    requires Holds(mem, at, a + (b + c)) && c != []
    ensures Holds(mem, at, a) && Holds(mem, at + |a|, b) && Holds(mem, at + |a| + |b|, c)
    ensures at + |a| + |b| < |mem| && mem[at + |a| + |b|] == c[0]
  {
    HoldsParts(mem, at, a, b + c);
    HoldsParts(mem, at + |a|, b, c);
    HoldsAt(mem, at + |a| + |b|, c, 0);
  }

  lemma HoldsAt<T>(mem: seq<T>, at: nat, b: seq<T>, i: nat)
    requires Holds(mem, at, b) && i < |b|
    ensures at + i < |mem| && mem[at + i] == b[i]
  {
    assert mem[at..at + |b|][i] == b[i];
  }

  /** Element t of a table made of eight rows, all but the last of eight. */
  lemma RowElement<T>(a: seq<T>, b: seq<T>, c: seq<T>, d: seq<T>, e: seq<T>, f: seq<T>, g: seq<T>, h: seq<T>, t: nat)
    requires |a| == |b| == |c| == |d| == |e| == |f| == |g| == 8 && t < 56 + |h|
    ensures (((a + b) + (c + d)) + ((e + f) + (g + h)))[t]
         == if t < 8 then a[t] else if t < 16 then b[t - 8] else if t < 24 then c[t - 16] else if t < 32 then d[t - 24]
            else if t < 40 then e[t - 32] else if t < 48 then f[t - 40] else if t < 56 then g[t - 48] else h[t - 56]
  {
  }
}
