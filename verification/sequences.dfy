/** List and string helpers with Python's meaning: boolean-mask selection
    (`df[mask]`, `df.loc[mask, col].tolist()`), `",".join(...)` and
    `str.split(",")`, and the ASCII decimal digits. */
module Sequences {

  /** An ASCII decimal digit, and its value. */
  predicate IsDigit(ch: char) { '0' <= ch <= '9' }

  function DigitValue(ch: char): (n: int)
    requires IsDigit(ch)
    ensures 0 <= n <= 9
  {
    ch as int - '0' as int
  }

  /** The elements of `xs` that satisfy `keep`, in their original order. */
  function Filter<T>(xs: seq<T>, keep: T -> bool): (r: seq<T>)
    ensures |r| <= |xs|
    ensures forall x :: x in r ==> x in xs && keep(x)
  {
    if xs == [] then [] else (if keep(xs[0]) then [xs[0]] else []) + Filter(xs[1..], keep)
  }

  /** Selection distributes over concatenation: relative order is kept. */
  lemma {:induction false} FilterAppend<T>(a: seq<T>, b: seq<T>, keep: T -> bool)
    ensures Filter(a + b, keep) == Filter(a, keep) + Filter(b, keep)
  {
    if a == [] {
      assert a + b == b;
    } else {
      assert (a + b)[1..] == a[1..] + b;
      FilterAppend(a[1..], b, keep);
    }
  }

  /** Every element that satisfies `keep` is selected. */
  lemma {:induction false} FilterSelects<T>(xs: seq<T>, keep: T -> bool, i: int)
    requires 0 <= i < |xs| && keep(xs[i])
    ensures xs[i] in Filter(xs, keep)
  {
    if i > 0 {
      FilterSelects(xs[1..], keep, i - 1);
    }
  }

  /** When every element satisfies `keep`, nothing is removed. */
  lemma {:induction false} FilterAll<T>(xs: seq<T>, keep: T -> bool)
    requires forall i :: 0 <= i < |xs| ==> keep(xs[i])
    ensures Filter(xs, keep) == xs
  {
    if xs != [] {
      FilterAll(xs[1..], keep);
    }
  }

  /** When no element satisfies `keep`, nothing is selected. */
  lemma {:induction false} FilterNone<T>(xs: seq<T>, keep: T -> bool)
    ensures Filter(xs, keep) == [] <==> forall i :: 0 <= i < |xs| ==> !keep(xs[i])
  {
    if xs != [] {
      FilterNone(xs[1..], keep);
      if Filter(xs, keep) == [] {
        forall i | 0 <= i < |xs| ensures !keep(xs[i]) {
          if i > 0 { assert xs[i] == xs[1..][i - 1]; }
        }
      }
    }
  }

  /** When exactly one element satisfies `keep`, it alone is selected. */
  lemma {:induction false} FilterOnly<T>(xs: seq<T>, keep: T -> bool, k: nat)
    requires k < |xs| && keep(xs[k])
    requires forall j :: 0 <= j < |xs| && keep(xs[j]) ==> j == k
    ensures Filter(xs, keep) == [xs[k]]
  {
    var tail := xs[1..];
    if k == 0 {
      forall i | 0 <= i < |tail| ensures !keep(tail[i]) {
        assert tail[i] == xs[i + 1];
      }
      FilterNone(tail, keep);
    } else {
      forall j | 0 <= j < |tail| && keep(tail[j]) ensures j == k - 1 {
        assert tail[j] == xs[j + 1];
      }
      FilterOnly(tail, keep, k - 1);
    }
  }

  /** `f` applied to every element, in order. */
  function Map<A, B>(xs: seq<A>, f: A -> B): (r: seq<B>)
    ensures |r| == |xs| && forall i :: 0 <= i < |xs| ==> r[i] == f(xs[i])
  {
    if xs == [] then [] else [f(xs[0])] + Map(xs[1..], f)
  }

  /** Selecting then projecting is selecting on the projections, when the
      two masks agree element by element. */
  lemma {:induction false} FilterCorresponds<A, B>(xs: seq<A>, ys: seq<B>, keepX: A -> bool, keepY: B -> bool, f: A -> B)
    requires |xs| == |ys|
    requires forall i :: 0 <= i < |xs| ==> f(xs[i]) == ys[i] && keepX(xs[i]) == keepY(ys[i])
    ensures Map(Filter(xs, keepX), f) == Filter(ys, keepY)
  {
    if xs != [] {
      FilterCorresponds(xs[1..], ys[1..], keepX, keepY, f);
      var head := if keepX(xs[0]) then [xs[0]] else [];
      MapAppend(head, Filter(xs[1..], keepX), f);
    }
  }

  lemma {:induction false} MapAppend<A, B>(a: seq<A>, b: seq<A>, f: A -> B)
    ensures Map(a + b, f) == Map(a, f) + Map(b, f)
  {
  }

  /** `sep.join(parts)`. */
  function Join(parts: seq<string>, sep: char): (s: string)
    decreases |parts|
  {
    if parts == [] then ""
    else if |parts| == 1 then parts[0]
    else parts[0] + [sep] + Join(parts[1..], sep)
  }

  /** The position of the first `c` in `s`. */
  function FirstIndex(s: string, c: char): (i: nat)
    requires c in s
    ensures i < |s| && s[i] == c && c !in s[..i]
  {
    if s[0] == c then 0 else 1 + FirstIndex(s[1..], c)
  }

  /** A position holding `c` with no `c` before it is the first one. */
  lemma FirstIndexAt(s: string, c: char, i: nat)
    requires i < |s| && s[i] == c && c !in s[..i]
    ensures c in s && FirstIndex(s, c) == i
  {
  }

  /** `s.split(sep)`: never empty; `""` splits into `[""]`. */
  function Split(s: string, sep: char): (parts: seq<string>)
    ensures |parts| >= 1
    ensures forall p :: p in parts ==> sep !in p
    decreases |s|
  {
    if sep !in s then [s]
    else
      var i := FirstIndex(s, sep);
      [s[..i]] + Split(s[i + 1..], sep)
  }

  /** Joining then splitting gives the parts back, provided there is at least
      one part and no part contains the separator (`",".join([])` and
      `",".join([""])` are both `""`). */
  lemma {:induction false} SplitJoin(parts: seq<string>, sep: char)
    requires parts != []
    requires forall p :: p in parts ==> sep !in p
    ensures Split(Join(parts, sep), sep) == parts
    decreases |parts|
  {
    if |parts| > 1 {
      assert parts[0] in parts;
      SeparatorFirst(parts[0], sep, Join(parts[1..], sep));
      SplitJoin(parts[1..], sep);
    }
  }

  /** In `x + [sep] + rest` with no `sep` in `x`, the first separator ends `x`. */
  lemma SeparatorFirst(x: string, sep: char, rest: string)
    requires sep !in x
    ensures var s := x + [sep] + rest;
      sep in s && FirstIndex(s, sep) == |x| && s[..|x|] == x && s[|x| + 1..] == rest
  {
    var s := x + [sep] + rest;
    assert s[..|x|] == x;
    assert s[|x|] == sep;
    FirstIndexAt(s, sep, |x|);
    assert s[|x| + 1..] == rest;
  }
}
