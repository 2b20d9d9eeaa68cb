/** Sequence operations the board is built from: Kotlin's `flatMap`, `map`,
    `filterNotNull` and `getOrNull`, with the facts about them the board needs. */
module Sequences {
  import opened Options

  /** No element occurs twice. */
  predicate Distinct<T(==)>(s: seq<T>)
  {
    forall p, q | 0 <= p < q < |s| :: s[p] != s[q]
  }

  /** `Array.getOrNull`: the element at `index`, or None when the index is outside the array. */
  function GetOrNull<T>(s: seq<T>, index: int): Option<T>
  {
    if 0 <= index < |s| then Some(s[index]) else None
  }

  /** The rows concatenated in order (`flatMap { row -> row.toList() }`). */
  function Flatten<T>(rows: seq<seq<T>>): seq<T>
  {
    if |rows| == 0 then [] else rows[0] + Flatten(rows[1..])
  }

  /** `map`: `f` applied to every element, in order. */
  function Map<A, B>(f: A -> B, xs: seq<A>): (r: seq<B>)
    ensures |r| == |xs|
    ensures forall k | 0 <= k < |xs| :: r[k] == f(xs[k])
  {
    if |xs| == 0 then [] else [f(xs[0])] + Map(f, xs[1..])
  }

  /** `filterNotNull`: the present values, in order. */
  function FilterNotNull<T(==)>(xs: seq<Option<T>>): (r: seq<T>)
    ensures |r| <= |xs|
    ensures forall y | y in r :: Some(y) in xs
    ensures forall k | 0 <= k < |xs| && xs[k].Some? :: xs[k].value in r
  {
    if |xs| == 0 then []
    else
      var rest := FilterNotNull(xs[1..]);
      assert xs == [xs[0]] + xs[1..];
      match xs[0]
      case Some(v) => [v] + rest
      case None => rest
  }

  /** `filterNotNull` of a sequence is the result of its head followed by that of its tail. */
  lemma FilterNotNullCons<T>(x: Option<T>, ys: seq<Option<T>>)
    ensures FilterNotNull([x] + ys) == FilterNotNull([x]) + FilterNotNull(ys)
  {
    assert ([x] + ys)[1..] == ys;
    assert [x][1..] == [];
  }

  /** Euclidean quotient and remainder are the unique `q`, `r` with `k == q * w + r`, `0 <= r < w`. */
  lemma DivModUnique(k: int, w: int, q: int, r: int)
    requires 0 < w && 0 <= r < w && k == q * w + r
    ensures k / w == q && k % w == r
  {
    var q', r' := k / w, k % w;
    assert k == q' * w + r';
    var d := q - q';
    assert d * w == r' - r by {
      assert d * w == q * w - q' * w;
    }
    if d > 0 {
      MulAtLeast(d, w);
    } else if d < 0 {
      MulAtLeast(-d, w);
    }
  }

  lemma MulAtLeast(d: int, w: int)
    requires 1 <= d && 0 < w
    ensures w <= d * w
  {
    assert d * w == w + (d - 1) * w;
  }

  /** Row `k / w` of a row-major index below `n * w` is a row of the grid. */
  lemma DivBelow(k: int, w: int, n: int)
    requires 0 < w && 0 <= k < n * w
    ensures 0 <= k / w < n && 0 <= k % w < w && k == (k / w) * w + k % w
  {
    var q, r := k / w, k % w;
    assert k == q * w + r && 0 <= r < w;
  }

  /** Flattening `|rows|` rows of length `w` gives `|rows| * w` elements. */
  lemma {:induction false} FlattenLength<T>(rows: seq<seq<T>>, w: nat)
    requires forall a | 0 <= a < |rows| :: |rows[a]| == w
    ensures |Flatten(rows)| == |rows| * w
  {
    if |rows| > 0 {
      FlattenLength(rows[1..], w);
      assert |rows| * w == w + (|rows| - 1) * w;
    }
  }

  /** In the flattening of rows of length `w`, index `a * w + c` holds `rows[a][c]`. */
  lemma {:induction false} FlattenAt<T>(rows: seq<seq<T>>, w: nat, a: int, c: int)
    requires forall n | 0 <= n < |rows| :: |rows[n]| == w
    requires 0 <= a < |rows| && 0 <= c < w
    ensures 0 <= a * w + c < |Flatten(rows)|
    ensures Flatten(rows)[a * w + c] == rows[a][c]
  {
    var rest := rows[1..];
    assert Flatten(rows) == rows[0] + Flatten(rest);
    FlattenLength(rest, w);
    if a > 0 {
      FlattenAt(rest, w, a - 1, c);
      assert a * w + c == w + ((a - 1) * w + c);
      assert Flatten(rows)[a * w + c] == Flatten(rest)[(a - 1) * w + c];
    } else {
      assert a * w + c == c;
    }
  }
}
