/** Row folding and unfolding of a coded sequence (Folding.cpp: `folding`, `unfolding`).

    `folding` regroups a flat sequence into rows of width `m` for an M-ary
    modulator; `unfolding` concatenates rows back into one sequence. Neither
    looks at the values it moves, so both are generic in the element type.
 */
module Folding {

  function Min(a: int, b: int): int { if a <= b then a else b }

  // ---------------------------------------------------------------------------
  // Euclidean division facts used by the row arithmetic i / m, i % m.

  lemma DivModUnique(a: int, m: int, q: int, r: int)
    requires m >= 1 && 0 <= r < m && a == q * m + r
    ensures a / m == q && a % m == r
  {
    var q', r' := a / m, a % m;
    assert a == q' * m + r';
    if q' > q {
      MulMonotone(q + 1, q', m);
    } else if q' < q {
      MulMonotone(q' + 1, q, m);
    }
  }

  lemma MulMonotone(a: int, b: int, m: int)
    requires a <= b && m >= 0
    ensures a * m <= b * m
  {
    assert b * m - a * m == (b - a) * m;
  }

  /** Dropping one full row lowers the quotient by one and keeps the remainder. */
  lemma DivSub(a: int, m: int)
    requires m >= 1 && a >= m
    ensures (a - m) / m == a / m - 1 && (a - m) % m == a % m
  {
    DivModUnique(a - m, m, a / m - 1, a % m);
  }

  /** Index i of a sequence of length n falls in one of its ceil(n / m) rows. */
  lemma RowOfIndex(n: int, m: int, i: int)
    requires m >= 1 && 0 <= i < n
    ensures i / m < (n + m - 1) / m
    ensures (i / m) * m + i % m == i && 0 <= i % m < m
  {
    var q, c := i / m, (n + m - 1) / m;
    assert c * m >= n by {
      assert c * m + (n + m - 1) % m == n + m - 1;
    }
    if c <= q { MulMonotone(c, q, m); }
  }

  /** When m divides n, each of the n / m rows lies wholly inside the sequence. */
  lemma RowFits(n: int, m: int, k: int)
    requires m >= 1 && n >= 0 && n % m == 0 && 0 <= k < n / m
    ensures k * m + m <= n
  {
    MulMonotone(k + 1, n / m, m);
  }

  /** When m divides n, n / m rounded up is n / m itself. */
  lemma CeilDivDivisible(n: nat, m: int)
    requires m >= 1 && n % m == 0
    ensures (n + m - 1) / m == n / m
  {
    DivModUnique(n + m - 1, m, n / m, m - 1);
  }

  // ---------------------------------------------------------------------------
  // Specification functions.

  /** `v` cut into consecutive rows of width `m`; the last row is shorter when
      `m` does not divide `|v|`. */
  function Chunks<T>(v: seq<T>, m: int): seq<seq<T>>
    requires m >= 1
    decreases |v|
  {
    if v == [] then []
    else if |v| <= m then [v]
    else [v[..m]] + Chunks(v[m..], m)
  }

  /** The rows joined in order. */
  function Concat<T>(rows: seq<seq<T>>): seq<T>
  {
    if rows == [] then [] else rows[0] + Concat(rows[1..])
  }

  /** The sum of the row lengths. */
  function SumLengths<T>(rows: seq<seq<T>>): nat
  {
    if rows == [] then 0 else |rows[0]| + SumLengths(rows[1..])
  }

  // ---------------------------------------------------------------------------
  // Properties of the specification.

  /** There are ceil(|v| / m) rows. */
  lemma {:induction false} ChunksCount<T>(v: seq<T>, m: int)
    requires m >= 1
    ensures |Chunks(v, m)| == (|v| + m - 1) / m
    decreases |v|
  {
    if v == [] {
      DivModUnique(m - 1, m, 0, m - 1);
    } else if |v| <= m {
      DivModUnique(|v| + m - 1, m, 1, |v| - 1);
    } else {
      ChunksCount(v[m..], m);
      DivSub(|v| + m - 1, m);
    }
  }

  /** Row k holds v[k*m .. min(k*m + m, |v|)]. */
  lemma {:induction false} ChunkAt<T>(v: seq<T>, m: int, k: int)
    requires m >= 1 && 0 <= k < |Chunks(v, m)|
    ensures k * m < Min(k * m + m, |v|) <= |v|
    ensures Chunks(v, m)[k] == v[k * m .. Min(k * m + m, |v|)]
    decreases |v|
  {
    if k > 0 {
      var rest := v[m..];
      assert Chunks(v, m)[k] == Chunks(rest, m)[k - 1];
      ChunkAt(rest, m, k - 1);
      var lo := (k - 1) * m;
      assert lo + m == k * m;
      var hi := Min(lo + m, |rest|);
      assert hi + m == Min(k * m + m, |v|);
      assert rest[lo .. hi] == v[lo + m .. hi + m];
    }
  }

  /** Every row is non-empty and at most `m` long; the rows account for all of `v`. */
  lemma {:induction false} ChunksRowLengths<T>(v: seq<T>, m: int)
    requires m >= 1
    ensures forall k :: 0 <= k < |Chunks(v, m)| ==> 1 <= |Chunks(v, m)[k]| <= m
    ensures SumLengths(Chunks(v, m)) == |v|
    decreases |v|
  {
    if v != [] && |v| > m {
      ChunksRowLengths(v[m..], m);
      var c := Chunks(v, m);
      assert c[1..] == Chunks(v[m..], m);
      forall k | 1 <= k < |c| ensures 1 <= |c[k]| <= m {
        assert c[k] == Chunks(v[m..], m)[k - 1];
      }
    }
  }

  /** Element i lands in row i / m, column i % m. */
  lemma ChunksPlacement<T>(v: seq<T>, m: int, i: int)
    requires m >= 1 && 0 <= i < |v|
    ensures i / m < |Chunks(v, m)| && i % m < |Chunks(v, m)[i / m]|
    ensures Chunks(v, m)[i / m][i % m] == v[i]
  {
    RowOfIndex(|v|, m, i);
    ChunksCount(v, m);
    ChunkAt(v, m, i / m);
  }

  /** Round trip: joining the rows gives back the sequence, for every `m >= 1`. */
  lemma {:induction false} ConcatChunks<T>(v: seq<T>, m: int)
    requires m >= 1
    ensures Concat(Chunks(v, m)) == v
    decreases |v|
  {
    if v != [] && |v| > m {
      ConcatChunks(v[m..], m);
      assert ([v[..m]] + Chunks(v[m..], m))[1..] == Chunks(v[m..], m);
    }
  }

  /** The other direction: rows of width exactly `m`, joined and cut again, are unchanged. */
  lemma {:induction false} ChunksConcat<T>(rows: seq<seq<T>>, m: int)
    requires m >= 1
    requires forall k :: 0 <= k < |rows| ==> |rows[k]| == m
    ensures Chunks(Concat(rows), m) == rows
    decreases |rows|
  {
    if rows != [] {
      var tail := rows[1..];
      ChunksConcat(tail, m);
      var flat := Concat(rows);
      assert flat == rows[0] + Concat(tail);
      assert flat[..m] == rows[0] && flat[m..] == Concat(tail);
      if tail == [] {
        assert flat == rows[0] && |flat| == m;
        assert Chunks(flat, m) == [flat];
        assert rows == [rows[0]];
      } else {
        assert |Concat(tail)| > 0 by { assert Concat(tail) == tail[0] + Concat(tail[1..]); }
        assert rows == [rows[0]] + tail;
      }
    }
  }

  /** The joined sequence is as long as the row lengths add up to. */
  lemma {:induction false} ConcatLength<T>(rows: seq<seq<T>>)
    ensures |Concat(rows)| == SumLengths(rows)
    decreases |rows|
  {
    if rows != [] { ConcatLength(rows[1..]); }
  }

  lemma {:induction false} ConcatSnoc<T>(rows: seq<seq<T>>, w: seq<T>)
    ensures Concat(rows + [w]) == Concat(rows) + w
    decreases |rows|
  {
    if rows == [] {
      assert [] + [w] == [w];
    } else {
      assert (rows + [w])[1..] == rows[1..] + [w];
      ConcatSnoc(rows[1..], w);
    }
  }

  lemma {:induction false} SumLengthsSnoc<T>(rows: seq<seq<T>>, w: seq<T>)
    ensures SumLengths(rows + [w]) == SumLengths(rows) + |w|
    decreases |rows|
  {
    if rows == [] {
      assert [] + [w] == [w];
    } else {
      assert (rows + [w])[1..] == rows[1..] + [w];
      SumLengthsSnoc(rows[1..], w);
    }
  }

  // ---------------------------------------------------------------------------
  // The source's operations.

  /** `folding` (Folding.cpp:14-50): allocate |v| / m empty rows and append v[i]
      to row i / m. The source also builds a separator string from v[0] and a sum,
      both only printed; reading v[0] there is why `v` must be non-empty. A length
      that `m` does not divide would index past the last allocated row. */
  method Fold<T>(v: seq<T>, m: int) returns (res: seq<seq<T>>)
    requires m >= 1 && |v| > 0 && |v| % m == 0
    ensures res == Chunks(v, m)
    ensures |res| == |v| / m
    ensures forall k :: 0 <= k < |res| ==> |res[k]| == m
  {
    var n := |v|;
    res := seq(n / m, _ => []);
    for i := 0 to n
      invariant |res| == n / m
      invariant forall k :: 0 <= k < |res| ==> res[k] == Filled(v, m, i, k)
    {
      var q := i / m;
      RowOfIndex(n, m, i);
      CeilDivDivisible(n, m);
      res := res[q := res[q] + [v[i]]];
      forall k | 0 <= k < |res| ensures res[k] == Filled(v, m, i + 1, k) {
        FilledStep(v, m, i, q, k);
      }
    }
    ChunksCount(v, m);
    CeilDivDivisible(n, m);
    forall k | 0 <= k < |res| ensures res[k] == Chunks(v, m)[k] && |res[k]| == m {
      FilledComplete(v, m, k);
    }
  }

  /** Row k after the first i elements have been pushed: the part of
      v[k*m .. k*m + m] that lies below i. */
  function Filled<T>(v: seq<T>, m: int, i: int, k: int): seq<T>
    requires m >= 1 && 0 <= i <= |v| && k >= 0
  {
    if i <= k * m then [] else v[k * m .. Min(k * m + m, i)]
  }

  /** Once all of `v` is pushed, row k is the k-th row of `Chunks` and full. */
  lemma FilledComplete<T>(v: seq<T>, m: int, k: int)
    requires m >= 1 && |v| % m == 0 && 0 <= k < |v| / m
    ensures k < |Chunks(v, m)| && Filled(v, m, |v|, k) == Chunks(v, m)[k]
    ensures |Filled(v, m, |v|, k)| == m
  {
    ChunksCount(v, m);
    CeilDivDivisible(|v|, m);
    RowFits(|v|, m, k);
    ChunkAt(v, m, k);
  }

  /** Pushing v[i], which belongs to row q, extends row q and leaves every other row as it was. */
  lemma FilledStep<T>(v: seq<T>, m: int, i: int, q: int, k: int)
    requires m >= 1 && 0 <= i < |v| && k >= 0 && q * m <= i < q * m + m
    ensures k == q ==> Filled(v, m, i + 1, k) == Filled(v, m, i, k) + [v[i]]
    ensures k != q ==> Filled(v, m, i + 1, k) == Filled(v, m, i, k)
  {
    if k == q {
      assert v[k * m .. i + 1] == v[k * m .. i] + [v[i]];
    } else if k < q {
      MulMonotone(k + 1, q, m);
    } else {
      MulMonotone(q + 1, k, m);
    }
  }

  /** The size tally of `unfolding` (Folding.cpp:57-58): the sum of the row lengths. */
  method TotalSize<T>(v: seq<seq<T>>) returns (size: nat)
    ensures size == SumLengths(v)
    ensures size == |Concat(v)|
  {
    size := 0;
    for i := 0 to |v|
      invariant size == SumLengths(v[..i])
    {
      assert v[..i + 1] == v[..i] + [v[i]];
      SumLengthsSnoc(v[..i], v[i]);
      size := size + |v[i]|;
    }
    assert v[..|v|] == v;
    ConcatLength(v);
  }

  /** `unfolding` (Folding.cpp:55-71): reserve the total size, then push every
      element of every row in order. `m` is not used; rows may be ragged or empty. */
  method Unfold<T>(v: seq<seq<T>>, m: int) returns (res: seq<T>)
    ensures res == Concat(v)
    ensures |res| == SumLengths(v)
  {
    var size := TotalSize(v);  // only sizes the reservation
    res := [];
    for r := 0 to |v|
      invariant res == Concat(v[..r])
      invariant |res| <= size
    {
      var w := v[r];
      assert v[..r + 1] == v[..r] + [w];
      ConcatSnoc(v[..r], w);
      ConcatLength(v[..r + 1]);
      assert v == v[..r + 1] + v[r + 1..];
      SumLengthsAppend(v[..r + 1], v[r + 1..]);
      for j := 0 to |w|
        invariant res == Concat(v[..r]) + w[..j]
      {
        assert w[..j + 1] == w[..j] + [w[j]];
        res := res + [w[j]];
      }
      assert w[..|w|] == w;
    }
    assert v[..|v|] == v;
    ConcatLength(v);
  }

  lemma {:induction false} SumLengthsAppend<T>(a: seq<seq<T>>, b: seq<seq<T>>)
    ensures SumLengths(a + b) == SumLengths(a) + SumLengths(b)
    decreases |a|
  {
    if a == [] {
      assert a + b == b;
    } else {
      assert (a + b)[1..] == a[1..] + b;
      SumLengthsAppend(a[1..], b);
    }
  }

  /** Folding then unfolding restores the input (the composition commented out at main.cpp:141-142). */
  lemma RoundTrip<T>(v: seq<T>, m: int)
    requires m >= 1 && |v| % m == 0
    ensures |Chunks(v, m)| == |v| / m
    ensures Concat(Chunks(v, m)) == v
  {
    ChunksCount(v, m);
    CeilDivDivisible(|v|, m);
    ConcatChunks(v, m);
  }
}
