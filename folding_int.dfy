/** `foldingint` (Folding.cpp:76-101): the elements are written out left to right
    as one decimal string (`std::accumulate` seeded with `to_string(v[0])`), with
    a space placed before the next element whenever the string built so far
    satisfies (length + 1) % (m + 1) == 0; the string is then read back as
    whitespace-separated `int`s. For a sequence of single digits this packs every
    run of m digits into one decimal number.
 */
module FoldingInt {
  import opened Decimal
  import Folding

  /** The lambda of Folding.cpp:80-88. */
  function Joiner(a: string, b: int, m: nat): string
  {
    if (|a| + 1) % (m + 1) != 0 then a + IntToString(b) else a + " " + IntToString(b)
  }

  /** `std::accumulate(first, last, init, Joiner)`: a left fold. */
  function Accumulate(init: string, xs: seq<int>, m: nat): string
    decreases |xs|
  {
    if xs == [] then init else Accumulate(Joiner(init, xs[0], m), xs[1..], m)
  }

  /** The string built at Folding.cpp:90-92. */
  function FoldedString(v: seq<int>, m: nat): string
    requires |v| > 0
  {
    Accumulate(IntToString(v[0]), v[1..], m)
  }

  /** `foldingint(v, m)`. The source reads v[0], so `v` must be non-empty. */
  function FoldInt(v: seq<int>, m: nat): (r: seq<int>)
    requires |v| > 0
    ensures forall i :: 0 <= i < |r| ==> InIntRange(r[i])
  {
    ReadInts(FoldedString(v, m))
  }

  // ---------------------------------------------------------------------------
  // The digit-group reading of `foldingint`.

  // The vector's elements are `int`s, while `Decimal.AllDigits` and
  // `Decimal.ValueOf` describe characters of the string. `IsDigits` and
  // `DecimalValue` state the grouping on the elements themselves;
  // `ValueOfDigitString` proves that the two readings agree.

  /** Every element is a single decimal digit, as a bit vector's are. */
  predicate IsDigits(v: seq<int>) { forall i :: 0 <= i < |v| ==> 0 <= v[i] <= 9 }

  /** The group width: m itself, except that m = 0 puts a space before every element. */
  function Width(m: nat): int { if m == 0 then 1 else m }

  /** The number whose decimal digits are `g`, most significant first. */
  function DecimalValue(g: seq<int>): int
  {
    if g == [] then 0 else DecimalValue(g[..|g| - 1]) * 10 + g[|g| - 1]
  }

  /** The digits of `v` cut into groups of `w`, each group read as a number. */
  function GroupValues(v: seq<int>, w: int): seq<int>
    requires w >= 1
  {
    var c := Folding.Chunks(v, w);
    seq(|c|, k requires 0 <= k < |c| => DecimalValue(c[k]))
  }

  /** The values up to, not including, the first one that does not fit an `int`. */
  function UntilOverflow(xs: seq<int>): seq<int>
  {
    if xs == [] || !InIntRange(xs[0]) then [] else [xs[0]] + UntilOverflow(xs[1..])
  }

  /** Each digit as its character. */
  function DigitString(g: seq<int>): (s: string)
    requires IsDigits(g)
    ensures |s| == |g| && AllDigits(s)
  {
    seq(|g|, i requires 0 <= i < |g| => DigitChar(g[i]))
  }

  /** Digit groups of width `w` separated by single spaces. */
  function Render(v: seq<int>, w: int): string
    requires w >= 1 && IsDigits(v)
    decreases |v|
  {
    if |v| <= w then DigitString(v) else DigitString(v[..w]) + " " + Render(v[w..], w)
  }

  // ---------------------------------------------------------------------------

  /** The separator test of the lambda, applied to the string holding elements
      0 .. j-1 (j digits and one space per full group before the last), fires
      exactly when j is a multiple of the group width. */
  lemma SeparatorRule(j: int, len: int, m: nat)
    requires j >= 1 && len == j + (j - 1) / Width(m)
    ensures (len + 1) % (m + 1) == 0 <==> j % Width(m) == 0
  {
    if m == 0 {
      Folding.DivModUnique(len + 1, 1, len + 1, 0);
      Folding.DivModUnique(j, 1, j, 0);
    } else {
      SeparatorRuleWide(j, m, (j - 1) / m, (j - 1) % m);
    }
  }

  lemma SeparatorRuleWide(j: int, m: int, q: int, r: int)
    requires j >= 1 && m >= 1 && j - 1 == q * m + r && 0 <= r < m
    ensures ((j + q) + 1) % (m + 1) == 0 <==> j % m == 0
  {
    assert j + q + 1 == q * (m + 1) + r + 2;
    if r < m - 1 {
      Folding.DivModUnique(j + q + 1, m + 1, q, r + 2);
      Folding.DivModUnique(j, m, q, r + 1);
    } else {
      assert j + q + 1 == (q + 1) * (m + 1);
      assert j == (q + 1) * m;
      Folding.DivModUnique(j + q + 1, m + 1, q + 1, 0);
      Folding.DivModUnique(j, m, q + 1, 0);
    }
  }

  lemma {:induction false} RenderLength(v: seq<int>, w: int)
    requires w >= 1 && IsDigits(v) && |v| >= 1
    ensures |Render(v, w)| == |v| + (|v| - 1) / w
    decreases |v|
  {
    if |v| <= w {
      Folding.DivModUnique(|v| - 1, w, 0, |v| - 1);
    } else {
      RenderLength(v[w..], w);
      Folding.DivSub(|v| - 1, w);
    }
  }

  /** Appending one digit: a space first exactly when the digits so far fill whole groups. */
  lemma {:induction false} RenderSnoc(u: seq<int>, x: int, w: int)
    requires w >= 1 && IsDigits(u) && |u| >= 1 && 0 <= x <= 9
    ensures IsDigits(u + [x])
    ensures Render(u + [x], w) ==
              Render(u, w) + (if |u| % w == 0 then " " else "") + [DigitChar(x)]
    decreases |u|
  {
    if |u| <= w {
      RenderSnocShort(u, x, w);
    } else {
      var v := u + [x];
      assert v[..w] == u[..w] && v[w..] == u[w..] + [x];
      RenderSnoc(u[w..], x, w);
      Folding.DivSub(|u|, w);
    }
  }

  /** Appending to the only group: it grows, or a new group starts when it is full. */
  lemma RenderSnocShort(u: seq<int>, x: int, w: int)
    requires w >= 1 && IsDigits(u) && 1 <= |u| <= w && 0 <= x <= 9
    ensures IsDigits(u + [x])
    ensures Render(u + [x], w) ==
              Render(u, w) + (if |u| % w == 0 then " " else "") + [DigitChar(x)]
  {
    var v := u + [x];
    if |u| < w {
      Folding.DivModUnique(|u|, w, 0, |u|);
      assert DigitString(v) == DigitString(u) + [DigitChar(x)];
    } else {
      Folding.DivModUnique(|u|, w, 1, 0);
      assert v[..w] == u && v[w..] == [x];
      assert DigitString([x]) == [DigitChar(x)];
    }
  }

  /** The lambda keeps the string built so far as a prefix and appends the
      numeral of the next element, with one space in between exactly when the
      separator test holds. */
  lemma JoinerShape(a: string, b: int, m: nat)
    ensures var r, t := Joiner(a, b, m), IntToString(b);
            var gap := if (|a| + 1) % (m + 1) == 0 then 1 else 0;
            |r| == |a| + gap + |t| && r[..|a|] == a && r[|a| + gap..] == t &&
            (gap == 1 ==> r[|a|] == ' ')
  {
  }

  /** The fold only ever appends: the seed stays a prefix and every element
      adds at least one character. */
  lemma {:induction false} AccumulatePrefix(init: string, xs: seq<int>, m: nat)
    ensures var r := Accumulate(init, xs, m);
            |r| >= |init| + |xs| && r[..|init|] == init
    decreases |xs|
  {
    if xs != [] {
      var a := Joiner(init, xs[0], m);
      JoinerShape(init, xs[0], m);
      AccumulatePrefix(a, xs[1..], m);
      var r := Accumulate(a, xs[1..], m);
      assert |init| <= |a| <= |r|;
      assert r[..|init|] == r[..|a|][..|init|];
    }
  }

  /** The string `foldingint` builds starts with the numeral of `v[0]`, and
      every later element adds at least one character. */
  lemma FoldedStringPrefix(v: seq<int>, m: nat)
    requires |v| > 0
    ensures var r, t := FoldedString(v, m), IntToString(v[0]);
            |t| + |v| - 1 <= |r| && r[..|t|] == t
  {
    AccumulatePrefix(IntToString(v[0]), v[1..], m);
  }

  lemma {:induction false} AccumulateSnoc(init: string, xs: seq<int>, x: int, m: nat)
    ensures Accumulate(init, xs + [x], m) == Joiner(Accumulate(init, xs, m), x, m)
    decreases |xs|
  {
    if xs == [] {
      assert [] + [x] == [x];
    } else {
      assert (xs + [x])[1..] == xs[1..] + [x];
      AccumulateSnoc(Joiner(init, xs[0], m), xs[1..], x, m);
    }
  }

  /** The separator rule, stated on the whole string: for digits, the string the
      fold builds is the digits in groups of `Width(m)`, a space between groups,
      i.e. a space exactly before each element index that is a positive multiple
      of the width. */
  lemma {:induction false} FoldedStringGroups(v: seq<int>, m: nat)
    requires |v| > 0 && IsDigits(v)
    ensures FoldedString(v, m) == Render(v, Width(m))
    decreases |v|
  {
    if |v| == 1 {
      assert DigitString(v) == [DigitChar(v[0])];
    } else {
      var u, x := v[..|v| - 1], v[|v| - 1];
      assert v == u + [x];
      FoldedStringGroups(u, m);
      FoldedStringGroupsStep(u, x, m);
    }
  }

  lemma FoldedStringGroupsStep(u: seq<int>, x: int, m: nat)
    requires |u| > 0 && IsDigits(u) && 0 <= x <= 9
    requires FoldedString(u, m) == Render(u, Width(m))
    ensures IsDigits(u + [x]) && FoldedString(u + [x], m) == Render(u + [x], Width(m))
  {
    var w := Width(m);
    var a := FoldedString(u, m);
    RenderLength(u, w);
    SeparatorRule(|u|, |a|, m);
    var sep := (|a| + 1) % (m + 1) == 0;
    assert sep == (|u| % w == 0);
    FoldedStringSnoc(u, x, m);
    RenderSnoc(u, x, w);
  }

  /** One more digit: the fold applies the lambda once more. */
  lemma FoldedStringSnoc(u: seq<int>, x: int, m: nat)
    requires |u| > 0 && 0 <= x <= 9
    ensures FoldedString(u + [x], m) ==
              var a := FoldedString(u, m);
              a + (if (|a| + 1) % (m + 1) == 0 then " " else "") + [DigitChar(x)]
  {
    var a := FoldedString(u, m);
    assert (u + [x])[0] == u[0] && (u + [x])[1..] == u[1..] + [x];
    AccumulateSnoc(IntToString(u[0]), u[1..], x, m);
    assert FoldedString(u + [x], m) == Joiner(a, x, m);
    assert IntToString(x) == [DigitChar(x)];
  }

  lemma {:induction false} ValueOfDigitString(g: seq<int>)
    requires IsDigits(g)
    ensures ValueOf(DigitString(g)) == DecimalValue(g)
    decreases |g|
  {
    if g != [] {
      var h := g[..|g| - 1];
      assert DigitString(g)[..|g| - 1] == DigitString(h);
      ValueOfDigitString(h);
    }
  }

  /** One group followed by a space (or the end) reads as its decimal value. */
  lemma ExtractGroup(g: seq<int>, rest: string)
    requires IsDigits(g) && |g| >= 1
    requires rest == [] || rest[0] == ' '
    ensures Extract(DigitString(g) + rest) ==
              if InIntRange(DecimalValue(g)) then Some((DecimalValue(g), rest)) else None
  {
    ExtractUnsigned(DigitString(g), rest);
    ValueOfDigitString(g);
  }

  /** Reading the grouped string yields the group values, up to the first that overflows. */
  lemma {:induction false} ReadRender(v: seq<int>, w: int)
    requires w >= 1 && IsDigits(v) && |v| >= 1
    ensures ReadInts(Render(v, w)) == UntilOverflow(GroupValues(v, w))
    decreases |v|
  {
    if |v| <= w {
      ReadRenderLast(v, w);
    } else {
      ReadRender(v[w..], w);
      ReadRenderStep(v, w);
    }
  }

  /** The last (or only) group. */
  lemma ReadRenderLast(v: seq<int>, w: int)
    requires w >= 1 && IsDigits(v) && 1 <= |v| <= w
    ensures ReadInts(Render(v, w)) == UntilOverflow(GroupValues(v, w))
  {
    var dv := DecimalValue(v);
    assert Render(v, w) == DigitString(v) + [];
    GroupValuesCons(v, w);
    ExtractGroup(v, []);
    if InIntRange(dv) {
      ReadIntsStep(Render(v, w), dv, []);
      assert ReadInts([]) == [];
    } else {
      ReadIntsStop(Render(v, w));
    }
  }

  /** A full group, a space, then the groups after it. */
  lemma ReadRenderStep(v: seq<int>, w: int)
    requires w >= 1 && IsDigits(v) && |v| > w
    requires ReadInts(Render(v[w..], w)) == UntilOverflow(GroupValues(v[w..], w))
    ensures ReadInts(Render(v, w)) == UntilOverflow(GroupValues(v, w))
  {
    var g, tail := v[..w], Render(v[w..], w);
    var dv := DecimalValue(g);
    var rest := " " + tail;
    assert Render(v, w) == DigitString(g) + rest;
    GroupValuesCons(v, w);
    ExtractGroup(g, rest);
    if InIntRange(dv) {
      ReadIntsStep(Render(v, w), dv, rest);
      ReadIntsSkipsSpace(' ', tail);
    } else {
      ReadIntsStop(Render(v, w));
    }
  }

  /** The first group's value, then the values of the groups after it. */
  lemma GroupValuesCons(v: seq<int>, w: int)
    requires w >= 1 && |v| >= 1
    ensures |v| <= w ==> GroupValues(v, w) == [DecimalValue(v)]
    ensures |v| > w ==> GroupValues(v, w) == [DecimalValue(v[..w])] + GroupValues(v[w..], w)
  {
    var gv := GroupValues(v, w);
    if |v| > w {
      var c, rest := Folding.Chunks(v, w), Folding.Chunks(v[w..], w);
      assert c == [v[..w]] + rest;
      var tail := GroupValues(v[w..], w);
      assert |gv| == 1 + |tail|;
      forall k | 1 <= k < |gv| ensures gv[k] == tail[k - 1] {
        assert c[k] == rest[k - 1];
      }
      assert gv == [gv[0]] + tail;
    }
  }

  /** `foldingint` on single digits, any m: each group of `Width(m)` digits becomes
      one number, and the stream stops at the first group too large for an `int`. */
  lemma FoldIntDigits(v: seq<int>, m: nat)
    requires |v| > 0 && IsDigits(v)
    ensures FoldInt(v, m) == UntilOverflow(GroupValues(v, Width(m)))
  {
    FoldedStringGroups(v, m);
    ReadRender(v, Width(m));
  }

  function Pow10(n: nat): nat { if n == 0 then 1 else 10 * Pow10(n - 1) }

  lemma {:induction false} DecimalValueBound(g: seq<int>)
    requires IsDigits(g)
    ensures 0 <= DecimalValue(g) < Pow10(|g|)
    decreases |g|
  {
    if g != [] {
      DecimalValueBound(g[..|g| - 1]);
    }
  }

  lemma {:induction false} UntilOverflowAll(xs: seq<int>)
    requires forall i :: 0 <= i < |xs| ==> InIntRange(xs[i])
    ensures UntilOverflow(xs) == xs
    decreases |xs|
  {
    if xs != [] { UntilOverflowAll(xs[1..]); }
  }

  /** With 1 <= m <= 9 no group overflows: the result has ceil(|v| / m) entries
      and entry k is the number spelt by the digits v[k*m .. min(k*m + m, |v|)]
      (leading zeros dropped). */
  lemma FoldIntGroups(v: seq<int>, m: nat)
    requires |v| > 0 && IsDigits(v) && 1 <= m <= 9
    ensures |FoldInt(v, m)| == (|v| + m - 1) / m
    ensures forall k :: 0 <= k < |FoldInt(v, m)| ==>
              k * m < Folding.Min(k * m + m, |v|) <= |v| &&
              FoldInt(v, m)[k] == DecimalValue(v[k * m .. Folding.Min(k * m + m, |v|)])
  {
    var gv := GroupValues(v, m);
    GroupValuesFit(v, m);
    UntilOverflowAll(gv);
    FoldIntDigits(v, m);
    Folding.ChunksCount(v, m);
    forall k | 0 <= k < |gv|
      ensures k * m < Folding.Min(k * m + m, |v|) <= |v| && gv[k] == DecimalValue(v[k * m .. Folding.Min(k * m + m, |v|)])
    {
      Folding.ChunkAt(v, m, k);
    }
  }

  /** Groups of at most nine digits fit an `int`. */
  lemma GroupValuesFit(v: seq<int>, m: nat)
    requires IsDigits(v) && 1 <= m <= 9
    ensures forall k :: 0 <= k < |GroupValues(v, m)| ==> InIntRange(GroupValues(v, m)[k])
  {
    var c := Folding.Chunks(v, m);
    Folding.ChunksRowLengths(v, m);
    forall k | 0 <= k < |c| ensures InIntRange(DecimalValue(c[k])) {
      assert IsDigits(c[k]) by {
        Folding.ChunkAt(v, m, k);
      }
      DecimalValueBound(c[k]);
      Pow10Monotone(|c[k]|, 9);
    }
  }

  lemma {:induction false} Pow10Monotone(a: nat, b: nat)
    requires a <= b
    ensures Pow10(a) <= Pow10(b)
    decreases b
  {
    if a < b { Pow10Monotone(a, b - 1); }
  }

  /** With m = 0 or m = 1 every digit stands alone: the input comes back unchanged. */
  lemma FoldIntUnitWidth(v: seq<int>, m: nat)
    requires |v| > 0 && IsDigits(v) && m <= 1
    ensures FoldInt(v, m) == v
  {
    FoldIntDigits(v, m);
    var gv := GroupValues(v, 1);
    Folding.ChunksCount(v, 1);
    Folding.DivModUnique(|v|, 1, |v|, 0);
    assert |gv| == |v|;
    forall k | 0 <= k < |v| ensures gv[k] == v[k] {
      Folding.ChunkAt(v, 1, k);
      assert Folding.Chunks(v, 1)[k] == v[k .. k + 1] == [v[k]];
      assert [v[k]][..0] == [];
      assert DecimalValue([v[k]]) == v[k];
    }
    UntilOverflowAll(gv);
  }

  /** A single element of any value comes back as itself: `std::to_string` and
      extraction are inverse on `int`. */
  lemma FoldIntSingle(x: int, m: nat)
    requires InIntRange(x)
    ensures FoldInt([x], m) == [x]
  {
    ExtractToString(x, []);
    assert IntToString(x) + [] == IntToString(x);
    assert FoldedString([x], m) == IntToString(x);
  }

  /** The worked example: bits 1,0,1,1,0,0 with m = 3 give 101 and 100. */
  lemma FoldIntExample(v: seq<int>)
    requires v == [1, 0, 1, 1, 0, 0]
    ensures FoldInt(v, 3) == [101, 100]
  {
    var r := FoldInt(v, 3);
    FoldIntGroups(v, 3);
    assert |r| == 2;
    assert r[0] == DecimalValue(v[0 .. 3]);
    assert r[1] == DecimalValue(v[3 .. 6]);
    ThreeDigits(v[0 .. 3]);
    ThreeDigits(v[3 .. 6]);
  }

  lemma ThreeDigits(g: seq<int>)
    requires |g| == 3
    ensures DecimalValue(g) == 100 * g[0] + 10 * g[1] + g[2]
  {
    var g2, g1 := g[..2], g[..1];
    assert g2[..1] == g1 == [g[0]] && g1[..0] == [];
    assert DecimalValue(g1) == g[0];
    assert DecimalValue(g2) == 10 * g[0] + g[1];
  }
}
