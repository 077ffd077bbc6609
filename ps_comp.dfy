/** The decisions `pspec_calc` takes around its library calls: the unit
    scaling of the visibilities, the time-interleaved split into two
    datasets, the choice of redundant group and baseline pairs, and the
    sorted de-duplication of the pairs the estimator reports. */
module PsComp {
  import opened Wrappers
  import PySlice

  /** The exceptions the modelled lines can raise: numpy's refusal of an
      in-place broadcast, and indexing past the end of a list. */
  datatype Error = ShapeMismatch | IndexError

  // ---------------------------------------------------------------------
  // Unit conversion: `uvd.data_array *= Jy_to_mK[None, None, :, None]`

  /** A complex visibility. */
  datatype Complex = Complex(re: real, im: real)

  /** A visibility multiplied by a real factor. */
  function Scale(v: Complex, k: real): Complex
  {
    Complex(v.re * k, v.im * k)
  }

  /** Dividing by the factor afterwards gives the visibility back. */
  lemma ScaleUndone(v: Complex, k: real)
    requires k != 0.0
    ensures Scale(Scale(v, k), 1.0 / k) == v
  {
    assert k * (1.0 / k) == 1.0;
    assert v.re * k * (1.0 / k) == v.re * (k * (1.0 / k));
    assert v.im * k * (1.0 / k) == v.im * (k * (1.0 / k));
  }

  /** numpy accepts `data *= factor[None, None, :, None]` in place when the
      factor has one entry per channel or a single entry. */
  predicate Broadcasts(nFactor: nat, nFreqs: nat)
  {
    nFactor == nFreqs || nFactor == 1
  }

  /** The factor channel `f` is multiplied by under broadcasting. */
  function FactorAt(factor: seq<real>, f: nat): real
    requires |factor| == 1 || f < |factor|
  {
    if |factor| == 1 then factor[0] else factor[f]
  }

  /** The visibility array of a dataset is indexed `[blt, spw, freq, pol]`.
      Multiplies every sample by the factor of its frequency channel,
      whatever its blt, spectral window and polarisation, or refuses and
      changes nothing when the shapes do not broadcast. */
  method ScaleByFrequency(a: array4<Complex>, factor: seq<real>) returns (ok: bool)
    modifies a
    ensures ok == Broadcasts(|factor|, a.Length2)
    ensures !ok ==> unchanged(a)
    ensures ok ==> forall b, s, f, p ::
      0 <= b < a.Length0 && 0 <= s < a.Length1 && 0 <= f < a.Length2 && 0 <= p < a.Length3 ==>
        a[b, s, f, p] == Scale(old(a[b, s, f, p]), FactorAt(factor, f))
  {
    ok := Broadcasts(|factor|, a.Length2);
    if !ok {
      return;
    }
    var f := 0;
    while f < a.Length2
      invariant 0 <= f <= a.Length2
      invariant forall b, s, g, p ::
        0 <= b < a.Length0 && 0 <= s < a.Length1 && 0 <= g < a.Length2 && 0 <= p < a.Length3 ==>
          a[b, s, g, p] == if g < f then Scale(old(a[b, s, g, p]), FactorAt(factor, g)) else old(a[b, s, g, p])
    {
      var k := FactorAt(factor, f);
      forall b, s, p | 0 <= b < a.Length0 && 0 <= s < a.Length1 && 0 <= p < a.Length3 {
        a[b, s, f, p] := Scale(a[b, s, f, p], k);
      }
      f := f + 1;
    }
  }

  // ---------------------------------------------------------------------
  // `np.unique`: the sorted distinct values

  ghost predicate StrictlyIncreasing(s: seq<int>)
  {
    forall i, j :: 0 <= i < j < |s| ==> s[i] < s[j]
  }

  /** Puts `x` into a strictly increasing sequence, unless it is there. */
  function InsertSorted(x: int, s: seq<int>): (r: seq<int>)
    requires StrictlyIncreasing(s)
    ensures StrictlyIncreasing(r)
    ensures forall y :: y in r <==> y == x || y in s
  {
    if s == [] then [x]
    else if x < s[0] then [x] + s
    else if x == s[0] then s
    else
      var rest := InsertSorted(x, s[1..]);
      assert forall y :: y in rest ==> s[0] < y by {
        forall y | y in rest ensures s[0] < y {
          if y != x {
            var j :| 0 <= j < |s[1..]| && s[1..][j] == y;
            assert s[j + 1] == y;
          }
        }
      }
      assert forall k :: 0 <= k < |rest| ==> s[0] < rest[k] by {
        forall k | 0 <= k < |rest| ensures s[0] < rest[k] {
          assert rest[k] in rest;
        }
      }
      [s[0]] + rest
  }

  /** `np.unique(xs)`: the values of `xs`, each once, in increasing order. */
  function Unique(xs: seq<int>): (r: seq<int>)
    ensures StrictlyIncreasing(r)
    ensures forall y :: y in r <==> y in xs
  {
    if xs == [] then [] else InsertSorted(xs[|xs| - 1], Unique(xs[..|xs| - 1]))
  }

  /** Two strictly increasing sequences with the same elements are equal. */
  lemma {:induction false} IncreasingSameElements(s: seq<int>, t: seq<int>)
    requires StrictlyIncreasing(s) && StrictlyIncreasing(t)
    requires forall y :: y in s <==> y in t
    ensures s == t
    decreases |s|
  {
    if t != [] {
      assert t[0] in t;
    }
    if s != [] {
      assert s[0] in s;
      assert t != [];
      assert t[0] in t;
      assert s[0] == t[0];
      forall y
        ensures y in s[1..] <==> y in t[1..]
      {
        if y in s[1..] {
          assert y != s[0] && y in t;
        }
        if y in t[1..] {
          assert y != t[0] && y in s;
        }
      }
      IncreasingSameElements(s[1..], t[1..]);
      assert s == [s[0]] + s[1..] && t == [t[0]] + t[1..];
    }
  }

  /** The `blps` list `pspec_calc` returns is the only strictly increasing
      list holding exactly the pairs the estimator reports. */
  lemma UniqueIsCanonical(xs: seq<int>, s: seq<int>)
    requires StrictlyIncreasing(s)
    requires forall y :: y in s <==> y in xs
    ensures Unique(xs) == s
  {
    IncreasingSameElements(Unique(xs), s);
  }

  // ---------------------------------------------------------------------
  // The time-interleaved split

  /** `np.unique(time_array)[:-1:2]`: the times of the first dataset. */
  function FirstHalf(u: seq<int>): seq<int>
  {
    PySlice.Step2(u, 0, -1)
  }

  /** `np.unique(time_array)[1::2]`: the times of the second dataset. */
  function SecondHalf(u: seq<int>): seq<int>
  {
    PySlice.Step2(u, 1, |u|)
  }

  /** Both halves hold `n / 2` of the `n` distinct times: the first the
      even-numbered ones, the second the odd-numbered ones. */
  lemma HalvesInterleave(u: seq<int>)
    ensures |FirstHalf(u)| == |u| / 2 && |SecondHalf(u)| == |u| / 2
    ensures forall k :: 0 <= k < |u| / 2 ==> FirstHalf(u)[k] == u[2 * k] && SecondHalf(u)[k] == u[2 * k + 1]
  {
  }

  /** In a strictly increasing sequence equal values sit at equal indices. */
  lemma IncreasingInjective(u: seq<int>, i: nat, j: nat)
    requires StrictlyIncreasing(u) && i < |u| && j < |u| && u[i] == u[j]
    ensures i == j
  {
  }

  /** A list holding `u[off], u[off + 2], ...`, `m` of them, holds `u[i]`
      exactly when `i` is one of those indices. */
  lemma StridePlace(u: seq<int>, h: seq<int>, off: nat, i: nat)
    requires StrictlyIncreasing(u) && i < |u| && off + 2 * |h| <= |u| + 1
    requires forall k :: 0 <= k < |h| ==> 2 * k + off < |u| && h[k] == u[2 * k + off]
    ensures u[i] in h <==> off <= i < off + 2 * |h| && (i - off) % 2 == 0
  {
    if off <= i < off + 2 * |h| && (i - off) % 2 == 0 {
      assert h[(i - off) / 2] == u[i];
    }
    if u[i] in h {
      var k :| 0 <= k < |h| && h[k] == u[i];
      IncreasingInjective(u, 2 * k + off, i);
    }
  }

  /** Index arithmetic: below `n`, the indices `off, off + 2, ...` of a
      stride holding `n / 2` elements are those of the parity of `off`. */
  lemma StrideIndex(i: nat, n: nat, off: nat)
    requires i < n && off < 2
    ensures off <= i < off + 2 * (n / 2) && (i - off) % 2 == 0
        <==> i % 2 == off && (off == 1 || i < n - n % 2)
  {
    var q, r := i / 2, i % 2;
    assert i == 2 * q + r;
    var m, p := n / 2, n % 2;
    assert n == 2 * m + p;
  }

  /** Distinct time `u[i]` is in the first half exactly when `i` is even
      and not the last index. */
  lemma FirstHalfPlace(u: seq<int>, i: nat)
    requires StrictlyIncreasing(u) && i < |u|
    ensures u[i] in FirstHalf(u) <==> i % 2 == 0 && i + 1 < |u|
  {
    HalvesInterleave(u);
    StridePlace(u, FirstHalf(u), 0, i);
    StrideIndex(i, |u|, 0);
  }

  /** Distinct time `u[i]` is in the second half exactly when `i` is odd. */
  lemma SecondHalfPlace(u: seq<int>, i: nat)
    requires StrictlyIncreasing(u) && i < |u|
    ensures u[i] in SecondHalf(u) <==> i % 2 == 1
  {
    HalvesInterleave(u);
    StridePlace(u, SecondHalf(u), 1, i);
    StrideIndex(i, |u|, 1);
  }

  /** Two strides of a strictly increasing sequence, one over the even
      and one over the odd indices, share no element. */
  lemma StridesDisjoint(u: seq<int>, evens: seq<int>, odds: seq<int>, x: int)
    requires StrictlyIncreasing(u)
    requires forall k :: 0 <= k < |evens| ==> 2 * k < |u| && evens[k] == u[2 * k]
    requires forall k :: 0 <= k < |odds| ==> 2 * k + 1 < |u| && odds[k] == u[2 * k + 1]
    ensures !(x in evens && x in odds)
  {
  }

  /** No time is in both halves. */
  lemma HalvesDisjoint(u: seq<int>, x: int)
    requires StrictlyIncreasing(u)
    ensures !(x in FirstHalf(u) && x in SecondHalf(u))
  {
    HalvesInterleave(u);
    StridesDisjoint(u, FirstHalf(u), SecondHalf(u), x);
  }

  /** With an even number of distinct times the halves cover them all; with
      an odd number exactly the last one is left out. */
  lemma HalvesCover(u: seq<int>, x: int)
    requires StrictlyIncreasing(u) && x in u
    ensures x in FirstHalf(u) || x in SecondHalf(u) <==> |u| % 2 == 0 || x != u[|u| - 1]
  {
    var i :| 0 <= i < |u| && u[i] == x;
    FirstHalfPlace(u, i);
    SecondHalfPlace(u, i);
    assert x == u[|u| - 1] <==> i == |u| - 1;
  }

  /** The rows `UVData.select(times=keep)` retains: the indices of the
      baseline-times whose time is listed in `keep`, in their order. */
  function SelectTimes(times: seq<int>, keep: seq<int>): (rows: seq<nat>)
    ensures forall k :: 0 <= k < |rows| ==> rows[k] < |times| && times[rows[k]] in keep
    ensures forall i :: 0 <= i < |times| && times[i] in keep ==> i in rows
    ensures forall k, l :: 0 <= k < l < |rows| ==> rows[k] < rows[l]
  {
    SelectFrom(times, keep, 0)
  }

  function SelectFrom(times: seq<int>, keep: seq<int>, i: nat): (rows: seq<nat>)
    requires i <= |times|
    ensures forall k :: 0 <= k < |rows| ==> i <= rows[k] < |times| && times[rows[k]] in keep
    ensures forall j :: i <= j < |times| && times[j] in keep ==> j in rows
    ensures forall k, l :: 0 <= k < l < |rows| ==> rows[k] < rows[l]
    decreases |times| - i
  {
    if i == |times| then []
    else if times[i] in keep then [i] + SelectFrom(times, keep, i + 1)
    else SelectFrom(times, keep, i + 1)
  }

  /** No baseline-time row goes to both datasets. */
  lemma SplitRowsDisjoint(times: seq<int>, i: nat)
    ensures !(i in SelectTimes(times, FirstHalf(Unique(times))) && i in SelectTimes(times, SecondHalf(Unique(times))))
  {
    var u := Unique(times);
    if i in SelectTimes(times, FirstHalf(u)) {
      HalvesDisjoint(u, times[i]);
    }
  }

  /** Row `i` goes to one of the datasets unless the number of distinct
      times is odd and its time is the latest. */
  lemma SplitRowsCover(times: seq<int>, i: nat)
    requires i < |times|
    ensures i in SelectTimes(times, FirstHalf(Unique(times))) || i in SelectTimes(times, SecondHalf(Unique(times)))
        <==> |Unique(times)| % 2 == 0 || times[i] != Unique(times)[|Unique(times)| - 1]
  {
    HalvesCover(Unique(times), times[i]);
  }

  // ---------------------------------------------------------------------
  // Choosing the redundant group and the baseline pairs

  /** `[bl for bl_group in baseline_groups for bl in bl_group]` */
  function Flatten(groups: seq<seq<int>>): (r: seq<int>)
  {
    if groups == [] then [] else groups[0] + Flatten(groups[1..])
  }

  /** The test at ps_comp.py:71: as many groups as baselines. */
  predicate AlreadyCollapsed(groups: seq<seq<int>>)
  {
    |groups| == |Flatten(groups)|
  }

  /** For groups that are not empty, the test holds exactly when every
      group is a single baseline. */
  lemma {:induction false} CollapsedIffSingletons(groups: seq<seq<int>>)
    requires forall i :: 0 <= i < |groups| ==> |groups[i]| > 0
    ensures |Flatten(groups)| >= |groups|
    ensures AlreadyCollapsed(groups) <==> forall i :: 0 <= i < |groups| ==> |groups[i]| == 1
  {
    if groups != [] {
      CollapsedIffSingletons(groups[1..]);
      assert forall i :: 1 <= i < |groups| ==> groups[i] == groups[1..][i - 1];
    }
  }

  /** A baseline's antenna numbers, `(ant1, ant2)`. */
  datatype AntPair = AntPair(ant1: int, ant2: int)

  /** The two parallel lists handed to the estimator: pair `k` correlates
      `bls1[k]` with `bls2[k]`. */
  datatype BlPairs = BlPairs(bls1: seq<AntPair>, bls2: seq<AntPair>)

  predicate HasPair(p: BlPairs, x: AntPair, y: AntPair)
  {
    exists k :: 0 <= k < |p.bls1| && k < |p.bls2| && p.bls1[k] == x && p.bls2[k] == y
  }

  /** No element occurs twice. */
  predicate Distinct<T(==)>(s: seq<T>)
  {
    forall i, j :: 0 <= i < j < |s| ==> s[i] != s[j]
  }

  /** The pairs `(x, y)`, `y` running over `ys`, that are not auto pairs. */
  function PairsWith(x: AntPair, ys: seq<AntPair>): (r: seq<(AntPair, AntPair)>)
    ensures forall k :: 0 <= k < |r| ==> r[k].0 == x && r[k].1 in ys && r[k].1 != x
    ensures forall y :: y in ys && y != x ==> (x, y) in r
    ensures Distinct(ys) ==> Distinct(r)
  {
    if ys == [] then []
    else (if ys[0] != x then [(x, ys[0])] else []) + PairsWith(x, ys[1..])
  }

  /** All ordered pairs `(x, y)` with `x` from `xs`, `y` from `ys`, `x != y`. */
  function OrderedPairs(xs: seq<AntPair>, ys: seq<AntPair>): (r: seq<(AntPair, AntPair)>)
    ensures forall k :: 0 <= k < |r| ==> r[k].0 in xs && r[k].1 in ys && r[k].0 != r[k].1
    ensures forall x, y :: x in xs && y in ys && x != y ==> (x, y) in r
    ensures Distinct(xs) && Distinct(ys) ==> Distinct(r)
  {
    if xs == [] then [] else PairsWith(xs[0], ys) + OrderedPairs(xs[1..], ys)
  }

  /** `construct_blpairs(ants, exclude_permutations=False, exclude_auto_bls=True)`:
      every ordered pair of distinct baselines of `ants`, both orders kept,
      no baseline paired with itself. */
  function ConstructBlpairs(ants: seq<AntPair>): (r: BlPairs)
    ensures |r.bls1| == |r.bls2|
    ensures forall k :: 0 <= k < |r.bls1| ==> r.bls1[k] != r.bls2[k] && r.bls1[k] in ants && r.bls2[k] in ants
    ensures forall x, y :: x in ants && y in ants && x != y ==> HasPair(r, x, y)
    ensures Distinct(ants) ==> forall k, l :: 0 <= k < l < |r.bls1| ==> (r.bls1[k], r.bls2[k]) != (r.bls1[l], r.bls2[l])
  {
    var blp := OrderedPairs(ants, ants);
    var r := BlPairs(seq(|blp|, k requires 0 <= k < |blp| => blp[k].0),
                     seq(|blp|, k requires 0 <= k < |blp| => blp[k].1));
    assert forall x, y :: x in ants && y in ants && x != y ==> HasPair(r, x, y) by {
      forall x, y | x in ants && y in ants && x != y
        ensures HasPair(r, x, y)
      {
        var k :| 0 <= k < |blp| && blp[k] == (x, y);
        assert r.bls1[k] == x && r.bls2[k] == y;
      }
    }
    r
  }

  /** `[baseline_to_antnums(i, ...) for i in g]` */
  function AntPairsOf(g: seq<int>, antnums: int -> AntPair): (ants: seq<AntPair>)
    ensures |ants| == |g|
    ensures forall i :: 0 <= i < |g| ==> ants[i] == antnums(g[i])
  {
    seq(|g|, i requires 0 <= i < |g| => antnums(g[i]))
  }

  /** Every antenna pair of the list decodes a baseline of the group. */
  lemma FromGroup(g: seq<int>, antnums: int -> AntPair, x: AntPair)
    requires x in AntPairsOf(g, antnums)
    ensures exists b :: b in g && antnums(b) == x
  {
    var ants := AntPairsOf(g, antnums);
    var i :| 0 <= i < |ants| && ants[i] == x;
    var b := g[i];
    assert b in g;
    assert antnums(b) == x;
  }

  /** Lines 71-82 of ps_comp.py: a fully collapsed grouping correlates the
      first baseline of group 0 with itself; otherwise the baselines of
      group 1 are paired by `construct_blpairs`. Indexing a missing group
      or baseline raises IndexError. */
  function SelectBlPairs(groups: seq<seq<int>>, antnums: int -> AntPair): (r: Result<BlPairs, Error>)
    ensures r.Err? <==> if AlreadyCollapsed(groups) then |groups| == 0 || |groups[0]| == 0 else |groups| < 2
    ensures r.Err? ==> r.error == IndexError
  {
    if AlreadyCollapsed(groups) then
      if |groups| == 0 || |groups[0]| == 0 then Err(IndexError)
      else
        var bls1 := [antnums(groups[0][0])];
        Ok(BlPairs(bls1, bls1))
    else if |groups| < 2 then Err(IndexError)
    else
      Ok(ConstructBlpairs(AntPairsOf(groups[1], antnums)))
  }

  /** Collapsed branch: `bls1` and `bls2` are one and the same one-element
      list, the antenna pair of the first baseline of group 0; when the
      groups are not empty that group has only this baseline. */
  lemma SelectCollapsed(groups: seq<seq<int>>, antnums: int -> AntPair)
    requires AlreadyCollapsed(groups) && |groups| > 0 && |groups[0]| > 0
    ensures SelectBlPairs(groups, antnums).Ok?
    ensures SelectBlPairs(groups, antnums).value.bls1 == SelectBlPairs(groups, antnums).value.bls2
    ensures SelectBlPairs(groups, antnums).value.bls1 == [antnums(groups[0][0])]
    ensures (forall i :: 0 <= i < |groups| ==> |groups[i]| > 0) ==> groups[0] == [groups[0][0]]
  {
    if forall i :: 0 <= i < |groups| ==> |groups[i]| > 0 {
      CollapsedIffSingletons(groups);
    }
  }

  /** Other branch: the pairs come from group 1; `bls1` and `bls2` have one
      length, no baseline is paired with itself, and every baseline in a
      pair is a baseline of group 1. */
  lemma SelectFromSecondGroup(groups: seq<seq<int>>, antnums: int -> AntPair)
    requires !AlreadyCollapsed(groups) && |groups| >= 2
    ensures SelectBlPairs(groups, antnums).Ok?
    ensures |SelectBlPairs(groups, antnums).value.bls1| == |SelectBlPairs(groups, antnums).value.bls2|
    ensures forall k :: 0 <= k < |SelectBlPairs(groups, antnums).value.bls1| ==>
      var p := SelectBlPairs(groups, antnums).value;
      p.bls1[k] != p.bls2[k] &&
      (exists b :: b in groups[1] && antnums(b) == p.bls1[k]) &&
      (exists b :: b in groups[1] && antnums(b) == p.bls2[k])
  {
    var g := groups[1];
    var ants := AntPairsOf(g, antnums);
    var p := SelectBlPairs(groups, antnums).value;
    assert p == ConstructBlpairs(ants);
    forall k | 0 <= k < |p.bls1|
      ensures (exists b :: b in g && antnums(b) == p.bls1[k]) && (exists b :: b in g && antnums(b) == p.bls2[k])
    {
      FromGroup(g, antnums, p.bls1[k]);
      FromGroup(g, antnums, p.bls2[k]);
    }
  }

  /** Other branch: any two baselines of group 1 with different antenna
      pairs are correlated in both orders. */
  lemma SelectBothOrders(groups: seq<seq<int>>, antnums: int -> AntPair, b: int, c: int)
    requires !AlreadyCollapsed(groups) && |groups| >= 2
    requires b in groups[1] && c in groups[1] && antnums(b) != antnums(c)
    ensures SelectBlPairs(groups, antnums).Ok?
    ensures HasPair(SelectBlPairs(groups, antnums).value, antnums(b), antnums(c))
    ensures HasPair(SelectBlPairs(groups, antnums).value, antnums(c), antnums(b))
  {
    var g := groups[1];
    var ants := AntPairsOf(g, antnums);
    var i :| 0 <= i < |g| && g[i] == b;
    var j :| 0 <= j < |g| && g[j] == c;
    assert ants[i] == antnums(b) && ants[j] == antnums(c);
  }

  /** Other branch: when the baselines of group 1 decode to distinct
      antenna pairs, no ordered pair is handed to the estimator twice. */
  lemma SelectPairsOnce(groups: seq<seq<int>>, antnums: int -> AntPair)
    requires !AlreadyCollapsed(groups) && |groups| >= 2
    requires forall i, j :: 0 <= i < j < |groups[1]| ==> antnums(groups[1][i]) != antnums(groups[1][j])
    ensures SelectBlPairs(groups, antnums).Ok?
    ensures forall k, l :: 0 <= k < l < |SelectBlPairs(groups, antnums).value.bls1| ==>
      var p := SelectBlPairs(groups, antnums).value;
      (p.bls1[k], p.bls2[k]) != (p.bls1[l], p.bls2[l])
  {
    var ants := AntPairsOf(groups[1], antnums);
    assert Distinct(ants);
  }

  /** A single redundant group of two or more baselines fails: the code
      takes group 1, not the group 0 its comment speaks of. */
  lemma SingleGroupFails(groups: seq<seq<int>>, antnums: int -> AntPair)
    requires |groups| == 1 && |groups[0]| >= 2
    ensures SelectBlPairs(groups, antnums) == Err(IndexError)
  {
    assert Flatten(groups) == groups[0];
  }

  // ---------------------------------------------------------------------
  // pspec_calc

  /** A dataset as `pspec_calc` uses it: the time of each baseline-time row
      and the visibilities `[blt, spw, freq, pol]`. */
  class UVData {
    var timeArray: seq<int>
    var dataArray: array4<Complex>

    ghost predicate Valid()
      reads this
    {
      |timeArray| == dataArray.Length0
    }
  }

  /** What `pspec_calc` decides: the rows of the two time-interleaved
      datasets, the baseline pairs handed to the estimator, and the sorted
      distinct pairs it returns. */
  datatype PspecOutcome = PspecOutcome(half1: seq<nat>, half2: seq<nat>, pairs: BlPairs, blps: seq<int>)

  /** `pspec_calc` with its I/O and library calls as parameters: `jyToMk`
      is the beam model's conversion factor, `groups` the redundant groups,
      `antnums` the baseline-number decoding and `blpairArray` the pairs
      the estimator reports. The visibilities are scaled in place before
      the split, so both datasets hold scaled data. */
  method PspecCalc(uvd: UVData, jyToMk: seq<real>, groups: seq<seq<int>>, antnums: int -> AntPair, blpairArray: seq<int>)
    returns (r: Result<PspecOutcome, Error>)
    requires uvd.Valid()
    modifies uvd.dataArray
    ensures !Broadcasts(|jyToMk|, uvd.dataArray.Length2) ==> r == Err(ShapeMismatch) && unchanged(uvd.dataArray)
    ensures Broadcasts(|jyToMk|, uvd.dataArray.Length2) ==> forall b, s, f, p ::
      0 <= b < uvd.dataArray.Length0 && 0 <= s < uvd.dataArray.Length1 &&
      0 <= f < uvd.dataArray.Length2 && 0 <= p < uvd.dataArray.Length3 ==>
        uvd.dataArray[b, s, f, p] == Scale(old(uvd.dataArray[b, s, f, p]), FactorAt(jyToMk, f))
    ensures Broadcasts(|jyToMk|, uvd.dataArray.Length2) && SelectBlPairs(groups, antnums).Err? ==>
      r == Err(SelectBlPairs(groups, antnums).error)
    ensures r.Ok? <==> Broadcasts(|jyToMk|, uvd.dataArray.Length2) && SelectBlPairs(groups, antnums).Ok?
    ensures r.Ok? ==>
      && r.value.half1 == SelectTimes(uvd.timeArray, FirstHalf(Unique(uvd.timeArray)))
      && r.value.half2 == SelectTimes(uvd.timeArray, SecondHalf(Unique(uvd.timeArray)))
      && r.value.pairs == SelectBlPairs(groups, antnums).value
      && r.value.blps == Unique(blpairArray)
  {
    var ok := ScaleByFrequency(uvd.dataArray, jyToMk);
    if !ok {
      return Err(ShapeMismatch);
    }
    var times := Unique(uvd.timeArray);
    var half1 := SelectTimes(uvd.timeArray, FirstHalf(times));
    var half2 := SelectTimes(uvd.timeArray, SecondHalf(times));
    var selection := SelectBlPairs(groups, antnums);
    if selection.Err? {
      return Err(selection.error);
    }
    r := Ok(PspecOutcome(half1, half2, selection.value, Unique(blpairArray)));
  }
}
