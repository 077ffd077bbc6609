/** The per-baseline masking helpers of the calibration notebooks:
    `ex_badants` zeroes the visibilities of baselines touching a bad antenna,
    `apply_mask` overwrites band edges and flagged samples with a sentinel.
    Both work in place on a dictionary of 2-D visibility arrays keyed by
    `(ant_i, ant_j, pol)`. */
module CalUtils {
  import opened Wrappers
  import PySlice

  /** Key of a visibility dictionary: an antenna pair and a polarisation. */
  datatype Key = Key(i: int, j: int, pol: string)

  /** A complex visibility sample. Only the two values the helpers write are
      told apart: `Zero` (what `np.zeros_like` fills in) and `Sentinel`
      (the masking value `-1-1e-16j`); every other sample is opaque. */
  datatype Vis = Zero | Sentinel | Sample(id: int)

  /** Value of a 2-D array: `rows` x `cols` cells, row by row. */
  datatype Grid<T> = Grid(rows: nat, cols: nat, cells: seq<seq<T>>)

  predicate WellShaped<T>(g: Grid<T>)
  {
    |g.cells| == g.rows && forall r :: 0 <= r < |g.cells| ==> |g.cells[r]| == g.cols
  }

  predicate SameShape<S, T>(g: Grid<S>, h: Grid<T>)
  {
    g.rows == h.rows && g.cols == h.cols
  }

  /** Two well-shaped grids of one shape with equal cells are equal. */
  lemma GridExt<T>(g: Grid<T>, h: Grid<T>)
    requires WellShaped(g) && WellShaped(h) && SameShape(g, h)
    requires forall r, c :: 0 <= r < g.rows && 0 <= c < g.cols ==> g.cells[r][c] == h.cells[r][c]
    ensures g == h
  {
    forall r | 0 <= r < g.rows
      ensures g.cells[r] == h.cells[r]
    {
      assert forall c :: 0 <= c < g.cols ==> g.cells[r][c] == h.cells[r][c];
    }
  }

  // ---------------------------------------------------------------------
  // ex_badants

  /** The key touches one of the bad antennas; the polarisation plays no part. */
  predicate Touches(k: Key, badAnts: set<int>)
  {
    k.i in badAnts || k.j in badAnts
  }

  /** `z` is what `np.zeros_like(g)` gives: the shape of `g`, all cells zero. */
  predicate ZerosOf(z: Grid<Vis>, g: Grid<Vis>)
  {
    WellShaped(z) && SameShape(z, g) &&
    forall r, c :: 0 <= r < z.rows && 0 <= c < z.cols ==> z.cells[r][c] == Zero
  }

  function ZerosLike(g: Grid<Vis>): (z: Grid<Vis>)
    ensures ZerosOf(z, g)
  {
    Grid(g.rows, g.cols, seq(g.rows, _ => seq(g.cols, _ => Zero)))
  }

  /** The dictionary `ex_badants` leaves behind, as a value. */
  function ZeroedBadAnts(t: map<Key, Grid<Vis>>, badAnts: set<int>): (r: map<Key, Grid<Vis>>)
    ensures r.Keys == t.Keys
    ensures forall k :: k in t && Touches(k, badAnts) ==> ZerosOf(r[k], t[k])
    ensures forall k :: k in t && !Touches(k, badAnts) ==> r[k] == t[k]
  {
    map k | k in t :: if Touches(k, badAnts) then ZerosLike(t[k]) else t[k]
  }

  /** Zeroing the bad baselines a second time changes nothing. */
  lemma ZeroedBadAntsIdempotent(t: map<Key, Grid<Vis>>, badAnts: set<int>)
    ensures ZeroedBadAnts(ZeroedBadAnts(t, badAnts), badAnts) == ZeroedBadAnts(t, badAnts)
  {
    var once := ZeroedBadAnts(t, badAnts);
    var twice := ZeroedBadAnts(once, badAnts);
    forall k | k in t
      ensures twice[k] == once[k]
    {
      if Touches(k, badAnts) {
        GridExt(twice[k], once[k]);
      }
    }
  }

  /** Any dictionary with the keys of `t`, zeros of the right shape at the
      keys touching a bad antenna and the old values elsewhere is the one
      `ex_badants` produces. */
  lemma ZeroedBadAntsUnique(t: map<Key, Grid<Vis>>, u: map<Key, Grid<Vis>>, badAnts: set<int>)
    requires u.Keys == t.Keys
    requires forall k :: k in t && Touches(k, badAnts) ==> ZerosOf(u[k], t[k])
    requires forall k :: k in t && !Touches(k, badAnts) ==> u[k] == t[k]
    ensures u == ZeroedBadAnts(t, badAnts)
  {
    var z := ZeroedBadAnts(t, badAnts);
    forall k | k in t
      ensures u[k] == z[k]
    {
      if Touches(k, badAnts) {
        GridExt(u[k], z[k]);
      }
    }
  }

  // ---------------------------------------------------------------------
  // apply_mask

  /** Column `c` of a row of `n` columns lies in `[:edgeCut]` or in
      `[-edgeCut:]`, with Python's reading of both slices. */
  predicate InEdge(c: int, n: nat, edgeCut: int)
  {
    c < PySlice.Bound(edgeCut, n) || PySlice.Bound(-edgeCut, n) <= c
  }

  /** For a positive cut the edge is the first and the last `edgeCut` columns. */
  lemma InEdgePositive(c: int, n: nat, edgeCut: int)
    requires edgeCut > 0 && 0 <= c < n
    ensures InEdge(c, n, edgeCut) <==> c < edgeCut || n - edgeCut <= c
  {
  }

  /** A cut of zero makes `[-0:]` the whole row: every column is an edge. */
  lemma InEdgeZero(c: int, n: nat)
    requires 0 <= c < n
    ensures InEdge(c, n, 0)
  {
  }

  /** The flag grid for key `k`, when flags were given. */
  function FlagFor(flags: Option<map<Key, Grid<bool>>>, k: Key): Option<Grid<bool>>
    requires flags.Some? ==> k in flags.value
  {
    if flags.Some? then Some(flags.value[k]) else None
  }

  predicate FlagsFit(g: Grid<Vis>, f: Option<Grid<bool>>)
  {
    f.Some? ==> WellShaped(f.value) && SameShape(f.value, g)
  }

  predicate Flagged(f: Option<Grid<bool>>, r: nat, c: nat)
    requires f.Some? ==> WellShaped(f.value) && r < f.value.rows && c < f.value.cols
  {
    f.Some? && f.value.cells[r][c]
  }

  /** One array after `apply_mask`: edge columns and flagged cells hold the
      sentinel, every other cell its old value. */
  function MaskGrid(g: Grid<Vis>, f: Option<Grid<bool>>, edgeCut: int): (m: Grid<Vis>)
    requires WellShaped(g) && FlagsFit(g, f)
    ensures WellShaped(m) && SameShape(m, g)
  {
    Grid(g.rows, g.cols,
      seq(g.rows, r requires 0 <= r < g.rows =>
        seq(g.cols, c requires 0 <= c < g.cols =>
          if InEdge(c, g.cols, edgeCut) || Flagged(f, r, c) then Sentinel else g.cells[r][c])))
  }

  /** Every array is well shaped, and the flags, when given, have every key
      with the same shape as the data. */
  predicate MaskableTable(t: map<Key, Grid<Vis>>, flags: Option<map<Key, Grid<bool>>>)
  {
    forall k :: k in t ==> WellShaped(t[k]) && (flags.Some? ==> k in flags.value && FlagsFit(t[k], FlagFor(flags, k)))
  }

  /** The dictionary `apply_mask` leaves behind, as a value. */
  function Masked(t: map<Key, Grid<Vis>>, flags: Option<map<Key, Grid<bool>>>, edgeCut: int): (r: map<Key, Grid<Vis>>)
    requires MaskableTable(t, flags)
    ensures r.Keys == t.Keys
    ensures forall k :: k in t ==> WellShaped(r[k]) && SameShape(r[k], t[k])
  {
    map k | k in t :: MaskGrid(t[k], FlagFor(flags, k), edgeCut)
  }

  /** A dictionary holding, at every key of `t`, that key's array masked
      is the one `apply_mask` produces. */
  lemma MaskedUnique(t: map<Key, Grid<Vis>>, flags: Option<map<Key, Grid<bool>>>, edgeCut: int, u: map<Key, Grid<Vis>>)
    requires MaskableTable(t, flags)
    requires u.Keys == t.Keys
    requires forall k :: k in t ==> u[k] == MaskGrid(t[k], FlagFor(flags, k), edgeCut)
    ensures u == Masked(t, flags, edgeCut)
  {
  }

  /** With a positive cut, the first and last `edgeCut` columns of every row
      of every array become the sentinel. */
  lemma MaskedEdges(t: map<Key, Grid<Vis>>, flags: Option<map<Key, Grid<bool>>>, edgeCut: int, k: Key, r: nat, c: nat)
    requires MaskableTable(t, flags) && k in t
    requires edgeCut > 0 && r < t[k].rows && c < t[k].cols
    requires c < edgeCut || t[k].cols - edgeCut <= c
    ensures Masked(t, flags, edgeCut)[k].cells[r][c] == Sentinel
  {
    InEdgePositive(c, t[k].cols, edgeCut);
  }

  /** Every flagged cell becomes the sentinel. */
  lemma MaskedFlags(t: map<Key, Grid<Vis>>, flags: Option<map<Key, Grid<bool>>>, edgeCut: int, k: Key, r: nat, c: nat)
    requires MaskableTable(t, flags) && k in t && flags.Some?
    requires r < t[k].rows && c < t[k].cols && flags.value[k].cells[r][c]
    ensures Masked(t, flags, edgeCut)[k].cells[r][c] == Sentinel
  {
  }

  /** A cell outside both edge slices and not flagged keeps its value. */
  lemma MaskedKeeps(t: map<Key, Grid<Vis>>, flags: Option<map<Key, Grid<bool>>>, edgeCut: int, k: Key, r: nat, c: nat)
    requires MaskableTable(t, flags) && k in t
    requires r < t[k].rows && c < t[k].cols
    requires !InEdge(c, t[k].cols, edgeCut) && !Flagged(FlagFor(flags, k), r, c)
    ensures Masked(t, flags, edgeCut)[k].cells[r][c] == t[k].cells[r][c]
  {
  }

  /** With a positive cut, the kept cells are exactly the unflagged ones
      in columns `edgeCut .. cols - edgeCut`. */
  lemma MaskedInterior(t: map<Key, Grid<Vis>>, flags: Option<map<Key, Grid<bool>>>, edgeCut: int, k: Key, r: nat, c: nat)
    requires MaskableTable(t, flags) && k in t
    requires edgeCut > 0 && r < t[k].rows && edgeCut <= c < t[k].cols - edgeCut
    requires !Flagged(FlagFor(flags, k), r, c)
    ensures Masked(t, flags, edgeCut)[k].cells[r][c] == t[k].cells[r][c]
  {
    InEdgePositive(c, t[k].cols, edgeCut);
  }

  /** With `edge_cut == 0` every cell of every array becomes the sentinel,
      flags or not. */
  lemma MaskedZeroEdgeCut(t: map<Key, Grid<Vis>>, flags: Option<map<Key, Grid<bool>>>, k: Key, r: nat, c: nat)
    requires MaskableTable(t, flags) && k in t
    requires r < t[k].rows && c < t[k].cols
    ensures Masked(t, flags, 0)[k].cells[r][c] == Sentinel
  {
    InEdgeZero(c, t[k].cols);
  }

  /** Masking twice with the same flags and cut is masking once. */
  lemma MaskedIdempotent(t: map<Key, Grid<Vis>>, flags: Option<map<Key, Grid<bool>>>, edgeCut: int)
    requires MaskableTable(t, flags)
    ensures MaskableTable(Masked(t, flags, edgeCut), flags)
    ensures Masked(Masked(t, flags, edgeCut), flags, edgeCut) == Masked(t, flags, edgeCut)
  {
    var once := Masked(t, flags, edgeCut);
    assert MaskableTable(once, flags);
    var twice := Masked(once, flags, edgeCut);
    forall k | k in t
      ensures twice[k] == once[k]
    {
      GridExt(twice[k], once[k]);
    }
  }

  // ---------------------------------------------------------------------
  // The dictionary, updated in place

  /** The value a 2-D array holds. */
  ghost function GridOf<T>(a: array2<T>): (g: Grid<T>)
    reads a
    ensures WellShaped(g) && g.rows == a.Length0 && g.cols == a.Length1
    ensures forall r, c :: 0 <= r < a.Length0 && 0 <= c < a.Length1 ==> g.cells[r][c] == a[r, c]
  {
    Grid(a.Length0, a.Length1,
      seq(a.Length0, r requires 0 <= r < a.Length0 reads a =>
        seq(a.Length1, c requires 0 <= c < a.Length1 reads a => a[r, c])))
  }

  /** A Python dictionary from keys to 2-D visibility arrays. */
  class VisDict {
    var entries: map<Key, array2<Vis>>

    /** The values the arrays hold, per key. */
    ghost function View(): (t: map<Key, Grid<Vis>>)
      reads this, entries.Values
    {
      map k | k in entries :: GridOf(entries[k])
    }

    /** No two keys share one array object. */
    ghost predicate Unaliased()
      reads this
    {
      forall k, l :: k in entries && l in entries && k != l ==> entries[k] != entries[l]
    }
  }

  ghost function FlagView(flags: Option<map<Key, array2<bool>>>): (v: Option<map<Key, Grid<bool>>>)
    reads if flags.Some? then flags.value.Values else {}
    ensures v.Some? <==> flags.Some?
    ensures flags.Some? ==> v.value.Keys == flags.value.Keys
    ensures flags.Some? ==> forall k :: k in flags.value ==> v.value[k] == GridOf(flags.value[k])
  {
    if flags.Some? then Some(map k | k in flags.value :: GridOf(flags.value[k])) else None
  }

  /** `z` has the shape of `a` and holds only zeros. */
  ghost predicate IsZerosLike(z: array2<Vis>, a: array2<Vis>)
    reads z
  {
    z.Length0 == a.Length0 && z.Length1 == a.Length1 &&
    forall r, c :: 0 <= r < z.Length0 && 0 <= c < z.Length1 ==> z[r, c] == Zero
  }

  /** `data[k] = np.zeros_like(data[k])`: the key is rebound to a new array
      of zeros; no other entry changes. */
  method ZeroEntry(data: VisDict, k: Key)
    requires k in data.entries
    modifies data
    ensures data.entries.Keys == old(data.entries.Keys)
    ensures forall l :: l in data.entries && l != k ==> data.entries[l] == old(data.entries[l])
    ensures fresh(data.entries[k]) && IsZerosLike(data.entries[k], old(data.entries[k]))
    ensures old(data.Unaliased()) ==> data.Unaliased()
  {
    var was := data.entries[k];
    var zeros := new Vis[was.Length0, was.Length1]((_, _) => Zero);
    data.entries := data.entries[k := zeros];
  }

  /** `ex_badants(data, bad_ants)`: every entry whose key touches a bad
      antenna is rebound to a new all-zero array of the same shape; the
      dictionary itself is returned. */
  method ExBadants(data: VisDict, badAnts: set<int>) returns (result: VisDict)
    modifies data
    ensures result == data
    ensures data.entries.Keys == old(data.entries.Keys)
    ensures data.View() == ZeroedBadAnts(old(data.View()), badAnts)
    ensures forall k :: k in data.entries && !Touches(k, badAnts) ==> data.entries[k] == old(data.entries[k])
    ensures forall k :: k in data.entries && Touches(k, badAnts) ==> fresh(data.entries[k])
    ensures old(data.Unaliased()) ==> data.Unaliased()
  {
    result := data;
    ghost var before := data.View();
    var todo := data.entries.Keys;
    while todo != {}
      invariant todo <= data.entries.Keys == old(data.entries.Keys)
      invariant forall k :: k in todo ==> data.entries[k] == old(data.entries[k])
      invariant forall k :: k in data.entries && k !in todo && !Touches(k, badAnts) ==> data.entries[k] == old(data.entries[k])
      invariant forall k :: k in data.entries && k !in todo && Touches(k, badAnts) ==>
        fresh(data.entries[k]) && IsZerosLike(data.entries[k], old(data.entries[k]))
      invariant old(data.Unaliased()) ==> data.Unaliased()
      decreases todo
    {
      var k :| k in todo;
      if Touches(k, badAnts) {
        ZeroEntry(data, k);
      }
      todo := todo - {k};
    }
    ZeroedView(data, old(data.entries), before, badAnts);
  }

  /** The cells of `a` are those of `g` masked: the sentinel in the edge
      columns and where `flag` is set, the value in `g` elsewhere. */
  ghost predicate MaskedCells(a: array2<Vis>, g: Grid<Vis>, flag: Option<array2<bool>>, edgeCut: int)
    reads a, if flag.Some? then {flag.value} else {}
  {
    WellShaped(g) && a.Length0 == g.rows && a.Length1 == g.cols &&
    (flag.Some? ==> flag.value.Length0 == a.Length0 && flag.value.Length1 == a.Length1) &&
    forall r, c :: 0 <= r < a.Length0 && 0 <= c < a.Length1 ==>
      a[r, c] == if InEdge(c, a.Length1, edgeCut) || (flag.Some? && flag.value[r, c]) then Sentinel else g.cells[r][c]
  }

  /** Once every key touching a bad antenna holds an array of zeros shaped
      like its old array, and every other key its old array, the
      dictionary's value is `before` with the bad baselines zeroed. */
  lemma ZeroedView(data: VisDict, was: map<Key, array2<Vis>>, before: map<Key, Grid<Vis>>, badAnts: set<int>)
    requires data.entries.Keys == was.Keys == before.Keys
    requires forall k :: k in was ==> before[k] == GridOf(was[k])
    requires forall k :: k in was && !Touches(k, badAnts) ==> data.entries[k] == was[k]
    requires forall k :: k in was && Touches(k, badAnts) ==> IsZerosLike(data.entries[k], was[k])
    ensures data.View() == ZeroedBadAnts(before, badAnts)
  {
    var after := data.View();
    forall k | k in before
      ensures Touches(k, badAnts) ==> ZerosOf(after[k], before[k])
      ensures !Touches(k, badAnts) ==> after[k] == before[k]
    {
      assert after[k] == GridOf(data.entries[k]);
    }
    ZeroedBadAntsUnique(before, after, badAnts);
  }

  /** `data[bl][:, :edge_cut] = s; data[bl][:, -edge_cut:] = s;
      data[bl][flag] = s` for one array. */
  method MaskArray(a: array2<Vis>, flag: Option<array2<bool>>, edgeCut: int)
    requires flag.Some? ==> flag.value.Length0 == a.Length0 && flag.value.Length1 == a.Length1
    modifies a
    ensures MaskedCells(a, old(GridOf(a)), flag, edgeCut)
  {
    var n := a.Length1;
    var lo := PySlice.Bound(edgeCut, n);
    forall r, c | 0 <= r < a.Length0 && 0 <= c < lo {
      a[r, c] := Sentinel;
    }
    var hi := PySlice.Bound(-edgeCut, n);
    forall r, c | 0 <= r < a.Length0 && hi <= c < n {
      a[r, c] := Sentinel;
    }
    if flag.Some? {
      var f := flag.value;
      forall r, c | 0 <= r < a.Length0 && 0 <= c < n && f[r, c] {
        a[r, c] := Sentinel;
      }
    }
  }

  /** The grid of an array whose cells are `g` masked is `g` masked. */
  lemma MaskedCellsGrid(a: array2<Vis>, g: Grid<Vis>, flag: Option<array2<bool>>, fg: Option<Grid<bool>>, edgeCut: int)
    requires MaskedCells(a, g, flag, edgeCut)
    requires fg == if flag.Some? then Some(GridOf(flag.value)) else None
    ensures FlagsFit(g, fg)
    ensures GridOf(a) == MaskGrid(g, fg, edgeCut)
  {
    GridExt(GridOf(a), MaskGrid(g, fg, edgeCut));
  }

  /** `apply_mask(data, flags, edge_cut)`: in every array of the dictionary
      the band-edge columns and, when flags are given, the flagged cells
      are overwritten in place with the sentinel; the dictionary itself is
      returned. As in Python, flags default to none and the cut to 100. */
  method ApplyMask(data: VisDict, flags: Option<map<Key, array2<bool>>> := None, edgeCut: int := 100)
    returns (result: VisDict)
    requires data.Unaliased()
    requires flags.Some? ==> forall k :: k in data.entries ==>
      k in flags.value && flags.value[k].Length0 == data.entries[k].Length0 && flags.value[k].Length1 == data.entries[k].Length1
    modifies data.entries.Values
    ensures result == data && data.entries == old(data.entries)
    ensures MaskableTable(old(data.View()), FlagView(flags))
    ensures data.View() == Masked(old(data.View()), FlagView(flags), edgeCut)
  {
    result := data;
    ghost var before := data.View();
    var entries := data.entries;
    var todo := entries.Keys;
    while todo != {}
      invariant todo <= entries.Keys
      invariant data.entries == entries
      invariant forall k :: k in todo ==> unchanged(entries[k])
      invariant forall k :: k in entries && k !in todo ==>
        MaskedCells(entries[k], old(GridOf(entries[k])), FlagArray(flags, k), edgeCut)
      decreases todo
    {
      var k :| k in todo;
      MaskArray(entries[k], FlagArray(flags, k), edgeCut);
      todo := todo - {k};
    }
    MaskedView(data, before, flags, edgeCut);
  }

  /** Once every array of `data` holds its cells of `before` masked, the
      dictionary's value is `before` masked. */
  lemma MaskedView(data: VisDict, before: map<Key, Grid<Vis>>, flags: Option<map<Key, array2<bool>>>, edgeCut: int)
    requires before.Keys == data.entries.Keys
    requires flags.Some? ==> forall k :: k in data.entries ==> k in flags.value
    requires forall k :: k in data.entries ==>
      MaskedCells(data.entries[k], before[k], FlagArray(flags, k), edgeCut)
    ensures MaskableTable(before, FlagView(flags))
    ensures data.View() == Masked(before, FlagView(flags), edgeCut)
  {
    var fv := FlagView(flags);
    var after := data.View();
    forall k | k in before
      ensures FlagsFit(before[k], FlagFor(fv, k))
      ensures after[k] == MaskGrid(before[k], FlagFor(fv, k), edgeCut)
    {
      assert after[k] == GridOf(data.entries[k]);
      MaskedCellsGrid(data.entries[k], before[k], FlagArray(flags, k), FlagFor(fv, k), edgeCut);
    }
    MaskedUnique(before, fv, edgeCut, after);
  }

  /** The flag array for key `k`, when flags were given. */
  function FlagArray(flags: Option<map<Key, array2<bool>>>, k: Key): Option<array2<bool>>
    requires flags.Some? ==> k in flags.value
  {
    if flags.Some? then Some(flags.value[k]) else None
  }
}
