/**
 * Counting glyphs in a row of reviewer cells: the per-glyph counts and their
 * sum ⅀ that `make_reviewer_matrix` builds with `unstack().dropna()`,
 * `groupby(...).size()` and `sum(axis=1)` (reviewer-matrix.py:133-143).
 */
module Summary {

  /** Number of cells holding `g`. */
  function Count(cells: seq<string>, g: string): nat
  {
    if cells == [] then 0
    else (if cells[0] == g then 1 else 0) + Count(cells[1..], g)
  }

  /** Number of non-empty cells. */
  function Filled(cells: seq<string>): nat
  {
    if cells == [] then 0
    else (if cells[0] != "" then 1 else 0) + Filled(cells[1..])
  }

  /** Number of cells holding one of `gs`. */
  function CountIn(cells: seq<string>, gs: seq<string>): nat
  {
    if cells == [] then 0
    else (if cells[0] in gs then 1 else 0) + CountIn(cells[1..], gs)
  }

  function Sum(xs: seq<nat>): nat
  {
    if xs == [] then 0 else xs[0] + Sum(xs[1..])
  }

  predicate Distinct(gs: seq<string>)
  {
    forall i, j :: 0 <= i < j < |gs| ==> gs[i] != gs[j]
  }

  /** The count of each glyph of `gs`, in the order of `gs`. */
  function Counts(cells: seq<string>, gs: seq<string>): (r: seq<nat>)
    ensures |r| == |gs|
    ensures forall k :: 0 <= k < |gs| ==> r[k] == Count(cells, gs[k])
  {
    seq(|gs|, k requires 0 <= k < |gs| => Count(cells, gs[k]))
  }

  /** A cell is non-empty exactly when it is counted under some glyph. */
  lemma {:induction false} FilledIsPositive(cells: seq<string>)
    ensures Filled(cells) > 0 <==> exists j :: 0 <= j < |cells| && cells[j] != ""
  {
    if cells != [] {
      FilledIsPositive(cells[1..]);
      if cells[0] == "" {
        forall j | 1 <= j < |cells| ensures cells[j] == cells[1..][j - 1] { }
      } else {
        assert cells[0] != "";
      }
    }
  }

  lemma {:induction false} CountInCons(cells: seq<string>, g: string, gs: seq<string>)
    requires g !in gs
    ensures CountIn(cells, [g] + gs) == Count(cells, g) + CountIn(cells, gs)
  {
    if cells != [] {
      CountInCons(cells[1..], g, gs);
    }
  }

  /** Summing the per-glyph counts of distinct glyphs counts each cell of those glyphs once. */
  lemma {:induction false} SumOfCounts(cells: seq<string>, gs: seq<string>)
    requires Distinct(gs)
    ensures Sum(Counts(cells, gs)) == CountIn(cells, gs)
  {
    if gs == [] {
      assert CountIn(cells, gs) == 0 by { NoneCounted(cells, gs); }
    } else {
      assert Counts(cells, gs)[1..] == Counts(cells, gs[1..]);
      SumOfCounts(cells, gs[1..]);
      assert gs == [gs[0]] + gs[1..];
      assert gs[0] !in gs[1..] by {
        forall j | 1 <= j < |gs| ensures gs[j] != gs[0] { }
      }
      CountInCons(cells, gs[0], gs[1..]);
    }
  }

  lemma {:induction false} NoneCounted(cells: seq<string>, gs: seq<string>)
    requires gs == []
    ensures CountIn(cells, gs) == 0
  {
    if cells != [] {
      NoneCounted(cells[1..], gs);
    }
  }

  /** When `gs` holds every non-empty cell and not "", counting `gs` counts the non-empty cells. */
  lemma {:induction false} CountInIsFilled(cells: seq<string>, gs: seq<string>)
    requires "" !in gs
    requires forall j :: 0 <= j < |cells| && cells[j] != "" ==> cells[j] in gs
    ensures CountIn(cells, gs) == Filled(cells)
  {
    if cells != [] {
      assert forall j :: 0 <= j < |cells[1..]| && cells[1..][j] != "" ==> cells[1..][j] in gs by {
        forall j | 0 <= j < |cells[1..]| && cells[1..][j] != "" ensures cells[1..][j] in gs {
          assert cells[1..][j] == cells[j + 1];
        }
      }
      CountInIsFilled(cells[1..], gs);
    }
  }

  /**
   * ⅀ as the source computes it (the sum of the per-glyph counts) is the
   * number of non-empty cells, when the glyph columns are distinct and cover
   * every non-empty cell.
   */
  lemma TotalIsFilled(cells: seq<string>, gs: seq<string>)
    requires Distinct(gs) && "" !in gs
    requires forall j :: 0 <= j < |cells| && cells[j] != "" ==> cells[j] in gs
    ensures Sum(Counts(cells, gs)) == Filled(cells)
  {
    SumOfCounts(cells, gs);
    CountInIsFilled(cells, gs);
  }

  /** A glyph that occurs in the cells has a positive count. */
  lemma {:induction false} CountPositive(cells: seq<string>, g: string)
    ensures Count(cells, g) > 0 <==> g in cells
  {
    if cells != [] {
      CountPositive(cells[1..], g);
      assert g in cells <==> cells[0] == g || g in cells[1..] by {
        assert cells == [cells[0]] + cells[1..];
      }
    }
  }
}
