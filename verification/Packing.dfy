/** How closed windows are packed into batches: greedily, a window never split, a batch
    never over the row limit and of one fact set version. The batch key is the start
    of its first window. */
module Packing {
  import opened Wrappers
  import opened Folding
  import opened Sequences

  /** A finished window waiting for its batch. */
  datatype Closed<C> = Closed(start: int, facts: int, rows: seq<Row<C>>)

  datatype Batch<C> = Batch(key: int, facts: int, rows: seq<Row<C>>)

  /** The windows that share a batch. */
  type Group<C> = seq<Closed<C>>

  function RowsIn<C>(g: Group<C>): seq<Row<C>> {
    if g == [] then [] else RowsIn(g[..|g| - 1]) + g[|g| - 1].rows
  }

  function Flatten<C>(gs: seq<Group<C>>): seq<Closed<C>> {
    if gs == [] then [] else Flatten(gs[..|gs| - 1]) + gs[|gs| - 1]
  }

  predicate Fits<C>(g: Group<C>, w: Closed<C>, maxRows: nat) {
    g != [] && |RowsIn(g)| + |w.rows| <= maxRows && g[0].facts == w.facts
  }

  function Extend<C>(gs: seq<Group<C>>, w: Closed<C>, maxRows: nat): seq<Group<C>> {
    var n := |gs| - 1;
    if gs != [] && Fits(gs[n], w, maxRows) then gs[..n] + [gs[n] + [w]] else gs + [[w]]
  }

  function Groups<C>(ws: seq<Closed<C>>, maxRows: nat): seq<Group<C>> {
    if ws == [] then [] else Extend(Groups(ws[..|ws| - 1], maxRows), ws[|ws| - 1], maxRows)
  }

  function BatchOf<C>(g: Group<C>): Batch<C>
    requires g != []
  {
    Batch(g[0].start, g[0].facts, RowsIn(g))
  }

  /** Windows in the order of their starts, no two the same. */
  ghost predicate Rising<C>(ws: seq<Closed<C>>) {
    forall i, j | 0 <= i < j < |ws| :: ws[i].start < ws[j].start
  }

  ghost predicate Below<C>(ws: seq<Closed<C>>, edge: int) {
    forall i | 0 <= i < |ws| :: ws[i].start < edge
  }

  ghost predicate NonEmpty<C>(gs: seq<Group<C>>) {
    forall i | 0 <= i < |gs| :: gs[i] != []
  }

  // ---------------------------------------------------------------- what packing keeps

  lemma FlattenNext<C>(gs: seq<Group<C>>, g: Group<C>)
    ensures Flatten(gs + [g]) == Flatten(gs) + g
  {
    PushInit(gs, g);
  }

  lemma GroupsNext<C>(ws: seq<Closed<C>>, w: Closed<C>, maxRows: nat)
    ensures Groups(ws + [w], maxRows) == Extend(Groups(ws, maxRows), w, maxRows)
    ensures ws == [] ==> ws + [w] == [w] && Groups(ws + [w], maxRows) == [[w]]
  {
    PushInit(ws, w);
  }

  /** Packing loses, repeats and reorders no window. */
  lemma {:induction false} GroupsFlatten<C>(ws: seq<Closed<C>>, maxRows: nat)
    ensures Flatten(Groups(ws, maxRows)) == ws
  {
    if ws != [] {
      GroupsFlatten(ws[..|ws| - 1], maxRows);
      LastApart(ws);
    }
  }

  lemma {:induction false} GroupsNonEmpty<C>(ws: seq<Closed<C>>, maxRows: nat)
    ensures NonEmpty(Groups(ws, maxRows))
  {
    if ws != [] {
      GroupsNonEmpty(ws[..|ws| - 1], maxRows);
    }
  }

  /** No batch is over the limit, and each holds one fact set version. */
  lemma {:induction false} GroupsBounded<C>(ws: seq<Closed<C>>, maxRows: nat)
    requires forall i | 0 <= i < |ws| :: |ws[i].rows| <= maxRows
    ensures forall i | 0 <= i < |Groups(ws, maxRows)| ::
              var g := Groups(ws, maxRows)[i];
              g != [] && |RowsIn(g)| <= maxRows && forall w | w in g :: w.facts == g[0].facts
  {
    if ws != [] {
      var n := |ws| - 1;
      var w := ws[n];
      GroupsBounded(ws[..n], maxRows);
      var gs := Groups(ws[..n], maxRows);
      var m := |gs| - 1;
      if gs != [] && Fits(gs[m], w, maxRows) {
        assert (gs[m] + [w])[..|gs[m]|] == gs[m];
        assert RowsIn(gs[m] + [w]) == RowsIn(gs[m]) + w.rows;
      } else {
        assert [w][..0] == [];
        assert RowsIn([w]) == w.rows;
      }
    }
  }

  /** `b` is `a` with more windows at the end: of its last batch, or in new batches. */
  ghost predicate GrowsInto<C>(a: seq<Group<C>>, b: seq<Group<C>>) {
    && |a| <= |b|
    && (forall i | 0 <= i < |a| - 1 :: b[i] == a[i])
    && (a != [] ==> a[|a| - 1] <= b[|a| - 1])
  }

  lemma ExtendGrows<C>(a: seq<Group<C>>, b: seq<Group<C>>, w: Closed<C>, maxRows: nat)
    requires GrowsInto(a, b)
    ensures GrowsInto(a, Extend(b, w, maxRows))
  {
  }

  /** Windows that close later never regroup the earlier ones: every batch but the last
      is as it was, and the last can only have grown at its end. */
  lemma {:induction false} PrefixStable<C>(p: seq<Closed<C>>, q: seq<Closed<C>>, maxRows: nat)
    ensures GrowsInto(Groups(p, maxRows), Groups(p + q, maxRows))
  {
    if q == [] {
      AppendNothing(p, q);
    } else {
      var n := |q| - 1;
      PrefixStable(p, q[..n], maxRows);
      AppendInit(p, q);
      ExtendGrows(Groups(p, maxRows), Groups(p + q[..n], maxRows), q[n], maxRows);
    }
  }

  /** After the first `k` batches are gone, packing the windows left gives the other
      batches unchanged. */
  lemma {:induction false} SuffixStable<C>(ws: seq<Closed<C>>, k: nat, maxRows: nat)
    requires k <= |Groups(ws, maxRows)|
    ensures var cut := |Flatten(Groups(ws, maxRows)[..k])|;
            cut <= |ws| && Groups(ws[cut..], maxRows) == Groups(ws, maxRows)[k..]
  {
    var gs := Groups(ws, maxRows);
    GroupsFlatten(ws, maxRows);
    if k == |gs| {
      assert gs[..k] == gs;
    } else {
      var n := |ws| - 1;
      var init, w := ws[..n], ws[n];
      var hs := Groups(init, maxRows);
      var cut := |Flatten(hs[..k])|;
      SuffixStable(init, k, maxRows);
      assert gs[..k] == hs[..k];
      ExtendLater(hs, k, w, maxRows);
      RepackLast(ws, cut, maxRows);
    }
  }

  lemma RepackLast<C>(ws: seq<Closed<C>>, cut: nat, maxRows: nat)
    requires cut < |ws|
    ensures Groups(ws[cut..], maxRows) == Extend(Groups(ws[..|ws| - 1][cut..], maxRows), ws[|ws| - 1], maxRows)
  {
    assert ws[cut..][..|ws| - 1 - cut] == ws[..|ws| - 1][cut..];
  }

  lemma ExtendLater<C>(hs: seq<Group<C>>, k: nat, w: Closed<C>, maxRows: nat)
    requires k < |hs| || (k == |hs| && hs == Extend(hs, w, maxRows)[..k])
    ensures Extend(hs[k..], w, maxRows) == Extend(hs, w, maxRows)[k..]
  {
    var n := |hs| - 1;
    if k < |hs| {
      assert hs[k..][n - k] == hs[n];
      if Fits(hs[n], w, maxRows) {
        assert hs[k..][..n - k] == hs[..n][k..];
      }
    }
  }
}
