/** The two greedy layout routines: shrink the widest column until the table fits,
    and shrink the columns round by round. */
module ColumnWidths {

  function Sum(w: seq<int>): int {
    if w == [] then 0 else Sum(w[..|w| - 1]) + w[|w| - 1]
  }

  lemma {:induction false} SumUpdate(w: seq<int>, i: nat, v: int)
    requires i < |w|
    ensures Sum(w[i := v]) == Sum(w) - w[i] + v
  {
    var n := |w| - 1;
    if i < n {
      SumUpdate(w[..n], i, v);
      assert w[i := v][..n] == w[..n][i := v];
    } else {
      assert w[i := v][..n] == w[..n];
    }
  }

  lemma {:induction false} SumOrder(v: seq<int>, w: seq<int>)
    requires |v| == |w| && forall i | 0 <= i < |v| :: v[i] <= w[i]
    ensures Sum(v) <= Sum(w)
    ensures Sum(v) == Sum(w) ==> v == w
  {
    if v != [] {
      SumOrder(v[..|v| - 1], w[..|w| - 1]);
      assert v == v[..|v| - 1] + [v[|v| - 1]] && w == w[..|w| - 1] + [w[|w| - 1]];
    }
  }

  lemma {:induction false} SumConstant(w: seq<int>, c: int)
    requires forall i | 0 <= i < |w| :: w[i] == c
    ensures Sum(w) == c * |w|
  {
    if w != [] {
      SumConstant(w[..|w| - 1], c);
    }
  }

  // ---- widest first -----------------------------------------------------

  /** The lengths of the strings of a table. */
  datatype Table = Table(names: seq<nat>, minw: seq<int>, subhdrs: seq<nat>, cells: seq<seq<nat>>) {
    predicate Valid() {
      |minw| == |names| && |subhdrs| == |names|
      && forall r | 0 <= r < |cells| :: |cells[r]| == |names|
    }

    /** w shows column i in full: its name, sub-header, every cell, its minimum. */
    predicate Shows(i: nat, rows: nat, w: int)
      requires Valid() && i < |names| && rows <= |cells|
    {
      w >= names[i] && w >= minw[i] && w >= subhdrs[i]
      && forall r | 0 <= r < rows :: w >= cells[r][i]
    }

    /** The least such width: it shows the column and is one of the lengths. */
    predicate Desires(i: nat, rows: nat, w: int)
      requires Valid() && i < |names| && rows <= |cells|
    {
      Shows(i, rows, w)
      && (w == names[i] || w == minw[i] || w == subhdrs[i] || exists r | 0 <= r < rows :: w == cells[r][i])
    }

    predicate DesiresAll(desired: seq<int>)
      requires Valid()
    {
      |desired| == |names| && forall i | 0 <= i < |names| :: Desires(i, |cells|, desired[i])
    }

    /** No column is taken below its minimum, nor below -1. */
    function Low(i: nat): int
      requires Valid() && i < |names|
    {
      if minw[i] < -1 then -1 else minw[i]
    }

    predicate Feasible(w: seq<int>, desired: seq<int>)
      requires Valid() && |desired| == |names|
    {
      |w| == |names| && forall i | 0 <= i < |names| :: Low(i) <= w[i] <= desired[i]
    }

    /** A shrunk column is at least as wide as any column that can still shrink,
        less one. */
    predicate Leveled(w: seq<int>, desired: seq<int>)
      requires Valid() && |w| == |desired| == |names|
    {
      forall i, j | 0 <= i < |names| && 0 <= j < |names| && w[i] < desired[i] && w[j] > Low(j) :: w[j] - 1 <= w[i]
    }

    predicate AtMinimum(w: seq<int>)
      requires Valid() && |w| == |names|
    {
      forall i | 0 <= i < |names| :: w[i] == Low(i)
    }

    /** Optimality: any other widths within the same bounds and of the same total
        have, for every column of w, some column at least as wide; so none has a
        smaller largest width. */
    lemma LeveledIsOptimal(w: seq<int>, desired: seq<int>, other: seq<int>, i: nat)
      requires Valid() && |desired| == |names| && i < |names|
      requires Feasible(w, desired) && Leveled(w, desired)
      requires Feasible(other, desired) && Sum(other) == Sum(w)
      ensures exists j | 0 <= j < |names| :: other[j] >= w[i]
    {
      if forall j | 0 <= j < |names| :: other[j] < w[i] {
        forall j | 0 <= j < |names| ensures other[j] <= w[j] {
          assert w[j] < desired[j] ==> w[i] - 1 <= w[j];
        }
        SumOrder(other, w);
        assert false;
      }
    }
  }

  method DesiredWidth(t: Table, i: nat) returns (w: int)
    requires t.Valid() && i < |t.names|
    ensures t.Desires(i, |t.cells|, w)
  {
    w := t.names[i];
    if w < t.minw[i] { w := t.minw[i]; }
    if t.subhdrs[i] > w { w := t.subhdrs[i]; }
    for r := 0 to |t.cells|
      invariant t.Desires(i, r, w)
    {
      if t.cells[r][i] > w { w := t.cells[r][i]; }
    }
  }

  /** idx is the first widest of the columns before n that can still shrink. */
  predicate FirstWidest(t: Table, w: seq<int>, n: nat, idx: int)
    requires t.Valid() && n <= |t.names| && n <= |w|
  {
    if idx < 0 then forall i | 0 <= i < n :: w[i] <= t.Low(i)
    else idx < n && w[idx] > t.Low(idx) && forall i | 0 <= i < n && w[i] > t.Low(i) ::
           w[i] <= w[idx] && (i < idx ==> w[i] < w[idx])
  }

  method WidestShrinkable(t: Table, out: array<int>) returns (maxidx: int)
    requires t.Valid() && |t.names| <= out.Length
    ensures FirstWidest(t, out[..], |t.names|, maxidx)
  {
    var maxw := -1;
    maxidx := -1;
    for i := 0 to |t.names|
      invariant FirstWidest(t, out[..], i, maxidx)
      invariant maxw == if maxidx < 0 then -1 else out[maxidx]
    {
      if out[i] > maxw && out[i] > t.minw[i] {
        maxw, maxidx := out[i], i;
      }
    }
  }

  method FillDesired(t: Table, out: array<int>) returns (need: int)
    requires t.Valid() && |t.names| <= out.Length
    modifies out
    ensures t.DesiresAll(out[..|t.names|]) && need == Sum(out[..|t.names|])
    ensures out[|t.names|..] == old(out[|t.names|..])
  {
    need := 0;
    for i := 0 to |t.names|
      invariant need == Sum(out[..i])
      invariant forall k | 0 <= k < i :: t.Desires(k, |t.cells|, out[k])
      invariant out[|t.names|..] == old(out[|t.names|..])
    {
      out[i] := DesiredWidth(t, i);
      need := need + out[i];
      assert out[..i + 1][..i] == out[..i];
    }
  }

  /** Taking one from the widest column that can shrink keeps the widths leveled. */
  lemma LeveledMore(t: Table, w: seq<int>, all: seq<int>, desired: seq<int>, i: nat)
    requires t.Valid() && |t.names| == |desired| == |w| <= |all| && w == all[..|w|]
    requires t.Feasible(w, desired) && t.Leveled(w, desired) && FirstWidest(t, all, |w|, i)
    ensures i < |w| && t.Feasible(w[i := w[i] - 1], desired) && t.Leveled(w[i := w[i] - 1], desired)
    ensures Sum(w[i := w[i] - 1]) == Sum(w) - 1
  {
    assert forall j | 0 <= j < |w| :: all[j] == w[j];
    SumUpdate(w, i, w[i] - 1);
  }

  /** The shrinking loop, from any leveled widths. */
  method ShrinkWidest(t: Table, out: array<int>, excess: nat, ghost desired: seq<int>)
    requires t.Valid() && |t.names| == |desired| <= out.Length
    requires t.Feasible(out[..|t.names|], desired) && t.Leveled(out[..|t.names|], desired)
    modifies out
    ensures var w := out[..|t.names|]; var total := old(Sum(out[..|t.names|])) - excess;
      t.Feasible(w, desired) && t.Leveled(w, desired) &&
      (Sum(w) == total || (Sum(w) > total && t.AtMinimum(w)))
    ensures out[|t.names|..] == old(out[|t.names|..])
  {
    var n, over := |t.names|, excess;
    while over > 0
      invariant Sum(out[..n]) - over == old(Sum(out[..n])) - excess
      invariant t.Feasible(out[..n], desired) && t.Leveled(out[..n], desired)
      invariant out[n..] == old(out[n..])
    {
      var maxidx := WidestShrinkable(t, out);
      if maxidx < 0 {
        break;
      }
      ghost var before := out[..n];
      LeveledMore(t, before, out[..], desired, maxidx);
      out[maxidx] := out[maxidx] - 1;
      over := over - 1;
      assert out[..n] == before[maxidx := before[maxidx] - 1];
    }
  }

  /** compute_widths. The columns keep their desired widths when the table fits;
      otherwise the total comes down to the available room or, if that cannot be
      reached, every column ends at its minimum; and the result is leveled. */
  method ComputeWidths(t: Table, availw: int, out: array<int>) returns (ghost desired: seq<int>)
    requires t.Valid() && |t.names| <= out.Length
    modifies out
    ensures t.DesiresAll(desired)
    ensures var w := out[..|t.names|]; var room := availw - |t.names| - 1;
      t.Feasible(w, desired) && t.Leveled(w, desired) &&
      (Sum(desired) <= room ==> w == desired) &&
      (Sum(desired) > room ==> Sum(w) == room || (Sum(w) > room && t.AtMinimum(w)))
    ensures out[|t.names|..] == old(out[|t.names|..])
  {
    var need := FillDesired(t, out);
    desired := out[..|t.names|];
    need := need + |t.names| + 1;
    if need > availw {
      ShrinkWidest(t, out, need - availw, desired);
    }
  }

  // ---- round by round ---------------------------------------------------

  const MIN_COL_WIDTH := 8

  /** A column's width after it was shrunk k times, stopping at the minimum. */
  function After(w: int, k: nat): int
    requires w >= MIN_COL_WIDTH
  {
    if w - k < MIN_COL_WIDTH then MIN_COL_WIDTH else w - k
  }

  /** Widths after r whole rounds and the first c columns of one more. */
  predicate Rounds(w: seq<int>, initial: seq<int>, r: nat, c: nat) {
    |w| == |initial| && forall i | 0 <= i < |w| ::
      initial[i] >= MIN_COL_WIDTH && w[i] == After(initial[i], if i < c then r + 1 else r)
  }

  function InitialWidth(contentMax: nat, autoFit: bool): (w: int)
    ensures w >= MIN_COL_WIDTH
    ensures w > MIN_COL_WIDTH <==> autoFit && contentMax + 2 > MIN_COL_WIDTH
  {
    if autoFit && contentMax + 2 >= MIN_COL_WIDTH then contentMax + 2 else MIN_COL_WIDTH
  }

  /** The sizing loop: content width plus padding, at least the minimum. */
  method FillInitial(contentMax: seq<nat>, autoFit: seq<bool>, colWidths: array<int>) returns (totalMin: int)
    requires |contentMax| == |autoFit| <= colWidths.Length
    modifies colWidths
    ensures totalMin == Sum(colWidths[..|contentMax|])
    ensures forall i | 0 <= i < |contentMax| :: colWidths[i] == InitialWidth(contentMax[i], autoFit[i])
    ensures colWidths[|contentMax|..] == old(colWidths[|contentMax|..])
  {
    totalMin := 0;
    for i := 0 to |contentMax|
      invariant totalMin == Sum(colWidths[..i])
      invariant forall k | 0 <= k < i :: colWidths[k] == InitialWidth(contentMax[k], autoFit[k])
      invariant colWidths[|contentMax|..] == old(colWidths[|contentMax|..])
    {
      colWidths[i] := if autoFit[i] then contentMax[i] + 2 else MIN_COL_WIDTH;
      if colWidths[i] < MIN_COL_WIDTH { colWidths[i] := MIN_COL_WIDTH; }
      totalMin := totalMin + colWidths[i];
      assert colWidths[..i + 1][..i] == colWidths[..i];
    }
  }

  /** What a round does to column c. */
  function Taken(w: seq<int>, c: nat): (w': seq<int>)
    requires c < |w|
    ensures |w'| == |w|
  {
    if w[c] > MIN_COL_WIDTH then w[c := w[c] - 1] else w
  }

  lemma OneTaken(w: seq<int>, initial: seq<int>, r: nat, c: nat)
    requires c < |w| && Rounds(w, initial, r, c)
    ensures Rounds(Taken(w, c), initial, r, c + 1) && w[c] >= MIN_COL_WIDTH
  {
    assert w[c] == After(initial[c], r);
  }

  /** One round: take one from each column above the minimum, in order, while width
      is still to be taken. */
  method ShrinkRound(colWidths: array<int>, n: nat, wanted: nat, ghost initial: seq<int>, ghost r: nat)
    returns (shrinkable: nat, reduced: bool, ghost c: nat)
    requires n == |initial| <= colWidths.Length && wanted > 0
    requires Rounds(colWidths[..n], initial, r, 0)
    modifies colWidths
    ensures Rounds(colWidths[..n], initial, r, c) && c <= n && (shrinkable > 0 ==> c == n)
    ensures shrinkable - Sum(colWidths[..n]) == wanted - old(Sum(colWidths[..n]))
    ensures if reduced then shrinkable < wanted
            else shrinkable == wanted && forall k | 0 <= k < n :: colWidths[k] == MIN_COL_WIDTH
    ensures colWidths[n..] == old(colWidths[n..])
  {
    shrinkable, reduced, c := wanted, false, 0;
    var i := 0;
    while i < n && shrinkable > 0
      invariant c == i <= n && shrinkable <= wanted
      invariant shrinkable - Sum(colWidths[..n]) == wanted - old(Sum(colWidths[..n]))
      invariant Rounds(colWidths[..n], initial, r, c)
      invariant if reduced then shrinkable < wanted
                else shrinkable == wanted && forall k | 0 <= k < i :: colWidths[k] == MIN_COL_WIDTH
      invariant colWidths[n..] == old(colWidths[n..])
    {
      ghost var before := colWidths[..n];
      OneTaken(before, initial, r, i);
      if colWidths[i] > MIN_COL_WIDTH {
        colWidths[i] := colWidths[i] - 1;
        shrinkable := shrinkable - 1;
        reduced := true;
        SumUpdate(before, i, before[i] - 1);
        assert colWidths[..n] == before[i := before[i] - 1];
      }
      assert colWidths[..n] == Taken(before, i);
      i := i + 1;
      c := c + 1;
    }
  }

  method ShrinkRounds(colWidths: array<int>, n: nat, excess: nat, ghost initial: seq<int>)
    returns (ghost r: nat, ghost c: nat)
    requires n == |initial| <= colWidths.Length
    requires Rounds(colWidths[..n], initial, 0, 0)
    modifies colWidths
    ensures Rounds(colWidths[..n], initial, r, c)
    ensures var total := old(Sum(colWidths[..n])) - excess;
            Sum(colWidths[..n]) == if total < MIN_COL_WIDTH * n then MIN_COL_WIDTH * n else total
    ensures colWidths[n..] == old(colWidths[n..])
  {
    var shrinkable: nat := excess;
    r, c := 0, 0;
    while shrinkable > 0
      invariant shrinkable - Sum(colWidths[..n]) == excess - old(Sum(colWidths[..n]))
      invariant Rounds(colWidths[..n], initial, r, c) && (shrinkable > 0 ==> c == 0)
      invariant colWidths[n..] == old(colWidths[n..])
    {
      var left, reduced;
      left, reduced, c := ShrinkRound(colWidths, n, shrinkable, initial, r);
      shrinkable := left;
      if !reduced {
        SumConstant(colWidths[..n], MIN_COL_WIDTH);
        break;
      }
      if shrinkable > 0 {
        r, c := r + 1, 0;
      }
    }
    SumFloor(colWidths[..n]);
  }

  /** compute_column_widths: the widths fill the window exactly, or every column is
      at the minimum because the window is too small for that; columns lose width
      in rounds, so no two that are above the minimum lost amounts more than one
      apart; spare room goes to the last column. */
  method ComputeColumnWidths(contentMax: seq<nat>, autoFit: seq<bool>, winW: int, colWidths: array<int>)
    returns (ghost initial: seq<int>, ghost r: nat, ghost c: nat)
    requires |contentMax| == |autoFit| && 0 < |contentMax| <= colWidths.Length
    modifies colWidths
    ensures |initial| == |contentMax|
    ensures forall i | 0 <= i < |initial| :: initial[i] == InitialWidth(contentMax[i], autoFit[i])
    ensures var n := |contentMax|; var available := winW - (n - 1) - 2; var w := colWidths[..n];
      Sum(w) == (if available < MIN_COL_WIDTH * n then MIN_COL_WIDTH * n else available) &&
      (forall i | 0 <= i < n :: w[i] >= MIN_COL_WIDTH) &&
      (if available < Sum(initial) then Rounds(w, initial, r, c)
       else w == initial[n - 1 := initial[n - 1] + (available - Sum(initial))])
    ensures colWidths[|contentMax|..] == old(colWidths[|contentMax|..])
  {
    var n := |contentMax|;
    var totalMin := FillInitial(contentMax, autoFit, colWidths);
    initial, r, c := colWidths[..n], 0, 0;
    var available := winW - (n - 1) - 2;
    SumFloor(initial);
    if available < totalMin {
      r, c := ShrinkRounds(colWidths, n, totalMin - available, initial);
    } else {
      var extra := available - totalMin;
      if extra > 0 {
        colWidths[n - 1] := colWidths[n - 1] + extra;
      }
      assert colWidths[..n] == initial[n - 1 := initial[n - 1] + extra];
      SumUpdate(initial, n - 1, initial[n - 1] + extra);
    }
    ghost var final := colWidths[..n];
    assert forall i | 0 <= i < n :: final[i] >= MIN_COL_WIDTH;
    for i := 0 to n
      invariant colWidths[..n] == final && colWidths[n..] == old(colWidths[n..])
    {
      if colWidths[i] < MIN_COL_WIDTH {
        colWidths[i] := MIN_COL_WIDTH;
      }
    }
  }

  lemma {:induction false} SumFloor(w: seq<int>)
    requires forall i | 0 <= i < |w| :: w[i] >= MIN_COL_WIDTH
    ensures Sum(w) >= MIN_COL_WIDTH * |w|
  {
    if w != [] {
      SumFloor(w[..|w| - 1]);
    }
  }
}
