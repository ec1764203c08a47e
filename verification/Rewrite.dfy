/** The loops of a split: merging a new cell into a page's cells, and rewriting a cleared page. */
module Rewrite {
  import opened Keys
  import opened RecordPage

  /** Collects the cells of a page with one more in its place. */
  method MergeCell<V>(cells: seq<Cell<V>>, c: Cell<V>) returns (all: seq<Cell<V>>)
    requires Sorted(cells)
    ensures all == InsertAt(cells, LowerBound(cells, c.key), c)
  {
    hide Rank, Sorted, LowerBound;
    ghost var n := LowerBound(cells, c.key);
    all := [];
    var inserted := false;
    for i := 0 to |cells|
      invariant inserted <==> n < i
      invariant all == if inserted then cells[..n] + [c] + cells[n..i] else cells[..i]
    {
      var cmp := CompareKeys(c.key, cells[i].key);
      assert i == n ==> cmp <= 0;
      assert i < n ==> cmp > 0;
      if !inserted && cmp <= 0 {
        all := all + [c];
        inserted := true;
        assert cells[n..n] == [];
      }
      all := all + [cells[i]];
      assert cells[..i+1] == cells[..i] + [cells[i]];
      assert n <= i ==> cells[n..i+1] == cells[n..i] + [cells[i]];
    }
    assert cells[n..|cells|] == cells[n..] && cells[..|cells|] == cells;
    if !inserted {
      all := all + [c];
    }
  }

  lemma AppendPosition<V>(cells: seq<Cell<V>>, i: nat)
    requires Sorted(cells) && i < |cells|
    ensures LowerBound(cells[..i], cells[i].key) == i
    ensures InsertAt(cells[..i], i, cells[i]) == cells[..i+1]
  {
  }

  lemma CostPrefix<V>(cells: seq<Cell<V>>, i: nat, size: Cell<V> -> nat)
    requires i < |cells|
    ensures Cost(cells[..i+1], size) == Cost(cells[..i], size) + size(cells[i]) + CELL_PTR_SIZE <= Cost(cells, size)
  {
    assert cells == cells[..i+1] + cells[i+1..];
    CostAppend(cells[..i+1], cells[i+1..], size);
    assert cells[..i+1][..i] == cells[..i];
  }

  /** Writes pairs into a cleared leaf. On ErrPageFull the page keeps the pairs written so far. */
  method WriteLeaf(empty: Page, pairs: seq<Pair>) returns (p: Page, ok: bool, n: nat)
    requires empty == EmptyLeaf(empty.right) && Sorted(pairs)
    ensures p.Leaf? && p.right == empty.right && n <= |pairs| && p.pairs == pairs[..n] && Fits(p)
    ensures n == Fitting(pairs, PairSize)
    ensures ok <==> Cost(pairs, PairSize) <= USABLE
    ensures ok <==> n == |pairs|
  {
    hide Rank, Sorted, LowerBound, Cost;
    p := empty;
    n := 0;
    assert Cost(pairs[..0], PairSize) == 0 by { CostEmpty(pairs[..0], PairSize); }
    while n < |pairs|
      invariant n <= |pairs| && p.Leaf? && p.right == empty.right && p.pairs == pairs[..n]
      invariant Room(p) == USABLE - Cost(pairs[..n], PairSize) >= 0
    {
      CostPrefix(pairs, n, PairSize);
      AppendPosition(pairs, n);
      var q := LeafInsert(p, pairs[n].key, pairs[n].data);
      if q.None? {
        FittingIs(pairs, n, PairSize);
        return p, false, n;
      }
      p := q.value;
      n := n + 1;
    }
    assert pairs[..n] == pairs;
    FittingIs(pairs, n, PairSize);
    ok := true;
  }

  lemma CostEmpty<V>(cells: seq<Cell<V>>, size: Cell<V> -> nat)
    requires |cells| == 0
    ensures Cost(cells, size) == 0
  {
  }

  ghost predicate Ascending(seps: seq<Separator>) {
    forall i, j :: 0 <= i < j < |seps| ==> Rank(seps[i].key) <= Rank(seps[j].key)
  }

  ghost predicate Alone(seps: seq<Separator>, i: nat) {
    i < |seps| && forall j :: 0 <= j < |seps| && j != i ==> seps[j].key != seps[i].key
  }

  /** Cells written one after the other into an empty page: the keys as given, and every cell whose key occurs once. */
  ghost predicate Copied(out: seq<Separator>, seps: seq<Separator>) {
    && |out| == |seps|
    && (forall i :: 0 <= i < |seps| ==> out[i].key == seps[i].key)
    && (forall i :: 0 <= i < |seps| && Alone(seps, i) ==> out[i] == seps[i])
  }

  lemma CopiedSorted(out: seq<Separator>, seps: seq<Separator>)
    requires Sorted(seps) && Copied(out, seps)
    ensures out == seps
  {
    hide Rank;
    forall i | 0 <= i < |seps| ensures out[i] == seps[i] {
      assert Alone(seps, i);
    }
  }

  lemma CopiedAlone(out: seq<Separator>, seps: seq<Separator>, i: nat)
    requires Copied(out, seps) && Alone(seps, i)
    ensures i < |out| && out[i] == seps[i]
  {
  }

  lemma CopiedKey(out: seq<Separator>, seps: seq<Separator>, n: nat, j: nat)
    requires n <= |seps| && Copied(out, seps[..n]) && j < n
    ensures |out| == n && out[j].key == seps[j].key && (Alone(seps[..n], j) ==> out[j] == seps[j])
  {
    assert seps[..n][j] == seps[j];
  }

  /** Cells at or behind the position of a key that is not below any of them carry that key. */
  lemma TailHasKey(out: seq<Separator>, seps: seq<Separator>, n: nat, j: nat)
    requires Ascending(seps) && n < |seps| && Copied(out, seps[..n])
    requires LowerBound(out, seps[n].key) <= j < n
    ensures out[j].key == seps[n].key
  {
    hide Copied, Rank;
    var b := LowerBound(out, seps[n].key);
    CopiedKey(out, seps, n, j);
    CopiedKey(out, seps, n, b);
    hide LowerBound;
    assert Rank(seps[b].key) <= Rank(seps[j].key) <= Rank(seps[n].key);
    RankIsLexicographic(out[j].key, seps[n].key);
  }

  lemma LastNotAlone(seps: seq<Separator>, n: nat)
    requires 0 < n < |seps| && seps[n-1].key == seps[n].key
    ensures !Alone(seps[..n+1], n)
  {
    assert seps[..n+1][n-1].key == seps[..n+1][n].key;
  }

  lemma InsertedIs<V>(cells: seq<Cell<V>>, b: nat, c: Cell<V>, i: nat)
    requires b <= |cells| && i <= |cells|
    ensures |InsertAt(cells, b, c)| == |cells| + 1
    ensures InsertAt(cells, b, c)[i] == if i < b then cells[i] else if i == b then c else cells[i-1]
  {
  }

  lemma CopyNextAt(out: seq<Separator>, seps: seq<Separator>, n: nat, i: nat)
    requires Ascending(seps) && n < |seps| && Copied(out, seps[..n]) && i <= n
    ensures var r := InsertAt(out, LowerBound(out, seps[n].key), seps[n]);
      |r| == n + 1 && r[i].key == seps[i].key && (Alone(seps[..n+1], i) ==> r[i] == seps[i])
  {
    hide *;
    var b := LowerBound(out, seps[n].key);
    CopiedSize(out, seps[..n]);
    InsertedIs(out, b, seps[n], i);
    if i < n {
      CopiedKey(out, seps, n, i);
      if Alone(seps[..n+1], i) {
        AloneBefore(seps, i, n);
      }
      if b <= i {
        TailHasKey(out, seps, n, i);
        NotAloneWith(seps, i, n);
      }
    }
    if b < i {
      TailHasKey(out, seps, n, i - 1);
      CopiedKey(out, seps, n, i - 1);
      if i == n {
        LastNotAlone(seps, n);
      }
    }
  }

  lemma NotAloneWith(seps: seq<Separator>, i: nat, n: nat)
    requires i < n < |seps| && seps[i].key == seps[n].key
    ensures !Alone(seps[..n+1], i)
  {
    assert seps[..n+1][n].key == seps[..n+1][i].key;
  }

  /** Writing one more cell: it goes in front of cells with its own key. */
  lemma CopyNext(out: seq<Separator>, seps: seq<Separator>, n: nat)
    requires Ascending(seps) && n < |seps| && Copied(out, seps[..n])
    ensures Copied(InsertAt(out, LowerBound(out, seps[n].key), seps[n]), seps[..n+1])
  {
    hide Rank, Ascending, LowerBound, Alone;
    var r := InsertAt(out, LowerBound(out, seps[n].key), seps[n]);
    forall i | 0 <= i <= n ensures r[i].key == seps[i].key && (Alone(seps[..n+1], i) ==> r[i] == seps[i]) {
      CopyNextAt(out, seps, n, i);
    }
  }

  lemma AloneBefore(seps: seq<Separator>, i: nat, n: nat)
    requires i < n < |seps| && Alone(seps[..n+1], i)
    ensures Alone(seps[..n], i) && seps[i].key != seps[n].key
  {
    assert seps[..n+1][n].key != seps[..n+1][i].key;
    forall j | 0 <= j < n && j != i ensures seps[..n][j].key != seps[..n][i].key {
      assert seps[..n+1][j].key != seps[..n+1][i].key;
    }
  }

  lemma SameKeysCost(a: seq<Separator>, b: seq<Separator>)
    requires |a| == |b| && forall i :: 0 <= i < |a| ==> a[i].key == b[i].key
    ensures Cost(a, SepSize) == Cost(b, SepSize)
    decreases |a|
  {
    if |a| > 0 {
      SameKeysCost(a[..|a|-1], b[..|b|-1]);
    }
  }

  /** The same for an internal page; its right pointer is set afterwards. */
  method WriteInternal(empty: Page, seps: seq<Separator>) returns (p: Page, ok: bool, n: nat)
    requires empty == EmptyInternal(empty.right) && Ascending(seps)
    ensures p.Internal? && p.right == empty.right && n <= |seps| && Copied(p.seps, seps[..n]) && Fits(p)
    ensures n == Fitting(seps, SepSize)
    ensures ok <==> Cost(seps, SepSize) <= USABLE
    ensures ok <==> n == |seps|
  {
    hide Rank, Ascending, LowerBound, Cost, Copied;
    p := empty;
    n := 0;
    assert Cost(seps[..0], SepSize) == 0 by { CostEmpty(seps[..0], SepSize); }
    assert Copied([], seps[..0]) by { CopyNone(seps); }
    while n < |seps|
      invariant n <= |seps| && p.Internal? && p.right == empty.right && Copied(p.seps, seps[..n])
      invariant Room(p) == USABLE - Cost(seps[..n], SepSize) >= 0 && Used(p) == Cost(seps[..n], SepSize)
    {
      CostPrefix(seps, n, SepSize);
      CopyNext(p.seps, seps, n);
      CopiedSize(p.seps, seps[..n]);
      CostInsert(p.seps, LowerBound(p.seps, seps[n].key), seps[n], SepSize);
      var q := InternalInsert(p, seps[n].data, seps[n].key);
      if q.None? {
        FittingIs(seps, n, SepSize);
        return p, false, n;
      }
      p := q.value;
      n := n + 1;
    }
    assert seps[..n] == seps;
    FittingIs(seps, n, SepSize);
    ok := true;
  }

  lemma CopyNone(seps: seq<Separator>)
    ensures Copied([], seps[..0])
  {
  }

  lemma CopiedSize(out: seq<Separator>, seps: seq<Separator>)
    requires Copied(out, seps)
    ensures |out| == |seps|
  {
  }

  /** Points the cell of the given key to left and the next cell, or the right pointer, to right. */
  method FixPointers(seps: seq<Separator>, rightPtr: PageId, key: Key, left: PageId, right: PageId, ghost i: nat)
    returns (seps': seq<Separator>, rightPtr': PageId)
    requires i < |seps| && seps[i].key == key && forall j :: 0 <= j < i ==> seps[j].key != key
    ensures rightPtr' == if i + 1 < |seps| then rightPtr else right
    ensures seps' == if i + 1 < |seps| then seps[i := Cell(key, left)][i+1 := Cell(seps[i+1].key, right)]
                     else seps[i := Cell(key, left)]
  {
    for j := 0 to |seps|
      invariant j <= i
    {
      var cmp := CompareKeys(seps[j].key, key);
      if cmp == 0 {
        seps', rightPtr' := seps[j := Cell(key, left)], rightPtr;
        if j + 1 < |seps| {
          seps' := seps'[j+1 := Cell(seps[j+1].key, right)];
        } else {
          rightPtr' := right;
        }
        return;
      }
    }
    assert false;
    return seps, rightPtr;
  }
}
