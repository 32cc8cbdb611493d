// Word error counts: a dynamic-programming table whose cells carry the cost together with the
// substitutions, deletions and insertions it is made of. The table is proved to hold, in every
// cell, the lexicographically least tally over all alignments of the two prefixes.

module EditDistance {

  datatype Counts = Counts(cost: nat, subs: nat, dels: nat, inss: nat)

  datatype ErrorCounts = ErrorCounts(substitutions: nat, deletions: nat, insertions: nat, referenceWords: nat) {
    function Errors(): nat { substitutions + deletions + insertions }

    function Tuple(): Counts { Counts(Errors(), substitutions, deletions, insertions) }
  }

  /** The order of the tuples compared by the program: cost, then substitutions, deletions and
      insertions. */
  predicate Leq(a: Counts, b: Counts) {
    a.cost < b.cost ||
    (a.cost == b.cost && (a.subs < b.subs ||
    (a.subs == b.subs && (a.dels < b.dels ||
    (a.dels == b.dels && a.inss <= b.inss)))))
  }

  function Substituted(c: Counts): Counts { Counts(c.cost + 1, c.subs + 1, c.dels, c.inss) }

  function Deleted(c: Counts): Counts { Counts(c.cost + 1, c.subs, c.dels + 1, c.inss) }

  function Inserted(c: Counts): Counts { Counts(c.cost + 1, c.subs, c.dels, c.inss + 1) }

  /** The first of the least candidates, as a `min` with the tuple as its key. */
  function Least(a: Counts, b: Counts, c: Counts): Counts {
    var ab := if Leq(a, b) then a else b;
    if Leq(ab, c) then ab else c
  }

  /** An alignment reads the two sequences from the left; each step is the last one. */
  datatype Alignment<W> =
    | Empty
    | Pair(init: Alignment<W>, left: W, right: W)
    | Del(init: Alignment<W>, left: W)
    | Ins(init: Alignment<W>, right: W)

  function Reference<W>(a: Alignment<W>): seq<W> {
    match a
    case Empty => []
    case Pair(init, x, _) => Reference(init) + [x]
    case Del(init, x) => Reference(init) + [x]
    case Ins(init, _) => Reference(init)
  }

  function Hypothesis<W>(a: Alignment<W>): seq<W> {
    match a
    case Empty => []
    case Pair(init, _, y) => Hypothesis(init) + [y]
    case Del(init, _) => Hypothesis(init)
    case Ins(init, y) => Hypothesis(init) + [y]
  }

  /** What an alignment costs: unequal pairs are substitutions, equal pairs are free. */
  function Tally<W(==)>(a: Alignment<W>): Counts {
    match a
    case Empty => Counts(0, 0, 0, 0)
    case Pair(init, x, y) => if x == y then Tally(init) else Substituted(Tally(init))
    case Del(init, _) => Deleted(Tally(init))
    case Ins(init, _) => Inserted(Tally(init))
  }

  /** The columns of an alignment in numbers. */
  lemma ColumnTally<W>(a: Alignment<W>)
    ensures a.Empty? ==> Tally(a).cost == 0
    ensures a.Pair? ==> Tally(a).cost == Tally(a.init).cost + if a.left == a.right then 0 else 1
    ensures a.Pair? ==> Tally(a).subs == Tally(a.init).subs + if a.left == a.right then 0 else 1
    ensures a.Pair? ==> Tally(a).dels == Tally(a.init).dels && Tally(a).inss == Tally(a.init).inss
    ensures a.Del? ==> Tally(a) == Tally(a.init).(cost := Tally(a.init).cost + 1, dels := Tally(a.init).dels + 1)
    ensures a.Ins? ==> Tally(a) == Tally(a.init).(cost := Tally(a.init).cost + 1, inss := Tally(a.init).inss + 1)
  {
  }

  predicate Aligns<W(==)>(a: Alignment<W>, reference: seq<W>, hypothesis: seq<W>) {
    Reference(a) == reference && Hypothesis(a) == hypothesis
  }

  /** The recurrence the table is filled by. Equal last words look only at the diagonal. */
  function Cell<W(==)>(r: seq<W>, h: seq<W>): Counts
    decreases |r| + |h|
  {
    if r == [] then Counts(|h|, 0, 0, |h|)
    else if h == [] then Counts(|r|, 0, |r|, 0)
    else
      var r', h' := r[..|r| - 1], h[..|h| - 1];
      if r[|r| - 1] == h[|h| - 1] then Cell(r', h')
      else Least(Substituted(Cell(r', h')), Deleted(Cell(r', h)), Inserted(Cell(r, h')))
  }

  /** The value of the cell at `(i, j)`: the recurrence on the first `i` and the first `j` words. */
  ghost predicate Holds<W>(cell: Counts, r: seq<W>, h: seq<W>, i: nat, j: nat)
    requires i <= |r| && j <= |h|
  {
    cell == Cell(r[..i], h[..j])
  }

  method WordErrorCounts<W(==,!new)>(reference: seq<W>, hypothesis: seq<W>) returns (e: ErrorCounts)
    ensures IsLeastTally(e.Tuple(), reference, hypothesis)
    ensures e.Tuple() == Cell(reference, hypothesis) && e.referenceWords == |reference|
    ensures forall a: Alignment<W> :: Aligns(a, reference, hypothesis) ==>
              e.substitutions + e.deletions + e.insertions <= Tally(a).cost
    ensures |reference| - e.deletions == |hypothesis| - e.insertions >= e.substitutions
  {
    var rows, columns := |reference| + 1, |hypothesis| + 1;
    var matrix := new Counts[rows, columns]((_, _) => Counts(0, 0, 0, 0));
    for row := 1 to rows
      invariant forall i :: 0 <= i < row ==> Holds(matrix[i, 0], reference, hypothesis, i, 0)
    {
      matrix[row, 0] := Counts(row, 0, row, 0);
    }
    for column := 1 to columns
      invariant forall i :: 0 <= i < rows ==> Holds(matrix[i, 0], reference, hypothesis, i, 0)
      invariant forall j :: 0 <= j < column ==> Holds(matrix[0, j], reference, hypothesis, 0, j)
    {
      matrix[0, column] := Counts(column, 0, 0, column);
    }
    for row := 1 to rows
      invariant forall i :: 0 <= i < rows ==> Holds(matrix[i, 0], reference, hypothesis, i, 0)
      invariant forall i, j :: 0 <= i < row && 0 <= j < columns ==> Holds(matrix[i, j], reference, hypothesis, i, j)
    {
      FillRow(matrix, reference, hypothesis, row);
    }
    assert Holds(matrix[rows - 1, columns - 1], reference, hypothesis, rows - 1, columns - 1);
    assert reference[..rows - 1] == reference && hypothesis[..columns - 1] == hypothesis;
    var corner := matrix[rows - 1, columns - 1];
    e := ErrorCounts(corner.subs, corner.dels, corner.inss, |reference|);
    CellBalance(reference, hypothesis);
    CellIsLeastTally(reference, hypothesis);
    forall a: Alignment<W> | Aligns(a, reference, hypothesis)
      ensures e.substitutions + e.deletions + e.insertions <= Tally(a).cost
    {
      LeastMeaning(reference, hypothesis, a);
    }
  }

  /** The inner loop: one row is filled from the row above it. */
  method FillRow<W(==)>(matrix: array2<Counts>, reference: seq<W>, hypothesis: seq<W>, row: nat)
    requires matrix.Length0 == |reference| + 1 && matrix.Length1 == |hypothesis| + 1
    requires 1 <= row <= |reference|
    requires Holds(matrix[row, 0], reference, hypothesis, row, 0)
    requires forall i, j :: i + 1 == row && 0 <= j <= |hypothesis| ==> Holds(matrix[i, j], reference, hypothesis, i, j)
    modifies matrix
    ensures forall j :: 0 <= j <= |hypothesis| ==> Holds(matrix[row, j], reference, hypothesis, row, j)
    ensures forall i, j :: 0 <= i <= |reference| && 0 <= j <= |hypothesis| && i != row ==>
              matrix[i, j] == old(matrix[i, j])
  {
    for column := 1 to |hypothesis| + 1
      invariant forall i, j :: i + 1 == row && 0 <= j <= |hypothesis| ==>
                  Holds(matrix[i, j], reference, hypothesis, i, j)
      invariant forall j :: 0 <= j < column ==> Holds(matrix[row, j], reference, hypothesis, row, j)
      invariant forall i, j :: 0 <= i <= |reference| && 0 <= j <= |hypothesis| && i != row ==>
                  matrix[i, j] == old(matrix[i, j])
    {
      CellStep(reference, hypothesis, row, column);
      assert Holds(matrix[row - 1, column - 1], reference, hypothesis, row - 1, column - 1);
      assert Holds(matrix[row - 1, column], reference, hypothesis, row - 1, column);
      assert Holds(matrix[row, column - 1], reference, hypothesis, row, column - 1);
      if reference[row - 1] == hypothesis[column - 1] {
        matrix[row, column] := matrix[row - 1, column - 1];
        continue;
      }
      matrix[row, column] := Least(Substituted(matrix[row - 1, column - 1]),
                                   Deleted(matrix[row - 1, column]),
                                   Inserted(matrix[row, column - 1]));
    }
  }

  lemma CellStep<W>(r: seq<W>, h: seq<W>, i: nat, j: nat)
    requires 1 <= i <= |r| && 1 <= j <= |h|
    ensures Cell(r[..i], h[..j]) ==
            if r[i - 1] == h[j - 1] then Cell(r[..i - 1], h[..j - 1])
            else Least(Substituted(Cell(r[..i - 1], h[..j - 1])),
                       Deleted(Cell(r[..i - 1], h[..j])),
                       Inserted(Cell(r[..i], h[..j - 1])))
  {
    assert r[..i][..i - 1] == r[..i - 1] && h[..j][..j - 1] == h[..j - 1];
  }

  // ---- The recurrence computes the least tally ----

  lemma CellOfExtended<W>(r: seq<W>, h: seq<W>, x: W, y: W)
    ensures x == y ==> Cell(r + [x], h + [y]) == Cell(r, h)
    ensures x != y ==>
              Cell(r + [x], h + [y]) ==
              Least(Substituted(Cell(r, h)), Deleted(Cell(r, h + [y])), Inserted(Cell(r + [x], h)))
  {
    assert (r + [x])[..|r|] == r && (h + [y])[..|h|] == h;
  }

  lemma LeastIsLeast(a: Counts, b: Counts, c: Counts)
    ensures Least(a, b, c) == a || Least(a, b, c) == b || Least(a, b, c) == c
    ensures Leq(Least(a, b, c), a) && Leq(Least(a, b, c), b) && Leq(Least(a, b, c), c)
  {
  }

  lemma LeqTransitive(a: Counts, b: Counts, c: Counts)
    requires Leq(a, b) && Leq(b, c)
    ensures Leq(a, c)
  {
  }

  /** Some alignment has exactly the tally of the cell. */
  lemma {:induction false} Attained<W>(r: seq<W>, h: seq<W>) returns (a: Alignment<W>)
    ensures Aligns(a, r, h) && Tally(a) == Cell(r, h)
    decreases |r| + |h|
  {
    if r == [] {
      if h == [] {
        a := Empty;
      } else {
        a := Attained(r, h[..|h| - 1]);
        a := Ins(a, h[|h| - 1]);
      }
    } else if h == [] {
      a := Attained(r[..|r| - 1], h);
      a := Del(a, r[|r| - 1]);
    } else {
      var r', h' := r[..|r| - 1], h[..|h| - 1];
      var x, y := r[|r| - 1], h[|h| - 1];
      assert r == r' + [x] && h == h' + [y];
      CellOfExtended(r', h', x, y);
      LeastIsLeast(Substituted(Cell(r', h')), Deleted(Cell(r', h)), Inserted(Cell(r, h')));
      if x == y || Cell(r, h) == Substituted(Cell(r', h')) {
        a := Attained(r', h');
        a := Pair(a, x, y);
      } else if Cell(r, h) == Deleted(Cell(r', h)) {
        a := Attained(r', h);
        a := Del(a, x);
      } else {
        a := Attained(r, h');
        a := Ins(a, y);
      }
    }
  }

  /** An alignment that ends its hypothesis in `w` can give up that word: the tally then loses an
      insertion, or gains a deletion and perhaps loses a substitution. */
  lemma {:induction false} DropHypothesisWord<W>(a: Alignment<W>, h: seq<W>, w: W) returns (b: Alignment<W>)
    requires Hypothesis(a) == h + [w]
    ensures Aligns(b, Reference(a), h)
    ensures Tally(a) == Inserted(Tally(b)) || Tally(b) == Deleted(Tally(a)) ||
            Substituted(Tally(b)) == Deleted(Tally(a))
  {
    match a
    case Pair(init, x, y) =>
      b := Del(init, x);
      assert Hypothesis(init) == Hypothesis(a)[..|h|] == h;
    case Del(init, x) =>
      b := DropHypothesisWord(init, h, w);
      b := Del(b, x);
    case Ins(init, y) =>
      b := init;
      assert Hypothesis(init) == Hypothesis(a)[..|h|] == h;
  }

  /** Exchanging the two sequences exchanges deletions and insertions. */
  function Swap<W>(a: Alignment<W>): Alignment<W> {
    match a
    case Empty => Empty
    case Pair(init, x, y) => Pair(Swap(init), y, x)
    case Del(init, x) => Ins(Swap(init), x)
    case Ins(init, y) => Del(Swap(init), y)
  }

  function SwapCounts(c: Counts): Counts { Counts(c.cost, c.subs, c.inss, c.dels) }

  lemma {:induction false} SwapAligns<W>(a: Alignment<W>)
    ensures Aligns(Swap(a), Hypothesis(a), Reference(a))
    ensures Tally(Swap(a)) == SwapCounts(Tally(a))
  {
    match a
    case Empty =>
    case Pair(init, _, _) => SwapAligns(init);
    case Del(init, _) => SwapAligns(init);
    case Ins(init, _) => SwapAligns(init);
  }

  lemma DropReferenceWord<W>(a: Alignment<W>, r: seq<W>, w: W) returns (b: Alignment<W>)
    requires Reference(a) == r + [w]
    ensures Aligns(b, r, Hypothesis(a))
    ensures Tally(a) == Deleted(Tally(b)) || Tally(b) == Inserted(Tally(a)) ||
            Substituted(Tally(b)) == Inserted(Tally(a))
  {
    SwapAligns(a);
    b := DropHypothesisWord(Swap(a), r, w);
    SwapAligns(b);
    b := Swap(b);
  }

  /** Deletions and insertions differ by the difference in length. */
  lemma {:induction false} Balance<W>(a: Alignment<W>)
    ensures |Reference(a)| - Tally(a).dels == |Hypothesis(a)| - Tally(a).inss
    ensures Tally(a).cost == Tally(a).subs + Tally(a).dels + Tally(a).inss
    ensures Tally(a).dels <= |Reference(a)|
  {
    match a
    case Empty =>
    case Pair(init, _, _) => Balance(init);
    case Del(init, _) => Balance(init);
    case Ins(init, _) => Balance(init);
  }

  /** Equal last words: pairing them is at least as good as any alignment, so that the other two
      neighbours of the cell need not be looked at. */
  lemma PairingEqualWords<W>(a: Alignment<W>, r: seq<W>, h: seq<W>, w: W) returns (b: Alignment<W>)
    requires Aligns(a, r + [w], h + [w])
    ensures Aligns(b, r, h) && Leq(Tally(b), Tally(a))
  {
    Balance(a);
    match a
    case Pair(init, x, y) =>
      b := init;
      assert Reference(init) == Reference(a)[..|r|] == r && Hypothesis(init) == Hypothesis(a)[..|h|] == h;
    case Del(init, x) =>
      assert Reference(init) == Reference(a)[..|r|] == r;
      b := DropHypothesisWord(init, h, w);
    case Ins(init, y) =>
      assert Hypothesis(init) == Hypothesis(a)[..|h|] == h;
      b := DropReferenceWord(init, r, w);
  }

  /** Without its last column an alignment aligns one word less on one side or on both. */
  lemma InitAligns<W>(a: Alignment<W>, r: seq<W>, h: seq<W>, x: W, y: W)
    requires Aligns(a, r + [x], h + [y])
    ensures a.Pair? ==> Aligns(a.init, r, h)
    ensures a.Del? ==> Aligns(a.init, r, h + [y])
    ensures a.Ins? ==> Aligns(a.init, r + [x], h)
  {
    assert a.Pair? || a.Del? ==> Reference(a.init) == Reference(a)[..|r|] == r;
    assert a.Pair? || a.Ins? ==> Hypothesis(a.init) == Hypothesis(a)[..|h|] == h;
  }

  lemma {:induction false} LeastBelow<W>(a: Alignment<W>, r: seq<W>, h: seq<W>)
    requires Aligns(a, r, h)
    ensures Leq(Cell(r, h), Tally(a))
    decreases |r| + |h|
  {
    Balance(a);
    if r == [] || h == [] {
    } else {
      var r', h' := r[..|r| - 1], h[..|h| - 1];
      var x, y := r[|r| - 1], h[|h| - 1];
      assert r == r' + [x] && h == h' + [y];
      CellOfExtended(r', h', x, y);
      if x == y {
        var b := PairingEqualWords(a, r', h', x);
        LeastBelow(b, r', h');
        LeqTransitive(Cell(r, h), Tally(b), Tally(a));
      } else {
        InitAligns(a, r', h', x, y);
        LeastIsLeast(Substituted(Cell(r', h')), Deleted(Cell(r', h)), Inserted(Cell(r, h')));
        match a {
          case Pair(init, _, _) =>
            LeastBelow(init, r', h');
            LeqTransitive(Cell(r, h), Substituted(Cell(r', h')), Tally(a));
          case Del(init, _) =>
            LeastBelow(init, r', h);
            LeqTransitive(Cell(r, h), Deleted(Cell(r', h)), Tally(a));
          case Ins(init, _) =>
            LeastBelow(init, r, h');
            LeqTransitive(Cell(r, h), Inserted(Cell(r, h')), Tally(a));
        }
      }
    }
  }

  /** Main result: among all alignments the table holds the lexicographically least tally. */
  ghost predicate IsLeastTally<W(!new)>(c: Counts, r: seq<W>, h: seq<W>) {
    (exists a: Alignment<W> :: Aligns(a, r, h) && Tally(a) == c) &&
    (forall a: Alignment<W> :: Aligns(a, r, h) ==> Leq(c, Tally(a)))
  }

  lemma CellIsLeastTally<W(!new)>(r: seq<W>, h: seq<W>)
    ensures IsLeastTally(Cell(r, h), r, h)
  {
    var a := Attained(r, h);
    forall b: Alignment<W> | Aligns(b, r, h)
      ensures Leq(Cell(r, h), Tally(b))
    {
      LeastBelow(b, r, h);
    }
  }

  /** What being least means in plain numbers: no alignment has fewer errors, and among those with
      as few none has fewer substitutions. With both equal the deletions and insertions are given by
      the lengths of the two texts. */
  lemma LeastMeaning<W>(r: seq<W>, h: seq<W>, a: Alignment<W>)
    requires Aligns(a, r, h)
    ensures Cell(r, h).cost <= Tally(a).cost
    ensures Cell(r, h).cost == Tally(a).cost ==> Cell(r, h).subs <= Tally(a).subs
    ensures Cell(r, h).cost == Tally(a).cost && Cell(r, h).subs == Tally(a).subs ==> Cell(r, h) == Tally(a)
  {
    LeastBelow(a, r, h);
    Balance(a);
    CellBalance(r, h);
  }

  // ---- Consequences ----

  lemma CostZeroIffEqual<W>(r: seq<W>, h: seq<W>)
    ensures Cell(r, h).cost == 0 <==> r == h
  {
    if r == h {
      SelfCost(r);
    } else {
      var a := Attained(r, h);
      if Tally(a).cost == 0 {
        FreeMeansEqual(a);
      }
    }
  }

  lemma {:induction false} SelfCost<W>(r: seq<W>)
    ensures Cell(r, r) == Counts(0, 0, 0, 0)
  {
    if r == [] {
    } else {
      SelfCost(r[..|r| - 1]);
    }
  }

  lemma {:induction false} FreeMeansEqual<W>(a: Alignment<W>)
    requires Tally(a).cost == 0
    ensures Reference(a) == Hypothesis(a)
  {
    match a
    case Empty =>
    case Pair(init, _, _) => FreeMeansEqual(init);
  }

  /** The words that are not deleted and the words that are not inserted are equally many. */
  lemma CellBalance<W>(r: seq<W>, h: seq<W>)
    ensures |r| - Cell(r, h).dels == |h| - Cell(r, h).inss >= Cell(r, h).subs
    ensures Cell(r, h).cost == Cell(r, h).subs + Cell(r, h).dels + Cell(r, h).inss
  {
    var a := Attained(r, h);
    Balance(a);
    PairsBound(a);
  }

  lemma {:induction false} PairsBound<W>(a: Alignment<W>)
    ensures Tally(a).subs <= |Reference(a)| - Tally(a).dels
  {
    match a
    case Empty =>
    case Pair(init, _, _) => PairsBound(init);
    case Del(init, _) => PairsBound(init);
    case Ins(init, _) => PairsBound(init);
  }

  /** Exchanging reference and hypothesis exchanges deletions and insertions. */
  lemma CellSwap<W>(r: seq<W>, h: seq<W>)
    ensures Cell(h, r) == SwapCounts(Cell(r, h))
  {
    var a := Attained(r, h);
    var b := Attained(h, r);
    SwapAligns(a);
    SwapAligns(b);
    LeastBelow(Swap(a), h, r);
    LeastBelow(Swap(b), r, h);
    Balance(a);
    Balance(b);
  }

  /** Aligning through a middle sequence never costs less than aligning directly. */
  lemma {:induction false} Compose<W>(a: Alignment<W>, b: Alignment<W>) returns (c: Alignment<W>)
    requires Hypothesis(a) == Reference(b)
    ensures Aligns(c, Reference(a), Hypothesis(b))
    ensures Tally(c).cost <= Tally(a).cost + Tally(b).cost
    decreases a, b
  {
    if a.Del? {
      c := Compose(a.init, b);
      c := Del(c, a.left);
    } else if b.Ins? {
      c := Compose(a, b.init);
      c := Ins(c, b.right);
    } else if a.Empty? || b.Empty? {
      c := Empty;
    } else {
      var n := |Hypothesis(a)| - 1;
      assert Hypothesis(a.init) == Hypothesis(a)[..n] == Reference(b)[..n] == Reference(b.init);
      assert a.right == Hypothesis(a)[n] == Reference(b)[n] == b.left;
      c := Compose(a.init, b.init);
      if a.Pair? && b.Pair? {
        c := Pair(c, a.left, b.right);
      } else if a.Pair? {
        c := Del(c, a.left);
      } else if b.Pair? {
        c := Ins(c, b.right);
      }
    }
  }

  lemma TriangleInequality<W>(r: seq<W>, m: seq<W>, h: seq<W>)
    ensures Cell(r, h).cost <= Cell(r, m).cost + Cell(m, h).cost
  {
    var a := Attained(r, m);
    var b := Attained(m, h);
    var c := Compose(a, b);
    LeastBelow(c, r, h);
  }
}
