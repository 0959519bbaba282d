/**
 * `PrometheusDataFetcher`: `clean_data`, which repairs short gaps, drops
 * rows it cannot repair and, for rolling deployments, drops every
 * timestamp two revisions both reported; and `fetch_data`, which queries
 * the last `hours` of a metric and cleans the result.
 */
module PrometheusFetcher {
  import opened Wrappers
  import opened Frames
  import opened PrometheusQuery

  const RolloutLabel := "rollouts_pod_template_hash"
  /** Most consecutive missing cells one fill direction repairs. */
  const FillLimit: nat := 12
  const DefaultHours: int := 36
  const DefaultScrapeInterval: int := 30

  datatype CleanError = MissingRolloutColumn

  // ---------------------------------------------------------------------
  // Infinities

  function ReplaceInfCells(cells: seq<Cell>): (r: seq<Cell>)
    ensures |r| == |cells|
  {
    seq(|cells|, c requires 0 <= c < |cells| => if Infinite(cells[c]) then NaN else cells[c])
  }

  /** `replace([inf, -inf], nan)`: every infinity becomes missing and every other cell is kept. */
  function ReplaceInf(rows: seq<Row>): (r: seq<Row>)
    ensures |r| == |rows| && NoInfinite(r)
    ensures forall i {:trigger r[i]} :: 0 <= i < |rows| ==> r[i].ts == rows[i].ts && |r[i].cells| == |rows[i].cells|
    ensures forall i, c {:trigger r[i].cells[c]} :: 0 <= i < |rows| && 0 <= c < |rows[i].cells| && !Infinite(rows[i].cells[c]) ==>
      r[i].cells[c] == rows[i].cells[c]
    ensures forall i, c {:trigger r[i].cells[c]} :: 0 <= i < |rows| && 0 <= c < |rows[i].cells| && Infinite(rows[i].cells[c]) ==>
      r[i].cells[c].NaN?
  {
    seq(|rows|, i requires 0 <= i < |rows| => Row(rows[i].ts, ReplaceInfCells(rows[i].cells)))
  }

  // ---------------------------------------------------------------------
  // Forward fill of one column

  /**
   * Pandas' forward fill with a limit, one cell at a time: `last` is the
   * latest present value, `gap` how many missing cells followed it.
   */
  function FFillGo(col: seq<Cell>, last: Option<Cell>, gap: nat, limit: nat): (r: seq<Cell>)
    ensures |r| == |col|
    decreases |col|
  {
    if |col| == 0 then []
    else if !col[0].NaN? then [col[0]] + FFillGo(col[1..], Some(col[0]), 0, limit)
    else if last.Some? && gap < limit then [last.value] + FFillGo(col[1..], last, gap + 1, limit)
    else [col[0]] + FFillGo(col[1..], last, gap + 1, limit)
  }

  function FFill(col: seq<Cell>, limit: nat): (r: seq<Cell>)
    ensures |r| == |col|
  {
    FFillGo(col, None, 0, limit)
  }

  /** The nearest present cell before `i`. */
  function LastValid(col: seq<Cell>, i: nat): (j: Option<nat>)
    requires i <= |col|
    ensures j.Some? ==> j.value < i && !col[j.value].NaN? && forall m :: j.value < m < i ==> col[m].NaN?
    ensures j.None? ==> forall m :: 0 <= m < i ==> col[m].NaN?
  {
    if i == 0 then None
    else if !col[i - 1].NaN? then Some(i - 1)
    else LastValid(col, i - 1)
  }

  /** The nearest present cell after `i`. */
  function NextValid(col: seq<Cell>, i: nat): (k: Option<nat>)
    requires i < |col|
    ensures k.Some? ==> i < k.value < |col| && !col[k.value].NaN? && forall m :: i < m < k.value ==> col[m].NaN?
    ensures k.None? ==> forall m :: i < m < |col| ==> col[m].NaN?
    decreases |col| - i
  {
    if i + 1 == |col| then None
    else if !col[i + 1].NaN? then Some(i + 1)
    else NextValid(col, i + 1)
  }

  predicate NearPrev(col: seq<Cell>, i: nat, limit: nat)
    requires i < |col|
  {
    LastValid(col, i).Some? && i - LastValid(col, i).value <= limit
  }

  predicate NearNext(col: seq<Cell>, i: nat, limit: nat)
    requires i < |col|
  {
    NextValid(col, i).Some? && NextValid(col, i).value - i <= limit
  }

  /**
   * What a forward fill leaves at `i`: the cell itself if present, else the
   * nearest earlier present value when it is at most `limit` rows back.
   */
  function FFillAt(col: seq<Cell>, limit: nat, i: nat): Cell
    requires i < |col|
  {
    if !col[i].NaN? then col[i]
    else if NearPrev(col, i, limit) then col[LastValid(col, i).value]
    else NaN
  }

  /** What a backward fill leaves at `i`, symmetrically. */
  function BFillAt(col: seq<Cell>, limit: nat, i: nat): Cell
    requires i < |col|
  {
    if !col[i].NaN? then col[i]
    else if NearNext(col, i, limit) then col[NextValid(col, i).value]
    else NaN
  }

  function LastSeen(col: seq<Cell>, k: nat): Option<Cell>
    requires k <= |col|
  {
    match LastValid(col, k)
    case Some(j) => Some(col[j])
    case None => None
  }

  function GapAt(col: seq<Cell>, k: nat): nat
    requires k <= |col|
  {
    match LastValid(col, k)
    case Some(j) => k - j - 1
    case None => k
  }

  /** One row of the forward fill: the cell at `k`, then the fill of the rest from what was seen through `k`. */
  lemma FFillGoStep(col: seq<Cell>, limit: nat, k: nat)
    requires k < |col|
    ensures FFillGo(col[k..], LastSeen(col, k), GapAt(col, k), limit)
      == [FFillAt(col, limit, k)] + FFillGo(col[k + 1..], LastSeen(col, k + 1), GapAt(col, k + 1), limit)
  {
    var tail := col[k..];
    assert tail[0] == col[k];
    assert tail[1..] == col[k + 1..];
    if !col[k].NaN? {
      assert LastValid(col, k + 1) == Some(k);
    } else {
      assert LastValid(col, k + 1) == LastValid(col, k);
    }
  }

  lemma {:induction false} FFillGoAt(col: seq<Cell>, limit: nat, k: nat, i: nat)
    requires k <= i < |col|
    ensures FFillGo(col[k..], LastSeen(col, k), GapAt(col, k), limit)[i - k] == FFillAt(col, limit, i)
    decreases i - k
  {
    FFillGoStep(col, limit, k);
    if i > k {
      FFillGoAt(col, limit, k + 1, i);
    }
  }

  /** The forward fill agrees with its pointwise description at every row. */
  lemma FFillReference(col: seq<Cell>, limit: nat)
    ensures forall i :: 0 <= i < |col| ==> FFill(col, limit)[i] == FFillAt(col, limit, i)
  {
    forall i | 0 <= i < |col|
      ensures FFill(col, limit)[i] == FFillAt(col, limit, i)
    {
      assert col[0..] == col;
      FFillGoAt(col, limit, 0, i);
    }
  }

  // ---------------------------------------------------------------------
  // Backward fill, as a forward fill of the reversed column

  function Reverse(s: seq<Cell>): (r: seq<Cell>)
    ensures |r| == |s|
    ensures forall i {:trigger r[i]} :: 0 <= i < |s| ==> r[i] == s[|s| - 1 - i]
  {
    seq(|s|, i requires 0 <= i < |s| => s[|s| - 1 - i])
  }

  function BFill(col: seq<Cell>, limit: nat): (r: seq<Cell>)
    ensures |r| == |col|
  {
    Reverse(FFill(Reverse(col), limit))
  }

  lemma {:induction false} LastValidOfReverse(col: seq<Cell>, i: nat)
    requires i < |col|
    ensures LastValid(Reverse(col), |col| - 1 - i) ==
      match NextValid(col, i)
      case Some(k) => Some(|col| - 1 - k)
      case None => None
    decreases |col| - i
  {
    if i + 1 < |col| && col[i + 1].NaN? {
      LastValidOfReverse(col, i + 1);
    }
  }

  /** The backward fill agrees with its pointwise description at every row. */
  lemma BFillReference(col: seq<Cell>, limit: nat)
    ensures forall i :: 0 <= i < |col| ==> BFill(col, limit)[i] == BFillAt(col, limit, i)
  {
    var r := Reverse(col);
    FFillReference(r, limit);
    forall i | 0 <= i < |col|
      ensures BFill(col, limit)[i] == BFillAt(col, limit, i)
    {
      LastValidOfReverse(col, i);
    }
  }

  lemma {:induction false} NextValidAfterFFill(col: seq<Cell>, limit: nat, i: nat)
    requires i < |col| && FFill(col, limit)[i].NaN?
    ensures NextValid(FFill(col, limit), i) == NextValid(col, i)
    decreases |col| - i
  {
    var f := FFill(col, limit);
    FFillReference(col, limit);
    if i + 1 < |col| {
      if col[i + 1].NaN? {
        assert LastValid(col, i + 1) == LastValid(col, i);
        assert f[i + 1].NaN?;
        NextValidAfterFFill(col, limit, i + 1);
      }
    }
  }

  /**
   * After the forward then the backward fill a cell is still missing
   * exactly when it was missing and no present value lies within `limit`
   * rows before it or within `limit` rows after it.
   */
  lemma FillBothMissing(col: seq<Cell>, limit: nat, i: nat)
    requires i < |col|
    ensures BFill(FFill(col, limit), limit)[i].NaN? <==>
      col[i].NaN? && !NearPrev(col, i, limit) && !NearNext(col, i, limit)
  {
    var f := FFill(col, limit);
    FFillReference(col, limit);
    BFillReference(f, limit);
    if f[i].NaN? {
      NextValidAfterFFill(col, limit, i);
      if NearNext(col, i, limit) {
        assert !col[NextValid(col, i).value].NaN?;
      }
    }
  }

  /** Both fills only copy values already in the column. */
  lemma FillBothCopies(col: seq<Cell>, limit: nat, i: nat)
    requires i < |col|
    ensures var g := BFill(FFill(col, limit), limit);
      g[i].NaN? || g[i] in col
  {
    var f := FFill(col, limit);
    FFillReference(col, limit);
    BFillReference(f, limit);
    var g := BFill(f, limit);
    if !f[i].NaN? {
      assert g[i] == f[i];
    } else if NearNext(f, i, limit) {
      assert g[i] == f[NextValid(f, i).value];
    }
  }

  // ---------------------------------------------------------------------
  // Filling a frame column by column

  datatype Direction = Forward | Backward

  function Fill(col: seq<Cell>, limit: nat, dir: Direction): (r: seq<Cell>)
    ensures |r| == |col|
  {
    match dir
    case Forward => FFill(col, limit)
    case Backward => BFill(col, limit)
  }

  function Column(rows: seq<Row>, c: nat): (col: seq<Cell>)
    requires forall i :: 0 <= i < |rows| ==> c < |rows[i].cells|
    ensures |col| == |rows|
    ensures forall i {:trigger col[i]} :: 0 <= i < |rows| ==> col[i] == rows[i].cells[c]
  {
    seq(|rows|, i requires 0 <= i < |rows| => rows[i].cells[c])
  }

  /** Every column of `rows`, filled on its own. */
  function FilledColumns(rows: seq<Row>, w: nat, limit: nat, dir: Direction): (cols: seq<seq<Cell>>)
    requires Uniform(rows, w)
    ensures |cols| == w && forall c :: 0 <= c < w ==> |cols[c]| == |rows|
  {
    seq(w, c requires 0 <= c < w => Fill(Column(rows, c), limit, dir))
  }

  /** Row `i` read across the columns `cols`, from column `c` on. */
  function CellsAt(cols: seq<seq<Cell>>, i: nat, c: nat): (r: seq<Cell>)
    requires c <= |cols| && forall k :: 0 <= k < |cols| ==> i < |cols[k]|
    ensures |r| == |cols| - c
    decreases |cols| - c
  {
    if c == |cols| then [] else [cols[c][i]] + CellsAt(cols, i, c + 1)
  }

  /** The rows from `i` on, rebuilt from their timestamps and the columns `cols`. */
  function Assemble(rows: seq<Row>, cols: seq<seq<Cell>>, i: nat): (r: seq<Row>)
    requires i <= |rows| && forall k :: 0 <= k < |cols| ==> |cols[k]| == |rows|
    ensures |r| == |rows| - i && Uniform(r, |cols|)
    decreases |rows| - i
  {
    if i == |rows| then [] else [Row(rows[i].ts, CellsAt(cols, i, 0))] + Assemble(rows, cols, i + 1)
  }

  /** `fillna(method=…, limit=…)`: the frame rebuilt from its columns, each filled on its own. */
  function FillRows(rows: seq<Row>, w: nat, limit: nat, dir: Direction): (r: seq<Row>)
    requires Uniform(rows, w)
    ensures |r| == |rows| && Uniform(r, w)
  {
    Assemble(rows, FilledColumns(rows, w, limit, dir), 0)
  }

  lemma {:induction false} CellsAtIndex(cols: seq<seq<Cell>>, i: nat, c0: nat, c: nat)
    requires c0 <= c < |cols| && forall k :: 0 <= k < |cols| ==> i < |cols[k]|
    ensures CellsAt(cols, i, c0)[c - c0] == cols[c][i]
    decreases c - c0
  {
    if c0 < c {
      CellsAtIndex(cols, i, c0 + 1, c);
    }
  }

  lemma {:induction false} AssembleIndex(rows: seq<Row>, cols: seq<seq<Cell>>, i0: nat, i: nat)
    requires i0 <= i < |rows| && forall k :: 0 <= k < |cols| ==> |cols[k]| == |rows|
    ensures Assemble(rows, cols, i0)[i - i0] == Row(rows[i].ts, CellsAt(cols, i, 0))
    decreases i - i0
  {
    if i0 < i {
      AssembleIndex(rows, cols, i0 + 1, i);
    }
  }

  /** Each column is filled on its own and every timestamp is kept. */
  lemma FillRowsCell(rows: seq<Row>, w: nat, limit: nat, dir: Direction, i: nat, c: nat)
    requires Uniform(rows, w) && i < |rows| && c < w
    ensures FillRows(rows, w, limit, dir)[i].ts == rows[i].ts
    ensures FillRows(rows, w, limit, dir)[i].cells[c] == Fill(Column(rows, c), limit, dir)[i]
  {
    var cols := FilledColumns(rows, w, limit, dir);
    AssembleIndex(rows, cols, 0, i);
    CellsAtIndex(cols, i, 0, c);
  }

  /** A fill changes no column in which nothing is missing, so it leaves such rows alone. */
  lemma FillRowsFixpoint(rows: seq<Row>, w: nat, dir: Direction)
    requires Uniform(rows, w) && NoMissing(rows)
    ensures FillRows(rows, w, FillLimit, dir) == rows
  {
    var r := FillRows(rows, w, FillLimit, dir);
    forall i | 0 <= i < |rows|
      ensures r[i] == rows[i]
    {
      forall c | 0 <= c < w
        ensures r[i].cells[c] == rows[i].cells[c]
      {
        var col := Column(rows, c);
        FillRowsCell(rows, w, FillLimit, dir, i, c);
        FillColumnFixpoint(col, dir);
        assert col[i] == rows[i].cells[c];
      }
      AssembleIndex(rows, FilledColumns(rows, w, FillLimit, dir), 0, i);
      assert r[i].cells == rows[i].cells;
    }
  }

  /** A column with nothing missing is its own fill. */
  lemma FillColumnFixpoint(col: seq<Cell>, dir: Direction)
    requires forall i :: 0 <= i < |col| ==> !col[i].NaN?
    ensures Fill(col, FillLimit, dir) == col
  {
    FFillReference(col, FillLimit);
    BFillReference(col, FillLimit);
  }

  /** The frame after the infinity replacement and both fills. */
  function Filled(f: Frame): (rows: seq<Row>)
    requires WellFormed(f)
    ensures |rows| == |f.rows| && Uniform(rows, |f.labels| + 1)
  {
    var w := |f.labels| + 1;
    FillRows(FillRows(ReplaceInf(f.rows), w, FillLimit, Forward), w, FillLimit, Backward)
  }

  /** A cell the fills can repair: present, or a present value within 12 rows either way. */
  predicate Reachable(col: seq<Cell>, i: nat, limit: nat)
    requires i < |col|
  {
    !col[i].NaN? || NearPrev(col, i, limit) || NearNext(col, i, limit)
  }

  lemma FilledCell(f: Frame, i: nat, c: nat)
    requires WellFormed(f) && i < |f.rows| && c < |f.labels| + 1
    ensures Filled(f)[i].cells[c] == BFill(FFill(Column(ReplaceInf(f.rows), c), FillLimit), FillLimit)[i]
  {
    var w := |f.labels| + 1;
    var r0 := ReplaceInf(f.rows);
    var r1 := FillRows(r0, w, FillLimit, Forward);
    FillRowsCell(r1, w, FillLimit, Backward, i, c);
    FillRowsColumn(r0, w, FillLimit, Forward, c);
  }

  /** A column of the filled rows is the filled column. */
  lemma FillRowsColumn(rows: seq<Row>, w: nat, limit: nat, dir: Direction, c: nat)
    requires Uniform(rows, w) && c < w
    ensures Column(FillRows(rows, w, limit, dir), c) == Fill(Column(rows, c), limit, dir)
  {
    var r := FillRows(rows, w, limit, dir);
    forall m | 0 <= m < |r| ensures Column(r, c)[m] == Fill(Column(rows, c), limit, dir)[m] {
      FillRowsCell(rows, w, limit, dir, m, c);
    }
  }

  /**
   * A filled row is complete exactly when every one of its cells was
   * reachable in its column (infinities counting as missing).
   */
  lemma FilledRowComplete(f: Frame, i: nat)
    requires WellFormed(f) && i < |f.rows|
    ensures var w := |f.labels| + 1;
      Complete(Filled(f)[i]) <==>
        forall c :: 0 <= c < w ==> Reachable(Column(ReplaceInf(f.rows), c), i, FillLimit)
  {
    var w := |f.labels| + 1;
    var row := Filled(f)[i];
    assert |row.cells| == w;
    forall c | 0 <= c < w
      ensures row.cells[c].NaN? <==> !Reachable(Column(ReplaceInf(f.rows), c), i, FillLimit)
    {
      FilledCell(f, i, c);
      FillBothMissing(Column(ReplaceInf(f.rows), c), FillLimit, i);
    }
  }

  lemma FilledNoInfinite(f: Frame)
    requires WellFormed(f)
    ensures NoInfinite(Filled(f))
  {
    var r0 := ReplaceInf(f.rows);
    forall i, c | 0 <= i < |f.rows| && 0 <= c < |Filled(f)[i].cells|
      ensures !Infinite(Filled(f)[i].cells[c])
    {
      var col := Column(r0, c);
      var x := Filled(f)[i].cells[c];
      FilledCell(f, i, c);
      FillBothCopies(col, FillLimit, i);
      if x in col {
        var m :| 0 <= m < |col| && col[m] == x;
        assert x == r0[m].cells[c];
      }
    }
  }

  // ---------------------------------------------------------------------
  // Dropping rows

  /** The complete rows, in order. */
  function KeepComplete(rows: seq<Row>): (r: seq<Row>)
    ensures NoMissing(r)
    decreases |rows|
  {
    if |rows| == 0 then []
    else
      var front := KeepComplete(rows[..|rows| - 1]);
      var last := rows[|rows| - 1];
      if Complete(last) then front + [last] else front
  }

  /** A row is kept exactly when it is complete, as often as it occurs. */
  lemma {:induction false} KeepCompleteRows(rows: seq<Row>)
    ensures forall x :: multiset(KeepComplete(rows))[x] == if Complete(x) then multiset(rows)[x] else 0
    ensures forall x :: x in KeepComplete(rows) <==> x in rows && Complete(x)
    decreases |rows|
  {
    if |rows| > 0 {
      var front := rows[..|rows| - 1];
      var last := rows[|rows| - 1];
      KeepCompleteRows(front);
      assert rows == front + [last];
      assert multiset(rows) == multiset(front) + multiset{last};
      if Complete(last) {
        assert multiset(KeepComplete(rows)) == multiset(KeepComplete(front)) + multiset{last};
      }
    }
  }

  /** `dropna()`, run only when some column has a missing value. */
  function DropNa(rows: seq<Row>): (r: seq<Row>)
    ensures NoMissing(r)
  {
    if exists i :: 0 <= i < |rows| && !Complete(rows[i]) then KeepComplete(rows) else rows
  }

  /** `dropna()` removes exactly the incomplete rows and keeps every complete one as often as it occurs. */
  lemma DropNaRows(rows: seq<Row>)
    ensures forall x :: multiset(DropNa(rows))[x] == if Complete(x) then multiset(rows)[x] else 0
    ensures forall x :: x in DropNa(rows) <==> x in rows && Complete(x)
  {
    KeepCompleteRows(rows);
    if !exists i :: 0 <= i < |rows| && !Complete(rows[i]) {
      forall x | !Complete(x)
        ensures multiset(rows)[x] == 0
      {
        assert x !in rows;
      }
    }
  }

  /** The rows whose timestamp occurs once in `all`, in order. */
  function UniqueTs(rows: seq<Row>, all: seq<Row>): (r: seq<Row>)
    ensures multiset(r) <= multiset(rows)
    decreases |rows|
  {
    if |rows| == 0 then []
    else
      var front := UniqueTs(rows[..|rows| - 1], all);
      var last := rows[|rows| - 1];
      assert rows == rows[..|rows| - 1] + [last];
      if CountTs(all, last.ts) == 1 then front + [last] else front
  }

  /** A row stays exactly when its timestamp occurs once in `all`. */
  lemma {:induction false} UniqueTsRows(rows: seq<Row>, all: seq<Row>)
    ensures forall x :: x in UniqueTs(rows, all) <==> x in rows && CountTs(all, x.ts) == 1
    decreases |rows|
  {
    if |rows| > 0 {
      var front := rows[..|rows| - 1];
      UniqueTsRows(front, all);
      assert rows == front + [rows[|rows| - 1]];
    }
  }

  function DropCell(r: Row, k: nat): Row
    requires k < |r.cells|
  {
    Row(r.ts, r.cells[..k] + r.cells[k + 1..])
  }

  /** `drop(column, axis=1)` for the column at cell index `k`. */
  function DropColumn(rows: seq<Row>, k: nat, w: nat): (r: seq<Row>)
    requires k < w && Uniform(rows, w)
    ensures |r| == |rows| && Uniform(r, w - 1)
    ensures forall i {:trigger r[i]} :: 0 <= i < |rows| ==> r[i] == DropCell(rows[i], k)
  {
    seq(|rows|, i requires 0 <= i < |rows| => DropCell(rows[i], k))
  }

  function LabelIndex(labels: seq<string>, l: string): (k: Option<nat>)
    ensures k.Some? <==> l in labels
    ensures k.Some? ==> k.value < |labels| && labels[k.value] == l && l !in labels[..k.value]
  {
    if |labels| == 0 then None
    else if labels[0] == l then Some(0)
    else match LabelIndex(labels[1..], l)
      case Some(k) => assert labels[..k + 1] == [labels[0]] + labels[1..][..k]; Some(k + 1)
      case None => None
  }

  // ---------------------------------------------------------------------
  // clean_data

  /** The rows left after filling and `dropna`: complete, finite, of frame width. */
  function Repaired(f: Frame): (rows: seq<Row>)
    requires WellFormed(f)
    ensures NoMissing(rows) && NoInfinite(rows) && Uniform(rows, |f.labels| + 1)
  {
    var g := Filled(f);
    var rows := DropNa(g);
    FilledNoInfinite(f);
    DropNaRows(g);
    RowsFrom(rows, g, |f.labels| + 1);
    rows
  }

  /** A filled row survives the drop exactly when it is complete, as often as it occurs. */
  lemma RepairedRows(f: Frame)
    requires WellFormed(f)
    ensures forall x :: multiset(Repaired(f))[x] == if Complete(x) then multiset(Filled(f))[x] else 0
    ensures forall x :: x in Repaired(f) <==> x in Filled(f) && Complete(x)
  {
    assert Repaired(f) == DropNa(Filled(f));
    DropNaRows(Filled(f));
  }

  lemma RowsFrom(rows: seq<Row>, g: seq<Row>, w: nat)
    requires NoInfinite(g) && Uniform(g, w)
    requires forall x :: x in rows ==> x in g
    ensures NoInfinite(rows) && Uniform(rows, w)
    ensures NoMissing(g) ==> NoMissing(rows)
  {
    forall i | 0 <= i < |rows|
      ensures |rows[i].cells| == w && forall c :: 0 <= c < w ==> !Infinite(rows[i].cells[c])
      ensures NoMissing(g) ==> Complete(rows[i])
    {
      assert rows[i] in g;
      var m :| 0 <= m < |g| && g[m] == rows[i];
    }
  }

  lemma DropColumnClean(kept: seq<Row>, k: nat, w: nat)
    requires k < w && Uniform(kept, w) && NoMissing(kept) && NoInfinite(kept)
    ensures NoMissing(DropColumn(kept, k, w)) && NoInfinite(DropColumn(kept, k, w))
  {
    var out := DropColumn(kept, k, w);
    forall i, c | 0 <= i < |out| && 0 <= c < |out[i].cells|
      ensures !out[i].cells[c].NaN? && !Infinite(out[i].cells[c])
    {
      assert Complete(kept[i]);
      if c < k {
        assert out[i].cells[c] == kept[i].cells[c];
      } else {
        assert out[i].cells[c] == kept[i].cells[c + 1];
      }
    }
  }

  /** The rollout step: keep rows with a unique timestamp, sort them, drop the rollout column. */
  function DropRolloutOverlap(rows: seq<Row>, k: nat, w: nat): (out: seq<Row>)
    requires k < w && Uniform(rows, w) && NoMissing(rows) && NoInfinite(rows)
    ensures Uniform(out, w - 1) && NoMissing(out) && NoInfinite(out)
  {
    var unique := UniqueTs(rows, rows);
    var kept := SortByTs(unique);
    forall i | 0 <= i < |kept| ensures kept[i] in rows {
      assert kept[i] in multiset(unique);
      assert kept[i] in multiset(rows);
    }
    RowsFrom(kept, rows, w);
    DropColumnClean(kept, k, w);
    DropColumn(kept, k, w)
  }

  /**
   * The rest of `clean_data` once the rows are repaired: an empty frame when
   * none is left; with the rollout label requested, the rollout step, which
   * raises when the frame has no such column.
   */
  function CleanRepaired(labels: seq<string>, rows: seq<Row>, returnLabels: seq<string>): (r: Result<Frame, CleanError>)
    requires Uniform(rows, |labels| + 1) && NoMissing(rows) && NoInfinite(rows)
    ensures r.Ok? ==> WellFormed(r.value) && NoMissing(r.value.rows) && NoInfinite(r.value.rows)
  {
    if |rows| == 0 then Ok(EmptyFrame)
    else if RolloutLabel !in returnLabels then Ok(Frame(labels, rows))
    else match LabelIndex(labels, RolloutLabel)
      case None => Err(MissingRolloutColumn)
      case Some(k) =>
        Ok(Frame(labels[..k] + labels[k + 1..], DropRolloutOverlap(rows, k + 1, |labels| + 1)))
  }

  /**
   * `clean_data`: the result has no missing and no infinite value; when the
   * rollout label was requested it fails if the frame has no such column.
   */
  function Clean(f: Frame, returnLabels: seq<string>): (r: Result<Frame, CleanError>)
    requires WellFormed(f)
    ensures r.Ok? ==> WellFormed(r.value) && NoMissing(r.value.rows) && NoInfinite(r.value.rows)
  {
    CleanRepaired(f.labels, Repaired(f), returnLabels)
  }

  /** The first steps of `clean_data`, one in-place step after another: replace, fill, drop. */
  method RepairRows(f: Frame) returns (rows: seq<Row>)
    requires WellFormed(f)
    ensures rows == Repaired(f)
  {
    var w := |f.labels| + 1;
    rows := ReplaceInf(f.rows);
    rows := FillRows(rows, w, FillLimit, Forward);
    rows := FillRows(rows, w, FillLimit, Backward);
    if exists i :: 0 <= i < |rows| && !Complete(rows[i]) {
      rows := KeepComplete(rows);
    }
  }

  /** The last steps of `clean_data`: the empty case and the rollout step. */
  method FinishClean(labels: seq<string>, rows: seq<Row>, returnLabels: seq<string>) returns (r: Result<Frame, CleanError>)
    requires Uniform(rows, |labels| + 1) && NoMissing(rows) && NoInfinite(rows)
    ensures r == CleanRepaired(labels, rows, returnLabels)
  {
    if |rows| == 0 {
      return Ok(EmptyFrame);
    }
    if RolloutLabel in returnLabels {
      var k := LabelIndex(labels, RolloutLabel);
      if k.None? {
        return Err(MissingRolloutColumn);
      }
      var kept := DropRolloutOverlap(rows, k.value + 1, |labels| + 1);
      return Ok(Frame(labels[..k.value] + labels[k.value + 1..], kept));
    }
    return Ok(Frame(labels, rows));
  }

  /** `clean_data` as the source writes it: repair the rows, then finish. */
  method CleanData(f: Frame, returnLabels: seq<string>) returns (r: Result<Frame, CleanError>)
    requires WellFormed(f)
    ensures r == Clean(f, returnLabels)
  {
    var rows := RepairRows(f);
    r := FinishClean(f.labels, rows, returnLabels);
  }

  // ---------------------------------------------------------------------
  // Properties of clean_data

  /**
   * Without the rollout label a row survives cleaning exactly when every
   * one of its cells could be repaired from a present value at most 12
   * rows before or after it.
   */
  lemma CleanKeepsRepairableRows(f: Frame, returnLabels: seq<string>, i: nat)
    requires WellFormed(f) && i < |f.rows| && RolloutLabel !in returnLabels
    ensures Clean(f, returnLabels).Ok?
    ensures Filled(f)[i] in Clean(f, returnLabels).value.rows <==>
      forall c :: 0 <= c < |f.labels| + 1 ==> Reachable(Column(ReplaceInf(f.rows), c), i, FillLimit)
    ensures multiset(Clean(f, returnLabels).value.rows)[Filled(f)[i]] ==
      if forall c :: 0 <= c < |f.labels| + 1 ==> Reachable(Column(ReplaceInf(f.rows), c), i, FillLimit)
      then multiset(Filled(f))[Filled(f)[i]] else 0
  {
    FilledRowComplete(f, i);
    RepairedRows(f);
    assert Filled(f)[i] in Filled(f);
  }

  /**
   * With the rollout label and its column present, no timestamp that
   * occurred more than once survives, every row with a unique timestamp
   * does (without its rollout cell), the rollout column is gone and the
   * rows are in strictly ascending timestamp order.
   */
  lemma CleanRollout(labels: seq<string>, g: seq<Row>, returnLabels: seq<string>)
    requires Uniform(g, |labels| + 1) && NoMissing(g) && NoInfinite(g) && g != []
    requires RolloutLabel in returnLabels && RolloutLabel in labels
    ensures var k := LabelIndex(labels, RolloutLabel).value;
      var r := CleanRepaired(labels, g, returnLabels);
      && r.Ok?
      && r.value.labels == labels[..k] + labels[k + 1..]
      && (forall i, j :: 0 <= i < j < |r.value.rows| ==> r.value.rows[i].ts < r.value.rows[j].ts)
      && (forall i :: 0 <= i < |r.value.rows| ==> CountTs(g, r.value.rows[i].ts) == 1)
      && (forall x :: x in g && CountTs(g, x.ts) == 1 ==> DropCell(x, k + 1) in r.value.rows)
  {
    var k := LabelIndex(labels, RolloutLabel).value;
    var out := DropRolloutOverlap(g, k + 1, |labels| + 1);
    assert CleanRepaired(labels, g, returnLabels) == Ok(Frame(labels[..k] + labels[k + 1..], out));
    RolloutOverlapRows(g, k + 1, |labels| + 1);
  }

  lemma RolloutOverlapRows(g: seq<Row>, k: nat, w: nat)
    requires k < w && Uniform(g, w) && NoMissing(g) && NoInfinite(g)
    ensures var out := DropRolloutOverlap(g, k, w);
      && (forall i, j :: 0 <= i < j < |out| ==> out[i].ts < out[j].ts)
      && (forall i :: 0 <= i < |out| ==> CountTs(g, out[i].ts) == 1)
      && (forall x :: x in g && CountTs(g, x.ts) == 1 ==> DropCell(x, k) in out)
  {
    var unique := UniqueTs(g, g);
    var kept := SortByTs(unique);
    SortByTsSorted(unique);
    KeptUnique(g, unique, kept);
    RowsFrom(kept, g, w);
    var out := DropColumn(kept, k, w);
    assert out == DropRolloutOverlap(g, k, w);
    assert multiset(kept) <= multiset(g);
    KeptAscending(g, kept);
    UniqueRowsKept(g, unique, kept, k, w);
  }

  lemma UniqueRowsKept(g: seq<Row>, unique: seq<Row>, kept: seq<Row>, k: nat, w: nat)
    requires unique == UniqueTs(g, g)
    requires multiset(kept) == multiset(unique)
    requires k < w && Uniform(kept, w) && Uniform(g, w)
    ensures forall x :: x in g && CountTs(g, x.ts) == 1 ==> DropCell(x, k) in DropColumn(kept, k, w)
  {
    var out := DropColumn(kept, k, w);
    UniqueTsRows(g, g);
    forall x | x in g && CountTs(g, x.ts) == 1
      ensures DropCell(x, k) in out
    {
      assert x in unique;
      assert x in multiset(kept);
      var m :| 0 <= m < |kept| && kept[m] == x;
      assert out[m] == DropCell(x, k);
    }
  }

  /** The rows kept by the rollout step are rows of `g` whose timestamp `g` holds once. */
  lemma KeptUnique(g: seq<Row>, unique: seq<Row>, kept: seq<Row>)
    requires unique == UniqueTs(g, g)
    requires multiset(kept) == multiset(unique)
    ensures forall i :: 0 <= i < |kept| ==> kept[i] in g && CountTs(g, kept[i].ts) == 1
  {
    UniqueTsRows(g, g);
    forall i | 0 <= i < |kept|
      ensures kept[i] in unique
    {
      assert kept[i] in multiset(unique);
    }
  }

  /** Sorted rows of `g`, each stamped with a timestamp `g` holds once, strictly ascend. */
  lemma KeptAscending(g: seq<Row>, kept: seq<Row>)
    requires SortedByTs(kept) && multiset(kept) <= multiset(g)
    requires forall i :: 0 <= i < |kept| ==> kept[i] in g && CountTs(g, kept[i].ts) == 1
    ensures forall i, j :: 0 <= i < j < |kept| ==> kept[i].ts < kept[j].ts
  {
    forall i, j | 0 <= i < j < |kept|
      ensures kept[i].ts < kept[j].ts
    {
      if kept[i].ts == kept[j].ts {
        if kept[i] == kept[j] {
          TwoPositions(kept, i, j);
          CountTsBound(g, kept[i]);
        } else {
          var m1 :| 0 <= m1 < |g| && g[m1] == kept[i];
          var m2 :| 0 <= m2 < |g| && g[m2] == kept[j];
          if m1 < m2 {
            CountTsTwice(g, m1, m2);
          } else {
            CountTsTwice(g, m2, m1);
          }
        }
      }
    }
  }

  /**
   * With the rollout label requested but no such column (no returned series
   * carried it), cleaning a frame that still has rows raises.
   */
  lemma CleanMissingRolloutColumn(f: Frame, returnLabels: seq<string>)
    requires WellFormed(f) && RolloutLabel in returnLabels && RolloutLabel !in f.labels
    ensures Clean(f, returnLabels) == Err(MissingRolloutColumn) <==> Repaired(f) != []
  {
  }

  /** A complete, finite frame is its own repair. */
  lemma RepairedFixpoint(f: Frame)
    requires WellFormed(f) && NoMissing(f.rows) && NoInfinite(f.rows)
    ensures Repaired(f) == f.rows
  {
    var w := |f.labels| + 1;
    var r0 := ReplaceInf(f.rows);
    forall i | 0 <= i < |f.rows|
      ensures r0[i] == f.rows[i]
    {
      assert r0[i].cells == f.rows[i].cells;
    }
    assert r0 == f.rows;
    FillRowsFixpoint(f.rows, w, Forward);
    FillRowsFixpoint(f.rows, w, Backward);
  }

  /** Without the rollout label, cleaning never fails and a second clean changes nothing. */
  lemma CleanIdempotent(f: Frame, returnLabels: seq<string>)
    requires WellFormed(f) && RolloutLabel !in returnLabels
    ensures Clean(f, returnLabels).Ok?
    ensures Clean(Clean(f, returnLabels).value, returnLabels) == Clean(f, returnLabels)
  {
    var h := Clean(f, returnLabels).value;
    RepairedFixpoint(h);
  }

  /**
   * With the rollout label, a clean that kept rows leaves no rollout column,
   * so cleaning its output again raises: the cleaner is not idempotent.
   */
  lemma CleanTwiceWithRollout(f: Frame, returnLabels: seq<string>)
    requires WellFormed(f) && RolloutLabel in returnLabels
    requires RolloutLabel in f.labels
    requires RolloutLabel !in f.labels[LabelIndex(f.labels, RolloutLabel).value + 1..]
    requires Clean(f, returnLabels).Ok? && Clean(f, returnLabels).value.rows != []
    ensures Clean(Clean(f, returnLabels).value, returnLabels) == Err(MissingRolloutColumn)
  {
    var k := LabelIndex(f.labels, RolloutLabel).value;
    var h := Clean(f, returnLabels).value;
    assert h.labels == f.labels[..k] + f.labels[k + 1..];
    assert RolloutLabel !in h.labels;
    RepairedFixpoint(h);
  }

  // ---------------------------------------------------------------------
  // fetch_data

  /**
   * `PrometheusDataFetcher.fetch_data`: query the `hours` before `now` at
   * the scrape interval and clean the frame; if cleaning raises, the frame
   * is returned as the failed clean left it (infinities already replaced in
   * place, nothing filled or dropped).
   */
  function FetchData(http: Http, server: string, metric: string, labels: seq<(string, string)>,
                     hours: int, scrapeInterval: int, returnLabels: seq<string>, now: int)
    : (r: Result<Frame, QueryError>)
    requires scrapeInterval > 0
    ensures r.Err? <==> hours < 0
    ensures r.Ok? ==> WellFormed(r.value) && NoInfinite(r.value.rows)
  {
    match QueryMetricSpec(http, server, metric, now - hours * 3600, now, labels, returnLabels, scrapeInterval)
    case Err(e) => Err(e)
    case Ok(df) =>
      match Clean(df, returnLabels)
      case Ok(cleaned) => Ok(cleaned)
      case Err(_) => Ok(Frame(df.labels, ReplaceInf(df.rows)))
  }

  /** When cleaning succeeds (always, without the rollout label), nothing is missing. */
  lemma FetchDataClean(http: Http, server: string, metric: string, labels: seq<(string, string)>,
                       hours: int, scrapeInterval: int, returnLabels: seq<string>, now: int)
    requires scrapeInterval > 0 && hours >= 0 && RolloutLabel !in returnLabels
    ensures var r := FetchData(http, server, metric, labels, hours, scrapeInterval, returnLabels, now);
      r.Ok? && NoMissing(r.value.rows)
  {
    var df := QueryMetricSpec(http, server, metric, now - hours * 3600, now, labels, returnLabels, scrapeInterval).value;
    CleanIdempotent(df, returnLabels);
  }

  /**
   * When cleaning raises, the caller gets the queried frame with only its
   * infinities replaced: every missing cell reaches the caller still missing.
   */
  lemma FetchDataUncleaned(http: Http, server: string, metric: string, labels: seq<(string, string)>,
                           hours: int, scrapeInterval: int, returnLabels: seq<string>, now: int)
    requires scrapeInterval > 0
    requires var q := QueryMetricSpec(http, server, metric, now - hours * 3600, now, labels, returnLabels, scrapeInterval);
      q.Ok? && Clean(q.value, returnLabels).Err?
    ensures var df := QueryMetricSpec(http, server, metric, now - hours * 3600, now, labels, returnLabels, scrapeInterval).value;
      var r := FetchData(http, server, metric, labels, hours, scrapeInterval, returnLabels, now);
      && r == Ok(Frame(df.labels, ReplaceInf(df.rows)))
      && forall i, c :: 0 <= i < |df.rows| && 0 <= c < |df.rows[i].cells| && df.rows[i].cells[c].NaN? ==>
           r.value.rows[i].cells[c].NaN?
  {
  }

  /**
   * Whenever the clean succeeds, with or without the rollout label, the
   * cleaned frame is what `fetch_data` returns: complete and finite.
   */
  lemma FetchDataCleaned(http: Http, server: string, metric: string, labels: seq<(string, string)>,
                         hours: int, scrapeInterval: int, returnLabels: seq<string>, now: int)
    requires scrapeInterval > 0
    requires var q := QueryMetricSpec(http, server, metric, now - hours * 3600, now, labels, returnLabels, scrapeInterval);
      q.Ok? && Clean(q.value, returnLabels).Ok?
    ensures var df := QueryMetricSpec(http, server, metric, now - hours * 3600, now, labels, returnLabels, scrapeInterval).value;
      var r := FetchData(http, server, metric, labels, hours, scrapeInterval, returnLabels, now);
      && r == Ok(Clean(df, returnLabels).value)
      && NoMissing(r.value.rows) && NoInfinite(r.value.rows)
  {
  }

  lemma UnlabelledQuery(http: Http, server: string, metric: string, now: int, s: Series)
    requires s == Series(map[], [(now - 60, Num(1.0)), (now - 30, NaN)])
    requires forall q :: http(q) == Some([s])
    ensures QueryMetricSpec(http, server, metric, now - DefaultHours * 3600, now, [], [RolloutLabel], DefaultScrapeInterval)
      == Ok(Frame([], [Row(now - 60, [Num(1.0)]), Row(now - 30, [NaN])]))
  {
    var start := now - DefaultHours * 3600;
    var chunks := Chunks(start, now, DefaultScrapeInterval);
    assert chunks == [Call(start, now, DefaultStep)];
    assert chunks[..0] == [];
    var q := LabelQuery(metric, []);
    var results := Gather(http, server, q, chunks);
    assert !OverCap(chunks[0]);
    assert http(Request(server + RangePath, q, start, now, DefaultStep)) == Some([s]);
    assert RangeLimit(http, server, q, chunks[0]) == [s];
    assert Gather(http, server, q, chunks[..0]) == [];
    assert results == [s];
    UnlabelledRows(s, now);
  }

  lemma UnlabelledRows(s: Series, now: int)
    requires s == Series(map[], [(now - 60, Num(1.0)), (now - 30, NaN)])
    ensures LabelColumns([RolloutLabel], [s]) == []
    ensures SortByTs(ConcatRows([s], [])) == [Row(now - 60, [Num(1.0)]), Row(now - 30, [NaN])]
  {
    NoRolloutColumn(s);
    var rows := [Row(now - 60, [Num(1.0)]), Row(now - 30, [NaN])];
    assert [s][..0] == [];
    UnlabelledSeriesRows(s, now);
    assert ConcatRows([s], []) == rows;
    SortTwo(rows);
  }

  lemma NoRolloutColumn(s: Series)
    requires s.metric == map[]
    ensures LabelColumns([RolloutLabel], [s]) == []
  {
    assert !SomeSeriesHas([s], RolloutLabel);
    assert [RolloutLabel][..0] == [];
  }

  lemma UnlabelledSeriesRows(s: Series, now: int)
    requires s == Series(map[], [(now - 60, Num(1.0)), (now - 30, NaN)])
    ensures SeriesRows(s, []) == [Row(now - 60, [Num(1.0)]), Row(now - 30, [NaN])]
  {
    var rows := [Row(now - 60, [Num(1.0)]), Row(now - 30, [NaN])];
    assert LabelCells(s, []) == [];
    assert SeriesRows(s, [])[0] == rows[0];
    assert SeriesRows(s, [])[1] == rows[1];
  }

  lemma SortTwo(rows: seq<Row>)
    requires |rows| == 2 && rows[0].ts <= rows[1].ts
    ensures SortByTs(rows) == rows
  {
    assert rows[1..] == [rows[1]];
    assert [rows[1]][1..] == [];
    assert SortByTs([rows[1]]) == Insert(rows[1], []) == [rows[1]];
    assert SortByTs(rows) == Insert(rows[0], [rows[1]]);
  }

  lemma UnlabelledCleanFails(df: Frame)
    requires df.labels == [] && |df.rows| == 2 && WellFormed(df)
    requires df.rows[0].cells == [Num(1.0)]
    ensures Clean(df, [RolloutLabel]) == Err(MissingRolloutColumn)
  {
    FilledRowComplete(df, 0);
    assert Column(ReplaceInf(df.rows), 0)[0] == Num(1.0);
    RepairedRows(df);
    assert Filled(df)[0] in Repaired(df);
  }

  /** The trainer's 36-hour window at 30 seconds is one request of 4,320 points. */
  lemma TrainerWindowSingleRequest(now: int)
    ensures Chunks(now - DefaultHours * 3600, now, DefaultScrapeInterval)
      == [Call(now - DefaultHours * 3600, now, DefaultStep)]
  {
  }
}
