/**
 * The tabular, time-indexed frames the connectors produce: one row per
 * sample, a timestamp, the metric value and one cell per label column.
 * A cell is a number, a label string, an infinity or missing (NaN).
 */
module Frames {

  datatype Cell = Num(v: real) | Str(s: string) | PosInf | NegInf | NaN

  predicate Infinite(c: Cell) { c.PosInf? || c.NegInf? }

  /** `cells[0]` is the metric value, `cells[1 + k]` the k-th label column. */
  datatype Row = Row(ts: int, cells: seq<Cell>)

  /** `labels` names the label columns, in column order. */
  datatype Frame = Frame(labels: seq<string>, rows: seq<Row>)

  /** `pd.DataFrame()`: no columns, no rows. */
  const EmptyFrame := Frame([], [])

  predicate Uniform(rows: seq<Row>, w: nat)
  {
    forall i :: 0 <= i < |rows| ==> |rows[i].cells| == w
  }

  predicate WellFormed(f: Frame)
  {
    Uniform(f.rows, |f.labels| + 1)
  }

  predicate Complete(r: Row)
  {
    forall c :: 0 <= c < |r.cells| ==> !r.cells[c].NaN?
  }

  predicate NoMissing(rows: seq<Row>)
  {
    forall i :: 0 <= i < |rows| ==> Complete(rows[i])
  }

  predicate NoInfinite(rows: seq<Row>)
  {
    forall i, c :: 0 <= i < |rows| && 0 <= c < |rows[i].cells| ==> !Infinite(rows[i].cells[c])
  }

  predicate SortedByTs(rows: seq<Row>)
  {
    forall i, j :: 0 <= i < j < |rows| ==> rows[i].ts <= rows[j].ts
  }

  /** Number of rows stamped `t`. */
  function CountTs(rows: seq<Row>, t: int): nat
  {
    if |rows| == 0 then 0
    else CountTs(rows[..|rows| - 1], t) + (if rows[|rows| - 1].ts == t then 1 else 0)
  }

  lemma {:induction false} CountTsPositive(rows: seq<Row>, i: nat)
    requires i < |rows|
    ensures CountTs(rows, rows[i].ts) >= 1
  {
    if i < |rows| - 1 {
      CountTsPositive(rows[..|rows| - 1], i);
    }
  }

  /** Two rows sharing a timestamp make it counted at least twice. */
  lemma {:induction false} CountTsTwice(rows: seq<Row>, i: nat, j: nat)
    requires i < j < |rows| && rows[i].ts == rows[j].ts
    ensures CountTs(rows, rows[i].ts) >= 2
  {
    var front := rows[..|rows| - 1];
    if j < |rows| - 1 {
      CountTsTwice(front, i, j);
    } else {
      CountTsPositive(front, i);
    }
  }

  /** Inserts `r` before the first row stamped at or after it. */
  function Insert(r: Row, rows: seq<Row>): (out: seq<Row>)
    ensures multiset(out) == multiset(rows) + multiset{r}
  {
    if |rows| == 0 || r.ts <= rows[0].ts then [r] + rows
    else
      assert rows == [rows[0]] + rows[1..];
      [rows[0]] + Insert(r, rows[1..])
  }

  /** Inserting into sorted rows keeps them sorted. */
  lemma {:induction false} InsertSorted(r: Row, rows: seq<Row>)
    requires SortedByTs(rows)
    ensures SortedByTs(Insert(r, rows))
  {
    if |rows| > 0 && r.ts > rows[0].ts {
      var tail := Insert(r, rows[1..]);
      InsertSorted(r, rows[1..]);
      InsertAbove(r, rows[1..], tail, rows[0].ts);
      assert Insert(r, rows) == [rows[0]] + tail;
    }
  }

  /** A lower bound on every timestamp survives a permutation that adds `r`. */
  lemma InsertAbove(r: Row, rest: seq<Row>, tail: seq<Row>, lo: int)
    requires multiset(tail) == multiset(rest) + multiset{r}
    requires lo <= r.ts
    requires forall k :: 0 <= k < |rest| ==> lo <= rest[k].ts
    ensures forall k :: 0 <= k < |tail| ==> lo <= tail[k].ts
  {
    forall k | 0 <= k < |tail|
      ensures lo <= tail[k].ts
    {
      assert tail[k] in multiset(tail);
      if tail[k] != r {
        assert tail[k] in multiset(rest);
        var m :| 0 <= m < |rest| && rest[m] == tail[k];
      }
    }
  }

  /** `sort_values(by="timestamp")`: the same rows, ascending by timestamp (see `SortByTsSorted`). */
  function SortByTs(rows: seq<Row>): (out: seq<Row>)
    ensures multiset(out) == multiset(rows)
  {
    if |rows| == 0 then []
    else
      assert rows == [rows[0]] + rows[1..];
      Insert(rows[0], SortByTs(rows[1..]))
  }

  /** The sorted rows ascend by timestamp. */
  lemma {:induction false} SortByTsSorted(rows: seq<Row>)
    ensures SortedByTs(SortByTs(rows))
  {
    if |rows| > 0 {
      SortByTsSorted(rows[1..]);
      InsertSorted(rows[0], SortByTs(rows[1..]));
    }
  }

  /** A row occurs no more often than its timestamp. */
  lemma {:induction false} CountTsBound(rows: seq<Row>, x: Row)
    ensures multiset(rows)[x] <= CountTs(rows, x.ts)
  {
    if |rows| > 0 {
      var front := rows[..|rows| - 1];
      assert rows == front + [rows[|rows| - 1]];
      CountTsBound(front, x);
    }
  }

  /** A value at two positions occurs at least twice. */
  lemma TwoPositions(rows: seq<Row>, i: nat, j: nat)
    requires i < j < |rows| && rows[i] == rows[j]
    ensures multiset(rows)[rows[i]] >= 2
  {
    assert rows == rows[..j] + rows[j..];
    assert rows[i] in rows[..j];
    assert rows[j] in rows[j..];
  }
}
