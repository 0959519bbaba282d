/**
 * The `Prometheus` connector: the label query string, the range-query
 * paginator that splits a span into requests of at most 11,000 points,
 * the single capped request, and `query_metric`, which turns the
 * returned series into one frame sorted by timestamp.
 *
 * HTTP and JSON decoding are an oracle `Http`: the series a request
 * returns, or `None` when the request or the decoding raises.
 * Timestamps and steps are whole seconds.
 */
module PrometheusQuery {
  import opened Wrappers
  import opened Strings
  import opened Frames

  /** Most points one range request may ask for. */
  const MaxPoints: int := 11000
  /** `step` when a caller gives none, in seconds. */
  const DefaultStep: int := 30
  const RangePath := "/api/v1/query_range"

  /** One series of a range-query answer: its label set and its samples. */
  datatype Series = Series(metric: map<string, string>, values: seq<(int, Cell)>)

  datatype Request = Request(url: string, query: string, start: int, end: int, step: int)

  type Http = Request -> Option<seq<Series>>

  /** A window handed to `query_range_limit`. */
  datatype Call = Call(start: int, end: int, step: int)

  datatype QueryError = EndBeforeStart

  // ---------------------------------------------------------------------
  // Label query

  function LabelTerm(l: (string, string)): string
  {
    l.0 + "=" + "'" + l.1 + "'"
  }

  function LabelTerms(labels: seq<(string, string)>): (terms: seq<string>)
    ensures |terms| == |labels|
    ensures forall i :: 0 <= i < |labels| ==> terms[i] == LabelTerm(labels[i])
  {
    if |labels| == 0 then [] else [LabelTerm(labels[0])] + LabelTerms(labels[1..])
  }

  /** The PromQL selector: the bare metric, or `metric{k1='v1',k2='v2'}` in label order. */
  function LabelQuery(metric: string, labels: seq<(string, string)>): (q: string)
    ensures |metric| <= |q| && q[..|metric|] == metric
    ensures |labels| == 0 <==> q == metric
  {
    if |labels| == 0 then metric
    else metric + "{" + Join(LabelTerms(labels), ',') + "}"
  }

  /** Reads `k='v'` back; `None` if the term has no `=` or no quotes. */
  function ParseTerm(t: string): Option<(string, string)>
  {
    if '=' !in t then None
    else
      var i := IndexOf(t, '=');
      var rest := t[i + 1..];
      if |rest| >= 2 && rest[0] == '\'' && rest[|rest| - 1] == '\'' then
        Some((t[..i], rest[1..|rest| - 1]))
      else None
  }

  function ParseTerms(ts: seq<string>): Option<seq<(string, string)>>
  {
    if |ts| == 0 then Some([])
    else match (ParseTerm(ts[0]), ParseTerms(ts[1..]))
      case (Some(l), Some(ls)) => Some([l] + ls)
      case _ => None
  }

  /** Reads a selector back into the metric name and the label list. */
  function ParseQuery(q: string): Option<(string, seq<(string, string)>)>
  {
    if '{' !in q then Some((q, []))
    else
      var i := IndexOf(q, '{');
      if q[|q| - 1] != '}' || |q| < i + 2 then None
      else match ParseTerms(Split(q[i + 1..|q| - 1], ','))
        case Some(ls) => Some((q[..i], ls))
        case None => None
  }

  predicate PlainLabel(l: (string, string))
  {
    '=' !in l.0 && ',' !in l.0 && ',' !in l.1
  }

  lemma ParseLabelTerm(l: (string, string))
    requires '=' !in l.0
    ensures ParseTerm(LabelTerm(l)) == Some(l)
  {
    var t := LabelTerm(l);
    assert t == l.0 + ['='] + ("'" + l.1 + "'");
    IndexOfAfterFreePrefix(l.0, '=', "'" + l.1 + "'");
    assert t[..|l.0|] == l.0;
    var rest := t[|l.0| + 1..];
    assert rest == "'" + l.1 + "'";
    assert rest[1..|rest| - 1] == l.1;
  }

  /** One step of `ParseLabelTerms`: the first term reads back, then the rest. */
  lemma ParseLabelTermsStep(labels: seq<(string, string)>)
    requires |labels| > 0 && '=' !in labels[0].0
    requires ParseTerms(LabelTerms(labels[1..])) == Some(labels[1..])
    ensures ParseTerms(LabelTerms(labels)) == Some(labels)
  {
    var ts := LabelTerms(labels);
    assert ts[0] == LabelTerm(labels[0]);
    assert ts[1..] == LabelTerms(labels[1..]);
    ParseLabelTerm(labels[0]);
    assert labels == [labels[0]] + labels[1..];
  }

  lemma {:induction false} ParseLabelTerms(labels: seq<(string, string)>)
    requires forall i :: 0 <= i < |labels| ==> '=' !in labels[i].0
    ensures ParseTerms(LabelTerms(labels)) == Some(labels)
  {
    if |labels| > 0 {
      forall i | 0 <= i < |labels| - 1
        ensures '=' !in labels[1..][i].0
      {
        assert labels[1..][i] == labels[i + 1];
      }
      ParseLabelTerms(labels[1..]);
      ParseLabelTermsStep(labels);
    }
  }

  /**
   * The selector determines the metric and the labels, in order, as long
   * as the metric has no `{`, no key holds `=` or `,` and no value holds `,`.
   */
  lemma LabelQueryRoundTrip(metric: string, labels: seq<(string, string)>)
    requires '{' !in metric
    requires forall i :: 0 <= i < |labels| ==> PlainLabel(labels[i])
    ensures ParseQuery(LabelQuery(metric, labels)) == Some((metric, labels))
  {
    if |labels| > 0 {
      var terms := LabelTerms(labels);
      ParseBraced(metric, Join(terms, ','));
      forall i | 0 <= i < |terms|
        ensures ',' !in terms[i]
      {
        LabelTermFree(labels[i]);
      }
      SplitJoin(terms, ',');
      ParseLabelTerms(labels);
    }
  }

  /** A term holds a comma only if its key or value does. */
  lemma LabelTermFree(l: (string, string))
    requires ',' !in l.0 && ',' !in l.1
    ensures ',' !in LabelTerm(l)
  {
    var t := LabelTerm(l);
    forall k | 0 <= k < |t|
      ensures t[k] != ','
    {
      if k < |l.0| {
        assert t[k] == l.0[k];
      } else if |l.0| + 1 < k < |t| - 1 {
        assert t[k] == l.1[k - |l.0| - 2];
      }
    }
  }

  /** A braced selector is read back as the metric and the terms between the braces. */
  lemma ParseBraced(metric: string, body: string)
    requires '{' !in metric
    ensures ParseQuery(metric + "{" + body + "}") ==
      match ParseTerms(Split(body, ','))
      case Some(ls) => Some((metric, ls))
      case None => None
  {
    var q := metric + "{" + body + "}";
    assert q == metric + ['{'] + (body + "}");
    IndexOfAfterFreePrefix(metric, '{', body + "}");
    assert q[..|metric|] == metric;
    assert q[|metric| + 1..|q| - 1] == body;
  }

  // ---------------------------------------------------------------------
  // Paginator

  /**
   * `(end - start) / step > 11000` with the source's true division,
   * restated without division for a positive step.
   */
  predicate OverCap(c: Call)
  {
    c.end - c.start > MaxPoints * c.step
  }

  /**
   * The windows `query_range` hands to `query_range_limit`: full windows of
   * 11,000 steps while more than 11,000 points remain, then the remainder,
   * if positive, requested at the default step.
   */
  function Chunks(start: int, end: int, step: int): (calls: seq<Call>)
    requires step > 0
    ensures |calls| == 0 <==> end <= start
    decreases end - start
  {
    if end - start > MaxPoints * step then
      [Call(start, start + MaxPoints * step, step)] + Chunks(start + MaxPoints * step, end, step)
    else if end - start > 0 then [Call(start, end, DefaultStep)]
    else []
  }

  /** Past a full window, the windows so far grow by that window. */
  lemma ChunksFull(start: int, end: int, step: int, calls: seq<Call>, from: int)
    requires step > 0 && end - from > MaxPoints * step
    requires Chunks(start, end, step) == calls + Chunks(from, end, step)
    ensures Chunks(start, end, step) == (calls + [Call(from, from + MaxPoints * step, step)]) + Chunks(from + MaxPoints * step, end, step)
  {
    var c := Call(from, from + MaxPoints * step, step);
    assert Chunks(from, end, step) == [c] + Chunks(from + MaxPoints * step, end, step);
  }

  /** The windows left once no full window fits: the remainder, if any. */
  lemma ChunksRest(from: int, end: int, step: int)
    requires step > 0 && end - from <= MaxPoints * step
    ensures Chunks(from, end, step) == if end - from > 0 then [Call(from, end, DefaultStep)] else []
  {
  }

  /** `query_range_limit`: nothing for a window over the cap or a failing request. */
  function RangeLimit(http: Http, server: string, query: string, c: Call): (r: seq<Series>)
    ensures r != [] ==> !OverCap(c) && http(Request(server + RangePath, query, c.start, c.end, c.step)) == Some(r)
    ensures OverCap(c) ==> r == []
    ensures http(Request(server + RangePath, query, c.start, c.end, c.step)).None? ==> r == []
    ensures !OverCap(c) && http(Request(server + RangePath, query, c.start, c.end, c.step)).Some? ==>
      r == http(Request(server + RangePath, query, c.start, c.end, c.step)).value
  {
    if OverCap(c) then []
    else match http(Request(server + RangePath, query, c.start, c.end, c.step))
      case Some(series) => series
      case None => []
  }

  /** The per-window answers, concatenated in window order. */
  function Gather(http: Http, server: string, query: string, calls: seq<Call>): seq<Series>
  {
    if |calls| == 0 then []
    else Gather(http, server, query, calls[..|calls| - 1]) + RangeLimit(http, server, query, calls[|calls| - 1])
  }

  /** One more window appends its answer. */
  lemma GatherSnoc(http: Http, server: string, query: string, calls: seq<Call>, c: Call)
    ensures Gather(http, server, query, calls + [c]) == Gather(http, server, query, calls) + RangeLimit(http, server, query, c)
  {
    assert (calls + [c])[..|calls|] == calls;
  }

  /** `query_range_limit` as a call: the capped, fallible request. */
  method QueryRangeLimit(http: Http, server: string, query: string, start: int, end: int, step: int)
    returns (results: seq<Series>)
    requires step > 0
    ensures results == RangeLimit(http, server, query, Call(start, end, step))
  {
    results := [];
    if end - start > MaxPoints * step {
      return;
    }
    var response := http(Request(server + RangePath, query, start, end, step));
    if response.Some? {
      results := response.value;
    }
  }

  /**
   * `query_range`: the windows it asks for are `Chunks(start, end, step)`
   * and its result is their answers in order.
   */
  method QueryRange(http: Http, server: string, query: string, start: int, end: int, step: int)
    returns (results: seq<Series>, calls: seq<Call>)
    requires step > 0
    ensures calls == Chunks(start, end, step)
    ensures results == Gather(http, server, query, calls)
  {
    results, calls := [], [];
    var tempStart := start;
    while end - tempStart > MaxPoints * step
      invariant Chunks(start, end, step) == calls + Chunks(tempStart, end, step)
      invariant results == Gather(http, server, query, calls)
      decreases end - tempStart
    {
      var tempEnd := tempStart + MaxPoints * step;
      var response := QueryRangeLimit(http, server, query, tempStart, tempEnd, step);
      GatherSnoc(http, server, query, calls, Call(tempStart, tempEnd, step));
      ChunksFull(start, end, step, calls, tempStart);
      results := results + response;
      calls := calls + [Call(tempStart, tempEnd, step)];
      tempStart := tempEnd;
    }
    ChunksRest(tempStart, end, step);
    if end - tempStart > 0 {
      var response := QueryRangeLimit(http, server, query, tempStart, end, DefaultStep);
      GatherSnoc(http, server, query, calls, Call(tempStart, end, DefaultStep));
      results := results + response;
      calls := calls + [Call(tempStart, end, DefaultStep)];
    }
  }

  // ---------------------------------------------------------------------
  // Properties of the paginator

  /**
   * The windows tile `[start, end]`: none for an empty span; otherwise the
   * first starts at `start`, each starts where the previous one ended, the
   * last ends at `end`; every window but the last spans exactly 11,000
   * steps at the caller's step, and the last is a positive remainder of
   * at most 11,000 steps requested at the default step.
   */
  lemma {:induction false} ChunksTile(start: int, end: int, step: int)
    requires step > 0
    ensures var cs := Chunks(start, end, step);
      && (|cs| == 0 <==> end <= start)
      && (|cs| > 0 ==> cs[0].start == start && cs[|cs| - 1].end == end)
      && (forall i :: 0 < i < |cs| ==> cs[i].start == cs[i - 1].end)
      && (forall i :: 0 <= i < |cs| - 1 ==> cs[i].end - cs[i].start == MaxPoints * step && cs[i].step == step)
      && (|cs| > 0 ==> cs[|cs| - 1].step == DefaultStep
                       && 0 < cs[|cs| - 1].end - cs[|cs| - 1].start <= MaxPoints * step)
    decreases end - start
  {
    if end - start > MaxPoints * step {
      var next := start + MaxPoints * step;
      ChunksTile(next, end, step);
      var cs := Chunks(start, end, step);
      var rest := Chunks(next, end, step);
      assert cs == [Call(start, next, step)] + rest;
      assert |rest| > 0;
      forall i | 0 < i < |cs|
        ensures cs[i].start == cs[i - 1].end
      {
        if i > 1 {
          assert cs[i] == rest[i - 1] && cs[i - 1] == rest[i - 2];
        }
      }
    }
  }

  /** The number of windows is the span divided by 11,000 steps, rounded up. */
  lemma {:induction false} ChunksCount(start: int, end: int, step: int)
    requires step > 0 && end > start
    ensures var n := |Chunks(start, end, step)|;
      (n - 1) * (MaxPoints * step) < end - start <= n * (MaxPoints * step)
    decreases end - start
  {
    var m := MaxPoints * step;
    if end - start > m {
      ChunksCount(start + m, end, step);
      var k := |Chunks(start + m, end, step)|;
      assert |Chunks(start, end, step)| == k + 1;
      assert (k - 1) * m < end - start - m <= k * m;
      assert (k + 1 - 1) * m == k * m;
      assert (k + 1) * m == k * m + m;
    }
  }

  /** A span of exactly 11,001 points is fetched with two requests. */
  lemma ElevenThousandOnePoints(start: int, step: int)
    requires step > 0
    ensures var end := start + (MaxPoints + 1) * step;
      Chunks(start, end, step) ==
        [Call(start, start + MaxPoints * step, step), Call(start + MaxPoints * step, end, DefaultStep)]
  {
    var end := start + (MaxPoints + 1) * step;
    assert end - start == MaxPoints * step + step;
    var next := start + MaxPoints * step;
    assert end - next == step;
  }

  /**
   * The remainder is requested at the default 30-second step, so with a
   * caller's step above 30 a span of exactly 11,000 of the caller's steps
   * is one window of more than 11,000 default steps, which
   * `query_range_limit` refuses: the whole query returns nothing, whatever
   * the server would have answered.
   */
  lemma FinalChunkAtDefaultStep(http: Http, server: string, query: string, start: int, step: int)
    requires step > DefaultStep
    ensures var end := start + MaxPoints * step;
      && Chunks(start, end, step) == [Call(start, end, DefaultStep)]
      && OverCap(Call(start, end, DefaultStep))
      && Gather(http, server, query, Chunks(start, end, step)) == []
  {
    var end := start + MaxPoints * step;
    var cs := Chunks(start, end, step);
    assert cs == [Call(start, end, DefaultStep)];
    assert MaxPoints * step > MaxPoints * DefaultStep;
    assert cs[..0] == [];
  }

  /** With a step of at most 30 seconds no window is ever over the cap. */
  lemma {:induction false} ChunksWithinCap(start: int, end: int, step: int)
    requires 0 < step <= DefaultStep
    ensures forall i :: 0 <= i < |Chunks(start, end, step)| ==> !OverCap(Chunks(start, end, step)[i])
    decreases end - start
  {
    var m := MaxPoints * step;
    assert m <= MaxPoints * DefaultStep;
    if end - start > m {
      ChunksWithinCap(start + m, end, step);
    }
  }

  // ---------------------------------------------------------------------
  // query_metric

  predicate SomeSeriesHas(series: seq<Series>, l: string)
  {
    exists i :: 0 <= i < |series| && l in series[i].metric
  }

  /**
   * The label columns of the concatenated frame: the requested labels that
   * some series carries, each once, in request order.
   */
  function LabelColumns(returnLabels: seq<string>, series: seq<Series>): (cols: seq<string>)
    ensures forall l :: l in cols <==> l in returnLabels && SomeSeriesHas(series, l)
    ensures forall i, j :: 0 <= i < j < |cols| ==> cols[i] != cols[j]
  {
    if |returnLabels| == 0 then []
    else
      var rest := LabelColumns(returnLabels[..|returnLabels| - 1], series);
      var l := returnLabels[|returnLabels| - 1];
      assert returnLabels == returnLabels[..|returnLabels| - 1] + [l];
      if l !in rest && SomeSeriesHas(series, l) then rest + [l] else rest
  }

  /** A series' label cells: its value for each column, missing where it lacks the label. */
  function LabelCells(s: Series, cols: seq<string>): (cells: seq<Cell>)
    ensures |cells| == |cols|
    ensures forall c :: 0 <= c < |cols| ==> (cols[c] in s.metric <==> cells[c].Str?)
    ensures forall c :: 0 <= c < |cols| && cols[c] in s.metric ==> cells[c] == Str(s.metric[cols[c]])
    ensures forall c :: 0 <= c < |cols| && cols[c] !in s.metric ==> cells[c] == NaN
  {
    seq(|cols|, c requires 0 <= c < |cols| => if cols[c] in s.metric then Str(s.metric[cols[c]]) else NaN)
  }

  /** The frame one series contributes: a row per sample. */
  function SeriesRows(s: Series, cols: seq<string>): (rows: seq<Row>)
    ensures |rows| == |s.values| && Uniform(rows, |cols| + 1)
    ensures forall i :: 0 <= i < |rows| ==> rows[i].ts == s.values[i].0 && rows[i].cells[0] == s.values[i].1
    ensures forall i, c {:trigger rows[i].cells[1 + c]} :: 0 <= i < |rows| && 0 <= c < |cols| ==>
      rows[i].cells[1 + c] == (if cols[c] in s.metric then Str(s.metric[cols[c]]) else NaN)
  {
    seq(|s.values|, i requires 0 <= i < |s.values| => Row(s.values[i].0, [s.values[i].1] + LabelCells(s, cols)))
  }

  function ConcatRows(series: seq<Series>, cols: seq<string>): (rows: seq<Row>)
    ensures Uniform(rows, |cols| + 1)
  {
    if |series| == 0 then []
    else ConcatRows(series[..|series| - 1], cols) + SeriesRows(series[|series| - 1], cols)
  }

  lemma ConcatRowsStep(series: seq<Series>, cols: seq<string>, i: nat)
    requires i < |series|
    ensures ConcatRows(series[..i + 1], cols) == ConcatRows(series[..i], cols) + SeriesRows(series[i], cols)
  {
    assert series[..i + 1][..i] == series[..i];
  }

  /**
   * What `query_metric` returns: `EndBeforeStart` when `end < start`;
   * otherwise the samples of every returned series, with their label
   * columns, sorted by timestamp (no columns at all when nothing came back).
   */
  function QueryMetricSpec(http: Http, server: string, metric: string, start: int, end: int,
                           labels: seq<(string, string)>, returnLabels: seq<string>, step: int)
    : (r: Result<Frame, QueryError>)
    requires step > 0
    ensures r.Err? <==> end < start
    ensures r.Ok? ==> WellFormed(r.value)
  {
    if end < start then Err(EndBeforeStart)
    else
      var results := Gather(http, server, LabelQuery(metric, labels), Chunks(start, end, step));
      if |results| == 0 then Ok(EmptyFrame)
      else
        var cols := LabelColumns(returnLabels, results);
        var rows := SortByTs(ConcatRows(results, cols));
        assert forall i :: 0 <= i < |rows| ==> rows[i] in multiset(ConcatRows(results, cols));
        Ok(Frame(cols, rows))
  }

  /**
   * The frame holds exactly the returned samples, each once, and its label
   * columns are the requested labels some series carries.
   */
  lemma QueryMetricSamples(http: Http, server: string, metric: string, start: int, end: int,
                           labels: seq<(string, string)>, returnLabels: seq<string>, step: int)
    requires step > 0 && start <= end
    ensures var results := Gather(http, server, LabelQuery(metric, labels), Chunks(start, end, step));
      var f := QueryMetricSpec(http, server, metric, start, end, labels, returnLabels, step).value;
      && multiset(f.rows) == multiset(ConcatRows(results, f.labels))
      && SortedByTs(f.rows)
      && (results != [] ==> f.labels == LabelColumns(returnLabels, results))
  {
    var results := Gather(http, server, LabelQuery(metric, labels), Chunks(start, end, step));
    if results != [] {
      SortByTsSorted(ConcatRows(results, LabelColumns(returnLabels, results)));
    }
  }

  /** `query_metric`: build the selector, reject `end < start`, page, then collect the frames. */
  method QueryMetric(http: Http, server: string, metric: string, start: int, end: int,
                     labels: seq<(string, string)>, returnLabels: seq<string>, step: int)
    returns (r: Result<Frame, QueryError>)
    requires step > 0
    ensures r == QueryMetricSpec(http, server, metric, start, end, labels, returnLabels, step)
  {
    var query := LabelQuery(metric, labels);
    if end < start {
      return Err(EndBeforeStart);
    }
    var results, _ := QueryRange(http, server, query, start, end, step);
    var cols := LabelColumns(returnLabels, results);
    var rows: seq<Row> := [];
    for i := 0 to |results|
      invariant rows == ConcatRows(results[..i], cols)
    {
      ConcatRowsStep(results, cols, i);
      rows := rows + SeriesRows(results[i], cols);
    }
    assert results[..|results|] == results;
    if |results| == 0 {
      return Ok(EmptyFrame);
    }
    r := Ok(Frame(cols, SortByTs(rows)));
  }
}
