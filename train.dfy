/**
 * The training sink: for each inbound request, the dedup gate, the
 * configuration lookup, the backend fetch, the minimum-size check and the
 * train-and-save sequence, with one acknowledgement per request.
 */
module Train {
  import opened Wrappers
  import opened Entities
  import opened Frames
  import PrometheusQuery
  import PrometheusFetcher
  import opened Dedup
  import opened ModelRegistry

  // ---------------------------------------------------------------------
  // Configuration and collaborators
  // ---------------------------------------------------------------------

  datatype DataSource = Prometheus | Druid | Unsupported(name: string)

  /** The Druid fetch settings of one stream. */
  datatype DruidFetcherConf = DruidFetcherConf(
    datasource: string,
    dimensions: seq<string>,
    granularity: string,
    aggregations: map<string, string>,
    groupBy: seq<string>,
    pivot: seq<string>,
    hours: int)

  /** The per-stream configuration found under `composite_keys[0]`. */
  datatype StreamConfig = StreamConfig(
    source: DataSource,
    compositeKeys: seq<string>,
    druidFetcher: Option<DruidFetcherConf>)

  datatype MetricConfig = MetricConfig(minTrainSize: nat, numalogic: NumalogicConf)

  /** The arguments of one Druid fetch. */
  datatype DruidQuery = DruidQuery(
    url: string,
    endpoint: string,
    datasource: string,
    filterKeys: seq<string>,
    filterValues: seq<string>,
    dimensions: seq<string>,
    granularity: string,
    aggregations: map<string, string>,
    groupBy: seq<string>,
    pivot: seq<string>,
    hours: int)

  /**
   * The configuration lookups, the backends and the clock the fetch reads.
   * A lookup that fails or finds nothing is `None`; a Druid fetch that
   * raises is `None`.
   */
  datatype Env = Env(
    streamConfig: string -> Option<StreamConfig>,
    metricConfig: (string, string) -> Option<MetricConfig>,
    promServer: Option<string>,
    druidServer: Option<(string, string)>,
    http: PrometheusQuery.Http,
    druid: DruidQuery -> Option<Frame>,
    now: int)

  // ---------------------------------------------------------------------
  // Backend dispatch
  // ---------------------------------------------------------------------

  /** Why a fetch raised; the run catches every one of these. */
  datatype FetchError = NoCompositeKeys | NoStreamConfig | NoNamespaceKey | NoDruidFetcher | DruidFailed

  /** `fetch_prometheus_data`: the namespace is the second composite key; the rollout label is asked for. */
  function FetchPrometheus(env: Env, p: Payload): (r: Result<Frame, FetchError>)
    ensures env.promServer.None? ==> r == Ok(EmptyFrame)
    ensures env.promServer.Some? ==> (r.Err? <==> |p.compositeKeys| < 2)
    ensures r.Ok? ==> WellFormed(r.value) && NoInfinite(r.value.rows)
  {
    match env.promServer
    case None => Ok(EmptyFrame)
    case Some(server) =>
      if |p.compositeKeys| < 2 then Err(NoNamespaceKey)
      else
        var fetched := PrometheusFetcher.FetchData(
          env.http, server, p.metric, NamespaceSelector(p),
          PrometheusFetcher.DefaultHours, PrometheusFetcher.DefaultScrapeInterval,
          [PrometheusFetcher.RolloutLabel], env.now);
        Ok(fetched.value)
  }

  /** The namespace selector the trainer sends: the request's second composite key. */
  function NamespaceSelector(p: Payload): seq<(string, string)>
    requires |p.compositeKeys| >= 2
  {
    [("namespace", p.compositeKeys[1])]
  }

  /**
   * The Prometheus fetch asks for the metric under the namespace selector,
   * over the last 36 hours at the 30-second scrape interval, with the
   * rollout label as the only returned label; that window is one range
   * request, and the selector reads back as exactly that metric and label.
   */
  lemma FetchPrometheusRequest(env: Env, p: Payload)
    requires env.promServer.Some? && |p.compositeKeys| >= 2
    ensures FetchPrometheus(env, p)
      == Ok(PrometheusFetcher.FetchData(env.http, env.promServer.value, p.metric, NamespaceSelector(p),
                                        36, 30, [PrometheusFetcher.RolloutLabel], env.now).value)
    ensures PrometheusQuery.Chunks(env.now - 36 * 3600, env.now, 30)
      == [PrometheusQuery.Call(env.now - 36 * 3600, env.now, 30)]
    ensures '{' !in p.metric && ',' !in p.compositeKeys[1] ==>
      PrometheusQuery.ParseQuery(PrometheusQuery.LabelQuery(p.metric, NamespaceSelector(p)))
        == Some((p.metric, NamespaceSelector(p)))
  {
    PrometheusFetcher.TrainerWindowSingleRequest(env.now);
    if '{' !in p.metric && ',' !in p.compositeKeys[1] {
      PrometheusQuery.LabelQueryRoundTrip(p.metric, NamespaceSelector(p));
    }
  }

  /** The Druid query for a request: the stream's keys and dimensions as filters. */
  function DruidQueryOf(server: (string, string), sc: StreamConfig, fc: DruidFetcherConf, p: Payload): (q: DruidQuery)
    requires |p.compositeKeys| > 0
    ensures (q.url, q.endpoint) == server && q.datasource == fc.datasource && q.dimensions == fc.dimensions
    ensures q.granularity == fc.granularity && q.aggregations == fc.aggregations
    ensures q.groupBy == fc.groupBy && q.pivot == fc.pivot && q.hours == fc.hours
  {
    DruidQuery(server.0, server.1, fc.datasource,
               sc.compositeKeys + fc.dimensions,
               p.compositeKeys[1..] + [p.metric],
               fc.dimensions, fc.granularity, fc.aggregations, fc.groupBy, fc.pivot, fc.hours)
  }

  /**
   * The filter values skip the configuration name and end with the metric,
   * one value per key of the request after the first; the filter keys are
   * the stream's keys followed by its fetch dimensions.
   */
  lemma DruidFilters(server: (string, string), sc: StreamConfig, fc: DruidFetcherConf, p: Payload)
    requires |p.compositeKeys| > 0
    ensures var q := DruidQueryOf(server, sc, fc, p);
      && |q.filterValues| == |p.compositeKeys|
      && (forall i :: 0 <= i < |p.compositeKeys| - 1 ==> q.filterValues[i] == p.compositeKeys[i + 1])
      && q.filterValues[|p.compositeKeys| - 1] == p.metric
      && q.filterKeys[..|sc.compositeKeys|] == sc.compositeKeys
      && q.filterKeys[|sc.compositeKeys|..] == fc.dimensions
  {
  }

  /** `fetch_druid_data`: no Druid server gives an empty frame; a missing fetch section raises. */
  function FetchDruid(env: Env, sc: StreamConfig, p: Payload): (r: Result<Frame, FetchError>)
    requires |p.compositeKeys| > 0
    ensures env.druidServer.None? ==> r == Ok(EmptyFrame)
    ensures env.druidServer.Some? && sc.druidFetcher.None? ==> r == Err(NoDruidFetcher)
    ensures env.druidServer.Some? && sc.druidFetcher.Some? ==>
      var answer := env.druid(DruidQueryOf(env.druidServer.value, sc, sc.druidFetcher.value, p));
      && (r.Ok? <==> answer.Some?)
      && (r.Ok? ==> r.value == answer.value)
      && (r.Err? ==> r.error == DruidFailed)
  {
    match env.druidServer
    case None => Ok(EmptyFrame)
    case Some(server) =>
      match sc.druidFetcher
      case None => Err(NoDruidFetcher)
      case Some(fc) =>
        match env.druid(DruidQueryOf(server, sc, fc, p))
        case None => Err(DruidFailed)
        case Some(df) => Ok(df)
  }

  /** `fetch_data`: dispatch on the stream's configured source; an unsupported source gives an empty frame. */
  function FetchData(env: Env, p: Payload): (r: Result<Frame, FetchError>)
    ensures |p.compositeKeys| == 0 ==> r == Err(NoCompositeKeys)
    ensures |p.compositeKeys| > 0 && env.streamConfig(p.compositeKeys[0]).None? ==> r == Err(NoStreamConfig)
    ensures |p.compositeKeys| > 0 && env.streamConfig(p.compositeKeys[0]).Some? ==>
      var sc := env.streamConfig(p.compositeKeys[0]).value;
      && (sc.source.Prometheus? ==> r == FetchPrometheus(env, p))
      && (sc.source.Druid? ==> r == FetchDruid(env, sc, p))
      && (sc.source.Unsupported? ==> r == Ok(EmptyFrame))
  {
    if |p.compositeKeys| == 0 then Err(NoCompositeKeys)
    else match env.streamConfig(p.compositeKeys[0])
      case None => Err(NoStreamConfig)
      case Some(sc) =>
        match sc.source
        case Prometheus => FetchPrometheus(env, p)
        case Druid => FetchDruid(env, sc, p)
        case Unsupported(_) => Ok(EmptyFrame)
  }

  // ---------------------------------------------------------------------
  // Numeric stages
  // ---------------------------------------------------------------------

  /**
   * The numeric stages, each of which may raise (`None`): the component
   * factory, fitting the preprocessing pipeline to the data (giving the
   * scaled data and the fitted pipeline), training the model on the scaled
   * data (giving the reconstruction errors and the trained model), and
   * fitting the threshold to the reconstruction errors.
   */
  datatype Stages = Stages(
    instance: ModelInfo -> Option<Artifact>,
    fitTransform: (Artifact, Frame) -> Option<(nat, Artifact)>,
    train: (Artifact, nat, map<string, string>) -> Option<(nat, Artifact)>,
    fitThreshold: (Artifact, nat) -> Option<Artifact>)

  /** The pipeline's components, one per configuration entry in order; none if any cannot be built. */
  function Components(stages: Stages, cfgs: seq<ModelInfo>): (r: Option<seq<Artifact>>)
    ensures r.Some? <==> forall i :: 0 <= i < |cfgs| ==> stages.instance(cfgs[i]).Some?
    ensures r.Some? ==> |r.value| == |cfgs|
    ensures r.Some? ==> forall i :: 0 <= i < |cfgs| ==> r.value[i] == stages.instance(cfgs[i]).value
  {
    if |cfgs| == 0 then Some([])
    else
      match Components(stages, cfgs[..|cfgs| - 1])
      case None => None
      case Some(cs) =>
        match stages.instance(cfgs[|cfgs| - 1])
        case None => None
        case Some(c) => Some(cs + [c])
  }

  /** `_preprocess` as a value: the configured components chained in order and fitted to the data. */
  function PreprocessSpec(stages: Stages, data: Frame, cfgs: seq<ModelInfo>): Option<(nat, Artifact)>
  {
    match Components(stages, cfgs)
    case None => None
    case Some(cs) => stages.fitTransform(Pipeline(cs), data)
  }

  /** `_preprocess`: build each component in configuration order, then fit the chain. */
  method Preprocess(stages: Stages, data: Frame, cfgs: seq<ModelInfo>) returns (r: Option<(nat, Artifact)>)
    ensures r == PreprocessSpec(stages, data, cfgs)
    ensures r.Some? ==> forall i :: 0 <= i < |cfgs| ==> stages.instance(cfgs[i]).Some?
  {
    var clfs: seq<Artifact> := [];
    var i := 0;
    while i < |cfgs|
      invariant 0 <= i <= |cfgs|
      invariant Components(stages, cfgs[..i]) == Some(clfs)
    {
      var clf := stages.instance(cfgs[i]);
      if clf.None? {
        return None;
      }
      assert cfgs[..i + 1][..i] == cfgs[..i];
      clfs := clfs + [clf.value];
      i := i + 1;
    }
    assert cfgs[..i] == cfgs;
    r := stages.fitTransform(Pipeline(clfs), data);
  }

  /** What the three fitting stages produced. */
  datatype Trained = Trained(pipeline: Artifact, model: Artifact, threshold: Artifact)

  /** Preprocess, then train the model on the scaled data, then fit the threshold to its errors. */
  function Fit(stages: Stages, conf: NumalogicConf, df: Frame): (r: Option<Trained>)
    ensures r.Some? ==>
      && PreprocessSpec(stages, df, conf.preprocess).Some?
      && r.value.pipeline == PreprocessSpec(stages, df, conf.preprocess).value.1
    ensures r.Some? ==> stages.instance(conf.model).Some? && stages.instance(conf.threshold).Some?
    ensures var pre := PreprocessSpec(stages, df, conf.preprocess);
      var m := stages.instance(conf.model);
      var th := stages.instance(conf.threshold);
      r.Some? <==>
        && pre.Some? && m.Some? && th.Some?
        && stages.train(m.value, pre.value.0, conf.trainer).Some?
        && stages.fitThreshold(th.value, stages.train(m.value, pre.value.0, conf.trainer).value.0).Some?
    ensures r.Some? ==>
      var trained := stages.train(stages.instance(conf.model).value,
                                  PreprocessSpec(stages, df, conf.preprocess).value.0, conf.trainer).value;
      && r.value.model == trained.1
      && r.value.threshold == stages.fitThreshold(stages.instance(conf.threshold).value, trained.0).value
  {
    match PreprocessSpec(stages, df, conf.preprocess)
    case None => None
    case Some((xTrain, pipeline)) =>
      match stages.instance(conf.model)
      case None => None
      case Some(m) =>
        match stages.train(m, xTrain, conf.trainer)
        case None => None
        case Some((reconErr, model)) =>
          match stages.instance(conf.threshold)
          case None => None
          case Some(th) =>
            match stages.fitThreshold(th, reconErr)
            case None => None
            case Some(threshold) => Some(Trained(pipeline, model, threshold))
  }

  // ---------------------------------------------------------------------
  // Train and save
  // ---------------------------------------------------------------------

  /**
   * The three saves, all under the request's source keys: the model under
   * its name with the training-set size, the pipeline under the
   * preprocessing names in configuration order, the threshold under its name.
   */
  function SaveRequests(p: Payload, conf: NumalogicConf, trainSize: nat, t: Trained): (reqs: seq<SaveRequest>)
    ensures |reqs| == 3
    ensures forall i :: 0 <= i < |reqs| ==> reqs[i].skeys == SourceKeys(p) && reqs[i].uuid == p.uuid
    ensures (reqs[0].artifact, reqs[0].trainSize) == (t.model, Some(trainSize))
    ensures (reqs[1].artifact, reqs[1].trainSize) == (t.pipeline, None)
    ensures (reqs[2].artifact, reqs[2].trainSize) == (t.threshold, None)
  {
    [ SaveRequest(SourceKeys(p), [conf.model.name], t.model, p.uuid, Some(trainSize)),
      SaveRequest(SourceKeys(p), Names(conf.preprocess), t.pipeline, p.uuid, None),
      SaveRequest(SourceKeys(p), [conf.threshold.name], t.threshold, p.uuid, None) ]
  }

  /** What escapes `_train_and_save`: a stage that raised, or a save that raised other than a registry error. */
  datatype TrainError = StageFailed | SaveFailed

  /** `_train_and_save` on the registry's state: what it raises, if anything, and the registry afterwards. */
  function TrainAndSaveSpec(stages: Stages, respond: Responder, st: RegistryState,
                            conf: NumalogicConf, p: Payload, df: Frame): (r: (Option<TrainError>, RegistryState))
    ensures r.0 == Some(StageFailed) <==> Fit(stages, conf, df).None?
    ensures Fit(stages, conf, df).None? ==> r.1 == st
  {
    match Fit(stages, conf, df)
    case None => (Some(StageFailed), st)
    case Some(t) =>
      var (raised, st1) := SaveAll(respond, st, SaveRequests(p, conf, |df.rows|, t));
      (if raised then Some(SaveFailed) else None, st1)
  }

  /** `_train_and_save`: fit the stages, then attempt the three saves, each in its own handler. */
  method TrainAndSave(stages: Stages, conf: NumalogicConf, p: Payload, registry: Registry, df: Frame)
    returns (err: Option<TrainError>)
    modifies registry
    ensures (err, registry.State()) == TrainAndSaveSpec(stages, registry.respond, old(registry.State()), conf, p, df)
  {
    var pre := Preprocess(stages, df, conf.preprocess);
    if pre.None? {
      return Some(StageFailed);
    }
    var (xTrain, pipeline) := pre.value;
    var m := stages.instance(conf.model);
    if m.None? {
      return Some(StageFailed);
    }
    var trained := stages.train(m.value, xTrain, conf.trainer);
    if trained.None? {
      return Some(StageFailed);
    }
    var (reconErr, model) := trained.value;
    var th := stages.instance(conf.threshold);
    if th.None? {
      return Some(StageFailed);
    }
    var threshold := stages.fitThreshold(th.value, reconErr);
    if threshold.None? {
      return Some(StageFailed);
    }
    var t := Trained(pipeline, model, threshold.value);
    assert Fit(stages, conf, df) == Some(t);
    ghost var reqs := SaveRequests(p, conf, |df.rows|, t);
    ghost var st0 := registry.State();
    var skeys := SourceKeys(p);
    var o := registry.Save(SaveRequest(skeys, [conf.model.name], model, p.uuid, Some(|df.rows|)));
    if o.OtherError? {
      assert SaveAll(registry.respond, st0, reqs) == (true, registry.State());
      return Some(SaveFailed);
    }
    ghost var st1 := registry.State();
    assert SaveAll(registry.respond, st0, reqs) == SaveAll(registry.respond, st1, reqs[1..]);
    o := registry.Save(SaveRequest(skeys, Names(conf.preprocess), pipeline, p.uuid, None));
    if o.OtherError? {
      assert SaveAll(registry.respond, st1, reqs[1..]) == (true, registry.State());
      return Some(SaveFailed);
    }
    ghost var st2 := registry.State();
    assert reqs[1..][1..] == reqs[2..];
    assert SaveAll(registry.respond, st1, reqs[1..]) == SaveAll(registry.respond, st2, reqs[2..]);
    o := registry.Save(SaveRequest(skeys, [conf.threshold.name], threshold.value, p.uuid, None));
    if o.OtherError? {
      assert SaveAll(registry.respond, st2, reqs[2..]) == (true, registry.State());
      return Some(SaveFailed);
    }
    assert reqs[2..][1..] == [];
    assert SaveAll(registry.respond, st2, reqs[2..]) == (false, registry.State());
    return None;
  }

  /**
   * When the stages succeed and no save raises other than a registry error,
   * exactly the three saves are attempted, in order: model, pipeline,
   * threshold, all under the request's source keys, only the model with the
   * training-set size. When a stage raises, no save is attempted.
   */
  lemma TrainAndSaveAttempts(stages: Stages, respond: Responder, st: RegistryState,
                             conf: NumalogicConf, p: Payload, df: Frame)
    ensures var (err, st1) := TrainAndSaveSpec(stages, respond, st, conf, p, df);
      err != Some(SaveFailed) ==>
        (Fit(stages, conf, df).None? <==> st1.attempts == st.attempts)
    ensures var (err, st1) := TrainAndSaveSpec(stages, respond, st, conf, p, df);
      err.None? ==>
        && |st1.attempts| == |st.attempts| + 3
        && st1.attempts[..|st.attempts|] == st.attempts
        && (forall i :: |st.attempts| <= i < |st1.attempts| ==>
              st1.attempts[i].skeys == SourceKeys(p) && st1.attempts[i].uuid == p.uuid)
        && st1.attempts[|st.attempts|].dkeys == [conf.model.name]
        && st1.attempts[|st.attempts|].trainSize == Some(|df.rows|)
        && st1.attempts[|st.attempts| + 1].dkeys == Names(conf.preprocess)
        && st1.attempts[|st.attempts| + 1].trainSize.None?
        && st1.attempts[|st.attempts| + 2].dkeys == [conf.threshold.name]
        && st1.attempts[|st.attempts| + 2].trainSize.None?
  {
    match Fit(stages, conf, df)
    case None =>
    case Some(t) =>
      var reqs := SaveRequests(p, conf, |df.rows|, t);
      SaveAllAttemptsEach(respond, st, reqs);
      var st1 := SaveAll(respond, st, reqs).1;
      if !SaveAll(respond, st, reqs).0 {
        assert st1.attempts == st.attempts + reqs;
      }
  }

  /**
   * A registry error in one save does not keep the later saves from being
   * attempted: the sequence runs to the end exactly when no save raises
   * anything else, and when one does, the saves up to and including it are
   * the ones attempted.
   */
  lemma RegistryErrorsDoNotStopSaves(stages: Stages, respond: Responder, st: RegistryState,
                                     conf: NumalogicConf, p: Payload, df: Frame)
    requires Fit(stages, conf, df).Some?
    ensures var reqs := SaveRequests(p, conf, |df.rows|, Fit(stages, conf, df).value);
      TrainAndSaveSpec(stages, respond, st, conf, p, df).0.None?
      <==> forall i :: 0 <= i < 3 ==> !OutcomeAt(respond, st, reqs, i).OtherError?
    ensures var reqs := SaveRequests(p, conf, |df.rows|, Fit(stages, conf, df).value);
      var r := TrainAndSaveSpec(stages, respond, st, conf, p, df);
      r.0 == Some(SaveFailed) ==>
        exists k: nat :: FirstOtherError(respond, st, reqs, k) && r.1.attempts == st.attempts + reqs[..k + 1]
  {
    var reqs := SaveRequests(p, conf, |df.rows|, Fit(stages, conf, df).value);
    SaveAllAttemptsEach(respond, st, reqs);
  }

  /** Nothing is rolled back: each save that returned a version is still in the registry afterwards. */
  lemma TrainAndSaveNoRollback(stages: Stages, respond: Responder, st: RegistryState,
                               conf: NumalogicConf, p: Payload, df: Frame, i: nat)
    requires Fit(stages, conf, df).Some?
    requires var reqs := SaveRequests(p, conf, |df.rows|, Fit(stages, conf, df).value);
      i < |TrainAndSaveSpec(stages, respond, st, conf, p, df).1.attempts| - |st.attempts|
      && OutcomeAt(respond, st, reqs, i).Saved?
    ensures var reqs := SaveRequests(p, conf, |df.rows|, Fit(stages, conf, df).value);
      KeyOf(reqs[i]) in TrainAndSaveSpec(stages, respond, st, conf, p, df).1.stored
    ensures var reqs := SaveRequests(p, conf, |df.rows|, Fit(stages, conf, df).value);
      (forall j :: i < j < |reqs| ==> KeyOf(reqs[j]) != KeyOf(reqs[i])) ==>
        TrainAndSaveSpec(stages, respond, st, conf, p, df).1.stored[KeyOf(reqs[i])]
          == Stored(reqs[i].artifact, OutcomeAt(respond, st, reqs, i).version, p.uuid)
  {
    var reqs := SaveRequests(p, conf, |df.rows|, Fit(stages, conf, df).value);
    SavedStays(respond, st, reqs, i);
  }

  // ---------------------------------------------------------------------
  // The per-request loop
  // ---------------------------------------------------------------------

  /** An inbound message: its delivery id and its decoded request, `None` when it does not decode. */
  datatype Datum = Datum(id: string, payload: Option<Payload>)

  datatype Response = Response(id: string, success: bool)

  /** What escapes `run`, ending it without any responses. */
  datatype RunError = Undecodable | NoMetricConfig | TrainFailed(cause: TrainError)

  /** How one request was handled. */
  datatype Disposition =
    | Duplicate
    | FetchFailed(fetchError: FetchError)
    | TooSmall(rows: nat)
    | TrainedAndSaved
    | Raised(error: RunError)

  /** The marker store and the registry, the two things a request changes. */
  datatype World = World(markers: Store, registry: RegistryState)

  /** One iteration of `run`'s loop, on the store's clock `clock`. */
  function Step(env: Env, stages: Stages, respond: Responder, clock: int, w: World, d: Datum)
    : (r: (Disposition, World))
    ensures d.payload.None? ==> r == (Raised(Undecodable), w)
    ensures d.payload.Some? ==>
      && (r.0 == Duplicate <==> Truthy(Lookup(w.markers, clock, DedupKey(d.payload.value))))
      && Truthy(Lookup(r.1.markers, clock, DedupKey(d.payload.value)))
  {
    match d.payload
    case None => (Raised(Undecodable), w)
    case Some(p) =>
      var gate := Admit(w.markers, clock, DedupKey(p));
      var w1 := World(gate.1, w.registry);
      if !gate.0 then (Duplicate, w1)
      else if |p.compositeKeys| == 0 then (Raised(NoMetricConfig), w1)
      else match env.metricConfig(p.compositeKeys[0], p.metric)
        case None => (Raised(NoMetricConfig), w1)
        case Some(mc) =>
          match FetchData(env, p)
          case Err(e) => (FetchFailed(e), w1)
          case Ok(df) =>
            if |df.rows| < mc.minTrainSize then (TooSmall(|df.rows|), w1)
            else
              var trained := TrainAndSaveSpec(stages, respond, w.registry, mc.numalogic, p, df);
              (if trained.0.Some? then Raised(TrainFailed(trained.0.value)) else TrainedAndSaved, World(gate.1, trained.1))
  }

  /** `run` as a value: the dispositions of the requests handled, ending at the first that raises. */
  function RunSpec(env: Env, stages: Stages, respond: Responder, clock: int, w: World, datums: seq<Datum>)
    : (r: (seq<Disposition>, World))
    ensures |r.0| <= |datums|
    ensures forall i :: 0 <= i < |r.0| - 1 ==> !r.0[i].Raised?
    ensures |r.0| < |datums| ==> |r.0| > 0 && r.0[|r.0| - 1].Raised?
    decreases |datums|
  {
    if |datums| == 0 then ([], w)
    else
      var (d, w1) := Step(env, stages, respond, clock, w, datums[0]);
      if d.Raised? then ([d], w1)
      else
        var (ds, w2) := RunSpec(env, stages, respond, clock, w1, datums[1..]);
        ([d] + ds, w2)
  }

  lemma RunSpecCons(env: Env, stages: Stages, respond: Responder, clock: int, w: World,
                    datums: seq<Datum>, d: Disposition, w1: World)
    requires |datums| > 0 && (d, w1) == Step(env, stages, respond, clock, w, datums[0])
    ensures d.Raised? ==> RunSpec(env, stages, respond, clock, w, datums) == ([d], w1)
    ensures !d.Raised? ==> var rest := RunSpec(env, stages, respond, clock, w1, datums[1..]);
      RunSpec(env, stages, respond, clock, w, datums) == ([d] + rest.0, rest.1)
  {
  }

  /** The first disposition of a run is the first request's. */
  lemma RunSpecFirst(env: Env, stages: Stages, respond: Responder, clock: int, w: World, datums: seq<Datum>)
    requires 0 < |RunSpec(env, stages, respond, clock, w, datums).0|
    ensures RunSpec(env, stages, respond, clock, w, datums).0[0] == Step(env, stages, respond, clock, w, datums[0]).0
  {
  }

  /** A later disposition of a run is the run's from the second request on. */
  lemma RunSpecLater(env: Env, stages: Stages, respond: Responder, clock: int, w: World, datums: seq<Datum>, j: nat)
    requires 0 < j < |RunSpec(env, stages, respond, clock, w, datums).0|
    ensures var w1 := Step(env, stages, respond, clock, w, datums[0]).1;
      && j - 1 < |RunSpec(env, stages, respond, clock, w1, datums[1..]).0|
      && RunSpec(env, stages, respond, clock, w, datums).0[j] == RunSpec(env, stages, respond, clock, w1, datums[1..]).0[j - 1]
  {
    var (d, w1) := Step(env, stages, respond, clock, w, datums[0]);
    RunSpecCons(env, stages, respond, clock, w, datums, d, w1);
  }

  /** One success response per request, carrying its delivery id, in input order. */
  function Acks(datums: seq<Datum>): (r: seq<Response>)
    ensures |r| == |datums|
    ensures forall i :: 0 <= i < |datums| ==> r[i] == Response(datums[i].id, true)
  {
    if |datums| == 0 then [] else Acks(datums[..|datums| - 1]) + [Response(datums[|datums| - 1].id, true)]
  }

  predicate Completed(ds: seq<Disposition>)
  {
    forall i :: 0 <= i < |ds| ==> !ds[i].Raised?
  }

  /** What `run` returns: every request acknowledged, or the exception that ended it. */
  function Outcome(datums: seq<Datum>, ds: seq<Disposition>): Result<seq<Response>, RunError>
  {
    if |ds| > 0 && ds[|ds| - 1].Raised? then Err(ds[|ds| - 1].error) else Ok(Acks(datums))
  }

  lemma OutcomeRaised(datums: seq<Datum>, ds: seq<Disposition>, d: Disposition)
    requires d.Raised?
    ensures Outcome(datums, ds + [d]) == Err(d.error)
  {
    assert (ds + [d])[|ds|] == d;
  }

  lemma OutcomeCompleted(datums: seq<Datum>, ds: seq<Disposition>, responses: seq<Response>)
    requires Completed(ds)
    requires |responses| == |datums|
    requires forall k :: 0 <= k < |datums| ==> responses[k] == Response(datums[k].id, true)
    ensures Outcome(datums, ds) == Ok(responses)
  {
    assert responses == Acks(datums);
  }

  /** The body of `run`'s loop for one message. */
  method HandleDatum(env: Env, stages: Stages, store: MarkerStore, registry: Registry, d: Datum)
    returns (disp: Disposition)
    modifies store, registry
    ensures (disp, World(store.entries, registry.State()))
      == Step(env, stages, registry.respond, old(store.now), World(old(store.entries), old(registry.State())), d)
    ensures store.now == old(store.now)
  {
    if d.payload.None? {
      return Raised(Undecodable);
    }
    var p := d.payload.value;
    var isNew := IsNewRequest(store, p);
    if !isNew {
      return Duplicate;
    }
    if |p.compositeKeys| == 0 {
      return Raised(NoMetricConfig);
    }
    var mc := env.metricConfig(p.compositeKeys[0], p.metric);
    if mc.None? {
      return Raised(NoMetricConfig);
    }
    var fetched := FetchData(env, p);
    if fetched.Err? {
      return FetchFailed(fetched.error);
    }
    var df := fetched.value;
    if |df.rows| < mc.value.minTrainSize {
      return TooSmall(|df.rows|);
    }
    var err := TrainAndSave(stages, mc.value.numalogic, p, registry, df);
    if err.Some? {
      return Raised(TrainFailed(err.value));
    }
    return TrainedAndSaved;
  }

  /** `run`'s loop for any per-request step: the dispositions produced, ending at the first that raises. */
  ghost function RunWith(step: (World, Datum) -> (Disposition, World), w: World, datums: seq<Datum>)
    : (r: (seq<Disposition>, World))
    decreases |datums|
  {
    if |datums| == 0 then ([], w)
    else
      var (d, w1) := step(w, datums[0]);
      if d.Raised? then ([d], w1)
      else
        var (ds, w2) := RunWith(step, w1, datums[1..]);
        ([d] + ds, w2)
  }

  /** `step` agrees with `Step` on every world and message. */
  ghost predicate StepsAs(step: (World, Datum) -> (Disposition, World),
                          env: Env, stages: Stages, respond: Responder, clock: int)
  {
    forall w: World, d: Datum {:trigger Step(env, stages, respond, clock, w, d)} ::
      step(w, d) == Step(env, stages, respond, clock, w, d)
  }

  lemma StepsAsStep(env: Env, stages: Stages, respond: Responder, clock: int)
    ensures exists step :: StepsAs(step, env, stages, respond, clock)
  {
    var step := (w, d) => Step(env, stages, respond, clock, w, d);
    assert StepsAs(step, env, stages, respond, clock);
  }

  lemma {:induction false} RunWithIsRunSpec(step: (World, Datum) -> (Disposition, World),
                                            env: Env, stages: Stages, respond: Responder, clock: int,
                                            w: World, datums: seq<Datum>)
    requires StepsAs(step, env, stages, respond, clock)
    ensures RunWith(step, w, datums) == RunSpec(env, stages, respond, clock, w, datums)
    decreases |datums|
  {
    if |datums| > 0 {
      var (d, w1) := Step(env, stages, respond, clock, w, datums[0]);
      RunWithIsRunSpec(step, env, stages, respond, clock, w1, datums[1..]);
    }
  }

  /** `run` after `ds` has been produced from the world `w0` and the world is now `w`, with `datums[i..]` to go. */
  ghost predicate RunSoFar(step: (World, Datum) -> (Disposition, World), w0: World,
                           datums: seq<Datum>, i: nat, ds: seq<Disposition>, w: World)
    requires i <= |datums|
  {
    var rest := RunWith(step, w, datums[i..]);
    RunWith(step, w0, datums) == (ds + rest.0, rest.1)
  }

  lemma RunStart(step: (World, Datum) -> (Disposition, World), w0: World, datums: seq<Datum>)
    ensures RunSoFar(step, w0, datums, 0, [], w0)
  {
    assert datums[0..] == datums;
    var run := RunWith(step, w0, datums);
    assert [] + run.0 == run.0;
  }

  /** A request that does not raise moves the loop on by one. */
  lemma RunAdvance(step: (World, Datum) -> (Disposition, World), w0: World,
                   datums: seq<Datum>, i: nat, ds: seq<Disposition>, w: World, d: Disposition, w1: World)
    requires i < |datums| && RunSoFar(step, w0, datums, i, ds, w)
    requires (d, w1) == step(w, datums[i]) && !d.Raised?
    ensures RunSoFar(step, w0, datums, i + 1, ds + [d], w1)
  {
    var todo := datums[i..];
    assert todo[0] == datums[i] && todo[1..] == datums[i + 1..];
    var tail := RunWith(step, w1, datums[i + 1..]);
    assert ds + ([d] + tail.0) == (ds + [d]) + tail.0;
  }

  /** A request that raises ends the run there. */
  lemma RunStop(step: (World, Datum) -> (Disposition, World), w0: World,
                datums: seq<Datum>, i: nat, ds: seq<Disposition>, w: World, d: Disposition, w1: World)
    requires i < |datums| && RunSoFar(step, w0, datums, i, ds, w)
    requires (d, w1) == step(w, datums[i]) && d.Raised?
    ensures RunWith(step, w0, datums) == (ds + [d], w1)
  {
    var todo := datums[i..];
    assert todo[0] == datums[i];
  }

  /** With every request handled, the run is what was produced. */
  lemma RunEnd(step: (World, Datum) -> (Disposition, World), w0: World,
               datums: seq<Datum>, ds: seq<Disposition>, w: World)
    requires RunSoFar(step, w0, datums, |datums|, ds, w)
    ensures RunWith(step, w0, datums) == (ds, w)
  {
    assert datums[|datums|..] == [];
    assert ds + [] == ds;
  }

  /**
   * One pass of `run`'s loop: handle `datums[i]` and account for it in the
   * run so far, or end the run there when it raises.
   */
  method RunStep(env: Env, stages: Stages, store: MarkerStore, registry: Registry, datums: seq<Datum>, i: nat,
                 ghost step: (World, Datum) -> (Disposition, World), ghost w0: World, ghost ds: seq<Disposition>)
    returns (disp: Disposition)
    requires i < |datums| && StepsAs(step, env, stages, registry.respond, store.now)
    requires RunSoFar(step, w0, datums, i, ds, World(store.entries, registry.State()))
    modifies store, registry
    ensures store.now == old(store.now)
    ensures !disp.Raised? ==> RunSoFar(step, w0, datums, i + 1, ds + [disp], World(store.entries, registry.State()))
    ensures disp.Raised? ==> RunWith(step, w0, datums) == (ds + [disp], World(store.entries, registry.State()))
  {
    ghost var w := World(store.entries, registry.State());
    disp := HandleDatum(env, stages, store, registry, datums[i]);
    ghost var w1 := World(store.entries, registry.State());
    if disp.Raised? {
      RunStop(step, w0, datums, i, ds, w, disp, w1);
    } else {
      RunAdvance(step, w0, datums, i, ds, w, disp, w1);
    }
  }

  /** `run`'s loop, against any `step` that agrees with `Step`. */
  method RunLoop(env: Env, stages: Stages, store: MarkerStore, registry: Registry, datums: seq<Datum>,
                 ghost step: (World, Datum) -> (Disposition, World))
    returns (r: Result<seq<Response>, RunError>)
    requires StepsAs(step, env, stages, registry.respond, store.now)
    modifies store, registry
    ensures var run := RunWith(step, World(old(store.entries), old(registry.State())), datums);
      && r == Outcome(datums, run.0)
      && store.entries == run.1.markers && registry.State() == run.1.registry
    ensures store.now == old(store.now)
  {
    ghost var w0 := World(store.entries, registry.State());
    ghost var ds: seq<Disposition> := [];
    var responses: seq<Response> := [];
    var i := 0;
    RunStart(step, w0, datums);
    while i < |datums|
      invariant 0 <= i <= |datums| && store.now == old(store.now)
      invariant |ds| == i && Completed(ds)
      invariant |responses| == i
      invariant forall k :: 0 <= k < i ==> responses[k] == Response(datums[k].id, true)
      invariant RunSoFar(step, w0, datums, i, ds, World(store.entries, registry.State()))
    {
      var disp := RunStep(env, stages, store, registry, datums, i, step, w0, ds);
      if disp.Raised? {
        OutcomeRaised(datums, ds, disp);
        return Err(disp.error);
      }
      responses := responses + [Response(datums[i].id, true)];
      ds := ds + [disp];
      i := i + 1;
    }
    RunEnd(step, w0, datums, ds, World(store.entries, registry.State()));
    OutcomeCompleted(datums, ds, responses);
    return Ok(responses);
  }

  /** `run`: handle each message in order, appending a success response for each one handled. */
  method Run(env: Env, stages: Stages, store: MarkerStore, registry: Registry, datums: seq<Datum>)
    returns (r: Result<seq<Response>, RunError>)
    modifies store, registry
    ensures var run := RunSpec(env, stages, registry.respond, old(store.now),
                               World(old(store.entries), old(registry.State())), datums);
      && r == Outcome(datums, run.0)
      && store.entries == run.1.markers && registry.State() == run.1.registry
    ensures store.now == old(store.now)
  {
    ghost var clock := store.now;
    StepsAsStep(env, stages, registry.respond, clock);
    ghost var step :| StepsAs(step, env, stages, registry.respond, clock);
    ghost var w0 := World(store.entries, registry.State());
    RunWithIsRunSpec(step, env, stages, registry.respond, clock, w0, datums);
    r := RunLoop(env, stages, store, registry, datums, step);
  }

  // ---------------------------------------------------------------------
  // Properties of the loop
  // ---------------------------------------------------------------------

  /** A completed run acknowledges every request once, in input order, with its own id. */
  lemma RunAcknowledgesEach(env: Env, stages: Stages, respond: Responder, clock: int, w: World, datums: seq<Datum>)
    ensures var ds := RunSpec(env, stages, respond, clock, w, datums).0;
      Outcome(datums, ds).Ok? <==> Completed(ds) && |ds| == |datums|
    ensures var ds := RunSpec(env, stages, respond, clock, w, datums).0;
      Outcome(datums, ds).Ok? ==>
        |Outcome(datums, ds).value| == |datums|
        && forall i :: 0 <= i < |datums| ==> Outcome(datums, ds).value[i] == Response(datums[i].id, true)
  {
  }

  /**
   * Training and saving happen exactly for a decoded request that the gate
   * admits, whose metric configuration exists, whose fetch did not raise and
   * whose frame has at least the minimum number of rows; on every other
   * path the registry is not touched.
   */
  lemma TrainingGate(env: Env, stages: Stages, respond: Responder, clock: int, w: World, d: Datum)
    ensures var disp := Step(env, stages, respond, clock, w, d).0;
      (disp.TrainedAndSaved? || (disp.Raised? && disp.error.TrainFailed?))
      <==>
      (d.payload.Some?
        && var p := d.payload.value;
        && Admit(w.markers, clock, DedupKey(p)).0
        && |p.compositeKeys| > 0
        && env.metricConfig(p.compositeKeys[0], p.metric).Some?
        && FetchData(env, p).Ok?
        && |FetchData(env, p).value.rows| >= env.metricConfig(p.compositeKeys[0], p.metric).value.minTrainSize)
    ensures var (disp, w1) := Step(env, stages, respond, clock, w, d);
      !(disp.TrainedAndSaved? || (disp.Raised? && disp.error.TrainFailed?)) ==> w1.registry == w.registry
  {
  }

  /**
   * The marker is written before the fetch: once a decoded request has
   * been handled its key is marked, and an admitted request's marker lives
   * for the full window whatever happened after the gate (a fetch that
   * raised, too few rows, a failed training). Other keys are untouched.
   */
  lemma StepMarks(env: Env, stages: Stages, respond: Responder, clock: int, w: World, d: Datum)
    requires d.payload.Some?
    ensures var (disp, w1) := Step(env, stages, respond, clock, w, d);
      var key := DedupKey(d.payload.value);
      && Truthy(Lookup(w1.markers, clock, key))
      && (!disp.Duplicate? ==> w1.markers[key] == Entry(Marker, clock + RequestExpiry))
      && (forall t, k :: k != key ==> Lookup(w1.markers, t, k) == Lookup(w.markers, t, k))
  {
    var key := DedupKey(d.payload.value);
    var (disp, w1) := Step(env, stages, respond, clock, w, d);
    assert w1.markers == Admit(w.markers, clock, key).1;
  }

  /** A live marker survives any request handled on the same clock. */
  lemma StepKeepsMarker(env: Env, stages: Stages, respond: Responder, clock: int, w: World, d: Datum, key: string)
    requires Truthy(Lookup(w.markers, clock, key))
    ensures Truthy(Lookup(Step(env, stages, respond, clock, w, d).1.markers, clock, key))
  {
    if d.payload.Some? {
      StepMarks(env, stages, respond, clock, w, d);
    }
  }

  /** While a key is marked, every later request on it in the same run is a duplicate. */
  lemma {:induction false} MarkedKeyIsDuplicate(env: Env, stages: Stages, respond: Responder, clock: int,
                                                w: World, datums: seq<Datum>, key: string, j: nat)
    requires Truthy(Lookup(w.markers, clock, key))
    requires j < |RunSpec(env, stages, respond, clock, w, datums).0|
    requires datums[j].payload.Some? && DedupKey(datums[j].payload.value) == key
    ensures RunSpec(env, stages, respond, clock, w, datums).0[j] == Duplicate
    decreases j
  {
    if j == 0 {
      RunSpecFirst(env, stages, respond, clock, w, datums);
      assert !Admit(w.markers, clock, key).0;
    } else {
      var w1 := Step(env, stages, respond, clock, w, datums[0]).1;
      RunSpecLater(env, stages, respond, clock, w, datums, j);
      StepKeepsMarker(env, stages, respond, clock, w, datums[0], key);
      assert datums[1..][j - 1] == datums[j];
      MarkedKeyIsDuplicate(env, stages, respond, clock, w1, datums[1..], key, j - 1);
    }
  }

  /**
   * Within one run, a request with the same key as an earlier one is a
   * duplicate: acknowledged without a fetch or a save, whatever became of
   * the earlier one.
   */
  lemma {:induction false} RepeatedRequestIsDuplicate(env: Env, stages: Stages, respond: Responder, clock: int,
                                                      w: World, datums: seq<Datum>, i: nat, j: nat)
    requires i < j < |RunSpec(env, stages, respond, clock, w, datums).0|
    requires datums[i].payload.Some? && datums[j].payload.Some?
    requires DedupKey(datums[i].payload.value) == DedupKey(datums[j].payload.value)
    ensures RunSpec(env, stages, respond, clock, w, datums).0[j] == Duplicate
    decreases i
  {
    var w1 := Step(env, stages, respond, clock, w, datums[0]).1;
    RunSpecLater(env, stages, respond, clock, w, datums, j);
    assert datums[1..][j - 1] == datums[j];
    if i == 0 {
      MarkedKeyIsDuplicate(env, stages, respond, clock, w1, datums[1..], DedupKey(datums[0].payload.value), j - 1);
    } else {
      RunSpecLater(env, stages, respond, clock, w, datums, i);
      assert datums[1..][i - 1] == datums[i];
      RepeatedRequestIsDuplicate(env, stages, respond, clock, w1, datums[1..], i - 1, j - 1);
    }
  }

  /**
   * The same request delivered twice in one batch: both are acknowledged,
   * the second as a duplicate, and the second leaves the registry as the
   * first left it.
   */
  lemma SameRequestTwice(env: Env, stages: Stages, respond: Responder, clock: int, w: World, d1: Datum, d2: Datum)
    requires d1.payload.Some? && d2.payload == d1.payload
    requires !Step(env, stages, respond, clock, w, d1).0.Raised?
    ensures var run := RunSpec(env, stages, respond, clock, w, [d1, d2]);
      && run.0[1] == Duplicate
      && run.1.registry == Step(env, stages, respond, clock, w, d1).1.registry
      && Outcome([d1, d2], run.0) == Ok([Response(d1.id, true), Response(d2.id, true)])
  {
    var (disp, w1) := Step(env, stages, respond, clock, w, d1);
    StepMarks(env, stages, respond, clock, w, d1);
    var key := DedupKey(d1.payload.value);
    assert !Admit(w1.markers, clock, key).0;
    assert Step(env, stages, respond, clock, w1, d2) == (Duplicate, w1);
    assert [d1, d2][1..] == [d2];
    assert [d2][1..] == [];
    RunSpecCons(env, stages, respond, clock, w, [d1, d2], disp, w1);
    RunSpecCons(env, stages, respond, clock, w1, [d2], Duplicate, w1);
    assert RunSpec(env, stages, respond, clock, w1, [d2][1..]) == ([], w1);
    assert [Duplicate] + [] == [Duplicate];
    assert RunSpec(env, stages, respond, clock, w1, [d2]) == ([Duplicate], w1);
    assert [disp] + [Duplicate] == [disp, Duplicate];
    var run := RunSpec(env, stages, respond, clock, w, [d1, d2]);
    assert run == ([disp, Duplicate], w1);
    assert Acks([d1, d2]) == [Response(d1.id, true), Response(d2.id, true)];
  }
}
