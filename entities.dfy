/**
 * The trainer's request and configuration records, and the artifacts the
 * numeric stages produce, reduced to their identities.
 */
module Entities {

  /** A decoded training request: correlation id, composite identity, metric. */
  datatype Payload = Payload(uuid: string, compositeKeys: seq<string>, metric: string)

  /** `composite_keys + [metric]`: the keys under which every artifact of a request is saved. */
  function SourceKeys(p: Payload): (keys: seq<string>)
    ensures |keys| == |p.compositeKeys| + 1
    ensures keys[..|p.compositeKeys|] == p.compositeKeys && keys[|p.compositeKeys|] == p.metric
  {
    p.compositeKeys + [p.metric]
  }

  /** A component named in the configuration, with its settings. */
  datatype ModelInfo = ModelInfo(name: string, conf: map<string, string>)

  /** The names of a list of components, in configuration order. */
  function Names(cfgs: seq<ModelInfo>): (names: seq<string>)
    ensures |names| == |cfgs|
    ensures forall i :: 0 <= i < |cfgs| ==> names[i] == cfgs[i].name
  {
    seq(|cfgs|, i requires 0 <= i < |cfgs| => cfgs[i].name)
  }

  /** The training recipe: model, preprocessing chain, threshold and trainer settings. */
  datatype NumalogicConf = NumalogicConf(
    model: ModelInfo,
    preprocess: seq<ModelInfo>,
    threshold: ModelInfo,
    trainer: map<string, string>)

  /** What the numeric stages produce. The numbers themselves are not modelled. */
  datatype Artifact =
    | Component(info: ModelInfo)
    | Pipeline(steps: seq<Artifact>)
}
