/**
 * The model registry as the trainer sees it: a store of artifacts keyed by
 * source and destination keys, whose every save may return a version, fail
 * with a registry error, or fail some other way.
 */
module ModelRegistry {
  import opened Wrappers
  import opened Entities

  /** The arguments of one `save` call. */
  datatype SaveRequest = SaveRequest(
    skeys: seq<string>,
    dkeys: seq<string>,
    artifact: Artifact,
    uuid: string,
    trainSize: Option<nat>)

  /** A save either returns a version, raises `RedisRegistryError`, or raises anything else. */
  datatype SaveOutcome = Saved(version: nat) | RegistryError | OtherError

  /** The latest artifact saved under one key pair. */
  datatype Stored = Stored(artifact: Artifact, version: nat, uuid: string)

  type Key = (seq<string>, seq<string>)

  /** The registry's behaviour: the outcome of the `n`-th save, given its request. */
  type Responder = (SaveRequest, nat) -> SaveOutcome

  datatype RegistryState = RegistryState(attempts: seq<SaveRequest>, stored: map<Key, Stored>)

  function KeyOf(req: SaveRequest): Key
  {
    (req.skeys, req.dkeys)
  }

  /** One save: logged as an attempt; stored under its keys only when it returns a version. */
  function SaveStep(respond: Responder, st: RegistryState, req: SaveRequest): (r: (SaveOutcome, RegistryState))
    ensures r.0 == respond(req, |st.attempts|)
    ensures r.1.attempts == st.attempts + [req]
    ensures r.0.Saved? ==> r.1.stored == st.stored[KeyOf(req) := Stored(req.artifact, r.0.version, req.uuid)]
    ensures !r.0.Saved? ==> r.1.stored == st.stored
  {
    var o := respond(req, |st.attempts|);
    var stored := if o.Saved? then st.stored[KeyOf(req) := Stored(req.artifact, o.version, req.uuid)] else st.stored;
    (o, RegistryState(st.attempts + [req], stored))
  }

  class Registry {
    var attempts: seq<SaveRequest>
    var stored: map<Key, Stored>
    const respond: Responder

    constructor(respond: Responder)
      ensures attempts == [] && stored == map[] && this.respond == respond
    {
      attempts := [];
      stored := map[];
      this.respond := respond;
    }

    function State(): RegistryState
      reads this
    {
      RegistryState(attempts, stored)
    }

    method Save(req: SaveRequest) returns (outcome: SaveOutcome)
      modifies this
      ensures (outcome, State()) == SaveStep(respond, old(State()), req)
    {
      outcome := respond(req, |attempts|);
      if outcome.Saved? {
        stored := stored[KeyOf(req) := Stored(req.artifact, outcome.version, req.uuid)];
      }
      attempts := attempts + [req];
    }
  }

  /** Outcome of the `i`-th of `reqs` when the registry has already seen `st`. */
  function OutcomeAt(respond: Responder, st: RegistryState, reqs: seq<SaveRequest>, i: nat): SaveOutcome
    requires i < |reqs|
  {
    respond(reqs[i], |st.attempts| + i)
  }

  /**
   * Saves in order, each in its own handler: a registry error is swallowed
   * and the next save follows; any other failure ends the sequence and is
   * raised (the `true` in the result).
   */
  function SaveAll(respond: Responder, st: RegistryState, reqs: seq<SaveRequest>): (r: (bool, RegistryState))
    ensures |st.attempts| <= |r.1.attempts| <= |st.attempts| + |reqs|
    ensures r.1.attempts == st.attempts + reqs[..|r.1.attempts| - |st.attempts|]
    ensures !r.0 ==> |r.1.attempts| == |st.attempts| + |reqs|
    ensures forall k :: k in st.stored ==> k in r.1.stored
    decreases |reqs|
  {
    if |reqs| == 0 then (false, st)
    else
      var (o, st1) := SaveStep(respond, st, reqs[0]);
      if o.OtherError? then
        assert st1.attempts == st.attempts + reqs[..1];
        (true, st1)
      else
        var r := SaveAll(respond, st1, reqs[1..]);
        assert reqs[..|r.1.attempts| - |st.attempts|] == [reqs[0]] + reqs[1..][..|r.1.attempts| - |st1.attempts|];
        r
  }

  /** `k` is the first of `reqs` to fail with anything but a registry error. */
  predicate FirstOtherError(respond: Responder, st: RegistryState, reqs: seq<SaveRequest>, k: nat)
  {
    && k < |reqs|
    && OutcomeAt(respond, st, reqs, k).OtherError?
    && forall j :: 0 <= j < k ==> !OutcomeAt(respond, st, reqs, j).OtherError?
  }

  /**
   * When the sequence raises, the saves attempted are exactly those up to
   * and including the first that failed with anything but a registry error.
   */
  lemma {:induction false} SaveAllStopsAtOtherError(respond: Responder, st: RegistryState, reqs: seq<SaveRequest>)
    ensures var r := SaveAll(respond, st, reqs);
      r.0 ==> exists k: nat :: FirstOtherError(respond, st, reqs, k) && r.1.attempts == st.attempts + reqs[..k + 1]
    decreases |reqs|
  {
    if |reqs| > 0 {
      var (o, st1) := SaveStep(respond, st, reqs[0]);
      assert o == OutcomeAt(respond, st, reqs, 0);
      if o.OtherError? {
        assert FirstOtherError(respond, st, reqs, 0);
      } else {
        var r := SaveAll(respond, st1, reqs[1..]);
        assert SaveAll(respond, st, reqs) == r;
        SaveAllStopsAtOtherError(respond, st1, reqs[1..]);
        if r.0 {
          var k: nat :| FirstOtherError(respond, st1, reqs[1..], k) && r.1.attempts == st1.attempts + reqs[1..][..k + 1];
          forall j | 0 < j < k + 1
            ensures !OutcomeAt(respond, st, reqs, j).OtherError?
          {
            assert OutcomeAt(respond, st, reqs, j) == OutcomeAt(respond, st1, reqs[1..], j - 1);
          }
          assert OutcomeAt(respond, st, reqs, k + 1) == OutcomeAt(respond, st1, reqs[1..], k);
          assert reqs[..k + 2] == [reqs[0]] + reqs[1..][..k + 1];
          assert FirstOtherError(respond, st, reqs, k + 1);
        }
      }
    }
  }

  /**
   * Every save is attempted, in order, exactly when none of them fails with
   * anything but a registry error; registry errors never stop the sequence.
   * When it raises, the saves attempted are exactly those up to and
   * including the first that failed some other way.
   */
  lemma {:induction false} SaveAllAttemptsEach(respond: Responder, st: RegistryState, reqs: seq<SaveRequest>)
    ensures var r := SaveAll(respond, st, reqs);
      !r.0 <==> forall i :: 0 <= i < |reqs| ==> !OutcomeAt(respond, st, reqs, i).OtherError?
    ensures var r := SaveAll(respond, st, reqs);
      !r.0 ==> r.1.attempts == st.attempts + reqs
    ensures var r := SaveAll(respond, st, reqs);
      r.0 ==> exists k: nat :: FirstOtherError(respond, st, reqs, k) && r.1.attempts == st.attempts + reqs[..k + 1]
    decreases |reqs|
  {
    SaveAllStopsAtOtherError(respond, st, reqs);
    if |reqs| > 0 {
      var (o, st1) := SaveStep(respond, st, reqs[0]);
      assert o == OutcomeAt(respond, st, reqs, 0);
      if !o.OtherError? {
        forall i | 0 <= i < |reqs[1..]|
          ensures OutcomeAt(respond, st1, reqs[1..], i) == OutcomeAt(respond, st, reqs, i + 1)
        {
        }
        SaveAllAttemptsEach(respond, st1, reqs[1..]);
        if exists i :: 0 <= i < |reqs| && OutcomeAt(respond, st, reqs, i).OtherError? {
          var i :| 0 <= i < |reqs| && OutcomeAt(respond, st, reqs, i).OtherError?;
          assert OutcomeAt(respond, st1, reqs[1..], i - 1).OtherError?;
        }
      }
    }
  }

  /** A key that none of the saves names keeps its entry. */
  lemma {:induction false} SaveAllKeepsOtherKeys(respond: Responder, st: RegistryState, reqs: seq<SaveRequest>, k: Key)
    requires k in st.stored
    requires forall j :: 0 <= j < |reqs| ==> KeyOf(reqs[j]) != k
    ensures SaveAll(respond, st, reqs).1.stored[k] == st.stored[k]
    decreases |reqs|
  {
    if |reqs| > 0 {
      var (o, st1) := SaveStep(respond, st, reqs[0]);
      if !o.OtherError? {
        forall j | 0 <= j < |reqs[1..]|
          ensures KeyOf(reqs[1..][j]) != k
        {
          assert reqs[1..][j] == reqs[j + 1];
        }
        SaveAllKeepsOtherKeys(respond, st1, reqs[1..], k);
      }
    }
  }

  /**
   * Nothing is rolled back: every save that returned a version leaves an
   * artifact under its keys, whatever the later saves do; when no later save
   * names the same keys, it is exactly the artifact, version and uuid saved.
   */
  lemma {:induction false} SavedStays(respond: Responder, st: RegistryState, reqs: seq<SaveRequest>, i: nat)
    requires i < |SaveAll(respond, st, reqs).1.attempts| - |st.attempts|
    requires OutcomeAt(respond, st, reqs, i).Saved?
    ensures KeyOf(reqs[i]) in SaveAll(respond, st, reqs).1.stored
    ensures (forall j :: i < j < |reqs| ==> KeyOf(reqs[j]) != KeyOf(reqs[i])) ==>
      SaveAll(respond, st, reqs).1.stored[KeyOf(reqs[i])]
        == Stored(reqs[i].artifact, OutcomeAt(respond, st, reqs, i).version, reqs[i].uuid)
    decreases |reqs|
  {
    var (o, st1) := SaveStep(respond, st, reqs[0]);
    if i == 0 {
      assert KeyOf(reqs[0]) in st1.stored;
      if forall j :: 0 < j < |reqs| ==> KeyOf(reqs[j]) != KeyOf(reqs[0]) {
        forall j | 0 <= j < |reqs[1..]|
          ensures KeyOf(reqs[1..][j]) != KeyOf(reqs[0])
        {
          assert reqs[1..][j] == reqs[j + 1];
        }
        SaveAllKeepsOtherKeys(respond, st1, reqs[1..], KeyOf(reqs[0]));
      }
    } else {
      assert OutcomeAt(respond, st1, reqs[1..], i - 1) == OutcomeAt(respond, st, reqs, i);
      assert reqs[1..][i - 1] == reqs[i];
      if forall j :: i < j < |reqs| ==> KeyOf(reqs[j]) != KeyOf(reqs[i]) {
        forall j | i - 1 < j < |reqs[1..]|
          ensures KeyOf(reqs[1..][j]) != KeyOf(reqs[1..][i - 1])
        {
          assert reqs[1..][j] == reqs[j + 1];
        }
      }
      SavedStays(respond, st1, reqs[1..], i - 1);
    }
  }
}
