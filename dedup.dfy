/**
 * The trainer's dedup gate: a marker per request key in a store whose
 * entries expire, checked and then set by two separate store calls.
 */
module Dedup {
  import opened Wrappers
  import opened Entities
  import Strings

  /** Seconds a marker lives (`REQUEST_EXPIRY`, default 300). */
  const RequestExpiry: nat := 300

  const KeyPrefix: string := "train::"

  /** The value written with the marker. */
  const Marker: string := "1"

  /** A stored value and the instant from which the store no longer returns it. */
  datatype Entry = Entry(value: string, expiresAt: int)

  type Store = map<string, Entry>

  /** `train::` followed by the source keys joined with `:`. */
  function DedupKey(p: Payload): (key: string)
    ensures |key| >= |KeyPrefix| && key[..|KeyPrefix|] == KeyPrefix
  {
    KeyPrefix + Strings.Join(SourceKeys(p), ':')
  }

  predicate ColonFree(p: Payload)
  {
    forall i :: 0 <= i < |SourceKeys(p)| ==> ':' !in SourceKeys(p)[i]
  }

  /** The key names its request: stripping the prefix and splitting at `:` gives the source keys back. */
  lemma DedupKeyDecodes(p: Payload)
    requires ColonFree(p)
    ensures Strings.Split(DedupKey(p)[|KeyPrefix|..], ':') == SourceKeys(p)
  {
    assert DedupKey(p)[|KeyPrefix|..] == Strings.Join(SourceKeys(p), ':');
    Strings.SplitJoin(SourceKeys(p), ':');
  }

  /** Requests whose keys hold no `:` share a marker exactly when they share source keys. */
  lemma DedupKeyInjective(p: Payload, q: Payload)
    requires ColonFree(p) && ColonFree(q)
    ensures DedupKey(p) == DedupKey(q) <==> SourceKeys(p) == SourceKeys(q)
  {
    if DedupKey(p) == DedupKey(q) {
      DedupKeyDecodes(p);
      DedupKeyDecodes(q);
    }
  }

  /** With a `:` inside a key, two different identities share one marker. */
  lemma DedupKeyCollision()
    ensures var p := Payload("1", ["app:x"], "cpu");
      var q := Payload("2", ["app", "x"], "cpu");
      SourceKeys(p) != SourceKeys(q) && DedupKey(p) == DedupKey(q)
  {
    var p := Payload("1", ["app:x"], "cpu");
    var q := Payload("2", ["app", "x"], "cpu");
    assert SourceKeys(p)[0] != SourceKeys(q)[0];
    assert Strings.Join(SourceKeys(q), ':') == "app" + [':'] + Strings.Join(["x", "cpu"], ':');
  }

  /** What the store returns for `key` at time `now`: nothing once the entry has expired. */
  function Lookup(s: Store, now: int, key: string): (v: Option<string>)
    ensures v.Some? <==> key in s && now < s[key].expiresAt
    ensures v.Some? ==> v.value == s[key].value
  {
    if key in s && now < s[key].expiresAt then Some(s[key].value) else None
  }

  /** Python truthiness of a `get` result: present and not empty. */
  predicate Truthy(v: Option<string>)
  {
    v.Some? && v.value != ""
  }

  /**
   * The gate as one step on the store: a live truthy marker rejects and
   * changes nothing; otherwise the marker is set to expire after the window.
   */
  function Admit(s: Store, now: int, key: string): (r: (bool, Store))
    ensures r.0 <==> !Truthy(Lookup(s, now, key))
    ensures !r.0 ==> r.1 == s
    ensures Truthy(Lookup(r.1, now, key))
    ensures r.0 ==> r.1[key].expiresAt == now + RequestExpiry
    ensures forall t, k :: k != key ==> Lookup(r.1, t, k) == Lookup(s, t, k)
  {
    if Truthy(Lookup(s, now, key)) then (false, s)
    else (true, s[key := Entry(Marker, now + RequestExpiry)])
  }

  /** The shared key/value store with expiry, seen from one process. */
  class MarkerStore {
    var entries: Store
    var now: int

    constructor(clock: int)
      ensures entries == map[] && now == clock
    {
      entries := map[];
      now := clock;
    }

    method Get(key: string) returns (v: Option<string>)
      ensures v == Lookup(entries, now, key)
    {
      v := Lookup(entries, now, key);
    }

    /** `setex`: store `value` under `key` for `ttl` seconds. */
    method SetEx(key: string, ttl: nat, value: string)
      modifies this
      ensures entries == old(entries)[key := Entry(value, now + ttl)]
      ensures now == old(now)
    {
      entries := entries[key := Entry(value, now + ttl)];
    }
  }

  /** `_is_new_request`: read the marker, and set it only when none is live. */
  method IsNewRequest(store: MarkerStore, p: Payload) returns (isNew: bool)
    modifies store
    ensures (isNew, store.entries) == Admit(old(store.entries), old(store.now), DedupKey(p))
    ensures store.now == old(store.now)
  {
    var key := DedupKey(p);
    var value := store.Get(key);
    if Truthy(value) {
      return false;
    }
    store.SetEx(key, RequestExpiry, Marker);
    return true;
  }

  /** Once admitted, the same key is rejected until the window ends, and admitted again after it. */
  lemma AdmitWindow(s: Store, now: int, key: string, t: int)
    requires Admit(s, now, key).0 && now <= t
    ensures var s1 := Admit(s, now, key).1;
      Admit(s1, t, key).0 <==> t >= now + RequestExpiry
  {
    var s1 := Admit(s, now, key).1;
    assert s1[key] == Entry(Marker, now + RequestExpiry);
  }

  /** Gate decisions for requests on one key at the given instants, in order. */
  function AdmitSeq(s: Store, times: seq<int>, key: string): (r: (seq<bool>, Store))
    ensures |r.0| == |times|
    decreases |times|
  {
    if |times| == 0 then ([], s)
    else
      var (a, s1) := Admit(s, times[0], key);
      var (rest, s2) := AdmitSeq(s1, times[1..], key);
      ([a] + rest, s2)
  }

  /** While a truthy marker is live, every request is rejected and the store is left alone. */
  lemma {:induction false} RejectedWhileMarked(s: Store, times: seq<int>, key: string)
    requires key in s && s[key].value != ""
    requires forall i :: 0 <= i < |times| ==> times[i] < s[key].expiresAt
    ensures AdmitSeq(s, times, key).1 == s
    ensures forall i :: 0 <= i < |times| ==> !AdmitSeq(s, times, key).0[i]
  {
    if |times| > 0 {
      assert !Admit(s, times[0], key).0;
      forall i | 0 <= i < |times[1..]| ensures times[1..][i] < s[key].expiresAt {
        assert times[1..][i] == times[i + 1];
      }
      RejectedWhileMarked(s, times[1..], key);
    }
  }

  /**
   * Of the requests on one key within one window, starting with no live
   * marker, exactly the first is admitted, and its marker's expiry is not
   * extended by the others.
   */
  lemma OneAdmittedPerWindow(s: Store, times: seq<int>, key: string)
    requires |times| > 0 && !Truthy(Lookup(s, times[0], key))
    requires forall i :: 0 <= i < |times| ==> times[0] <= times[i] < times[0] + RequestExpiry
    ensures AdmitSeq(s, times, key).0[0]
    ensures forall i :: 1 <= i < |times| ==> !AdmitSeq(s, times, key).0[i]
    ensures key in AdmitSeq(s, times, key).1 && AdmitSeq(s, times, key).1[key] == Entry(Marker, times[0] + RequestExpiry)
  {
    var s1 := Admit(s, times[0], key).1;
    assert s1[key] == Entry(Marker, times[0] + RequestExpiry);
    forall i | 0 <= i < |times[1..]| ensures times[1..][i] < s1[key].expiresAt {
      assert times[1..][i] == times[i + 1];
    }
    RejectedWhileMarked(s1, times[1..], key);
  }
}
