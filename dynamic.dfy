/**
 The dynamic router: one routing loop over the input that keeps a registry from
 keys to channels, makes a channel and starts a consumer the first time a key is
 seen, sends every item on its key's channel, and, once the input is exhausted,
 closes every channel in the registry.

 `Registry` and `Route` give the registry and the events of the loop after any
 prefix of the input; the method `Dynamic` is proved against them, and the
 lemmas state what the routing promises about them.
 */
module DynamicDemux {
  import opened Demux

  /** The registry `outChans` once the loop has consumed `s`. A key maps to the
      channel made at its first item; channels are numbered in the order they
      are made, and no entry is ever removed or replaced. */
  function Registry<T, K(==)>(s: seq<T>, keyFunc: T -> K): map<K, Chan>
  {
    if s == [] then map[]
    else
      var r := Registry(s[..|s| - 1], keyFunc);
      var k := keyFunc(s[|s| - 1]);
      if k in r then r else r[k := |r|]
  }

  /** The events the loop emits for one item with key `k`, given the registry
      `r` before it: a consumer started on a new channel if `k` is new, then
      the send. */
  function Step<K(==), T>(r: map<K, Chan>, k: K, t: T): seq<Event<K, T>>
  {
    if k in r then [Send(r[k], t)] else [Spawn(k, |r|), Send(|r|, t)]
  }

  /** The channel the item is sent on in `Step(r, k, t)`. */
  function Target<K(==)>(r: map<K, Chan>, k: K): Chan
  {
    if k in r then r[k] else |r|
  }

  /** The events of the loop over `s`, before the deferred closes. */
  function Route<T, K(==)>(s: seq<T>, keyFunc: T -> K): seq<Event<K, T>>
  {
    if s == [] then []
    else
      var p := s[..|s| - 1];
      Route(p, keyFunc) + Step(Registry(p, keyFunc), keyFunc(s[|s| - 1]), s[|s| - 1])
  }

  /** What each projection of a trace reads from the events of one item. */
  lemma StepProjections<K, T>(r: map<K, Chan>, k: K, t: T)
    ensures forall c :: SentOn(Step(r, k, t), c) == if c == Target(r, k) then [t] else []
    ensures forall k' :: SpawnedOn(Step(r, k, t), k') == if k' == k && k !in r then [|r|] else []
    ensures Items(Step(r, k, t)) == [t]
    ensures SpawnCount(Step(r, k, t)) == if k in r then 0 else 1
    ensures NoCloses(Step(r, k, t))
  {
    var send: Event<K, T> := Send(Target(r, k), t);
    OneEvent(send);
    if k !in r {
      var spawn: Event<K, T> := Spawn(k, |r|);
      OneEvent(spawn);
      assert Step(r, k, t) == [spawn] + [send];
      SentOnAppend([spawn], [send], 0);
      forall c ensures SentOn(Step(r, k, t), c) == if c == Target(r, k) then [t] else [] {
        SentOnAppend([spawn], [send], c);
      }
      forall k' ensures SpawnedOn(Step(r, k, t), k') == if k' == k then [|r|] else [] {
        SpawnedOnAppend([spawn], [send], k');
      }
      ItemsAppend([spawn], [send]);
      SpawnCountAppend([spawn], [send]);
    }
  }

  /** After any prefix, the registry holds exactly the keys seen so far, one
      entry per distinct key, and its channels are distinct and numbered below
      its size. */
  lemma {:induction false} RegistryKeys<T, K>(s: seq<T>, keyFunc: T -> K)
    ensures Registry(s, keyFunc).Keys == KeysOf(s, keyFunc)
    ensures |Registry(s, keyFunc)| == |KeysOf(s, keyFunc)|
    ensures Injective(Registry(s, keyFunc))
    ensures forall k :: k in Registry(s, keyFunc) ==> Registry(s, keyFunc)[k] < |Registry(s, keyFunc)|
  {
    if s != [] {
      var p := s[..|s| - 1];
      assert s == p + [s[|s| - 1]];
      RegistryKeys(p, keyFunc);
      KeysOfSnoc(p, s[|s| - 1], keyFunc);
    }
    assert |Registry(s, keyFunc)| == |Registry(s, keyFunc).Keys|;
  }

  /** Entries are never removed or overwritten: once a key has a channel, it
      keeps that channel for the rest of the input. */
  lemma {:induction false} RegistryStable<T, K>(s: seq<T>, u: seq<T>, keyFunc: T -> K)
    ensures forall k :: k in Registry(s, keyFunc) ==>
      k in Registry(s + u, keyFunc) && Registry(s + u, keyFunc)[k] == Registry(s, keyFunc)[k]
  {
    if u == [] {
      assert s + u == s;
    } else {
      var u' := u[..|u| - 1];
      assert (s + u)[..|s + u| - 1] == s + u';
      RegistryStable(s, u', keyFunc);
    }
  }

  /** The loop closes nothing, and every event names a channel already made. */
  lemma {:induction false} RouteChannels<T, K>(s: seq<T>, keyFunc: T -> K)
    ensures NoCloses(Route(s, keyFunc))
    ensures forall i :: 0 <= i < |Route(s, keyFunc)| ==> Route(s, keyFunc)[i].ch < |Registry(s, keyFunc)|
  {
    if s != [] {
      var p, t := s[..|s| - 1], s[|s| - 1];
      RouteChannels(p, keyFunc);
      RegistryKeys(p, keyFunc);
      var r, tr, tr' := Registry(p, keyFunc), Route(s, keyFunc), Route(p, keyFunc);
      var ext := Step(r, keyFunc(t), t);
      forall i | 0 <= i < |tr| ensures !tr[i].Close? && tr[i].ch < |Registry(s, keyFunc)| {
        if i < |tr'| {
          assert tr[i] == tr'[i];
        } else {
          assert tr[i] == ext[i - |tr'|];
        }
      }
    }
  }

  /** Per-key FIFO: the log of a key's channel is exactly the input items with
      that key, in input order. */
  lemma {:induction false} RouteFifo<T, K>(s: seq<T>, keyFunc: T -> K, k: K)
    ensures k in Registry(s, keyFunc) ==>
      SentOn(Route(s, keyFunc), Registry(s, keyFunc)[k]) == Filter(s, keyFunc, k)
  {
    if s != [] && k in Registry(s, keyFunc) {
      var p, t := s[..|s| - 1], s[|s| - 1];
      var r, kt := Registry(p, keyFunc), keyFunc(t);
      var c := Registry(s, keyFunc)[k];
      RegistryKeys(p, keyFunc);
      SentOnAppend(Route(p, keyFunc), Step(r, kt, t), c);
      StepProjections(r, kt, t);
      if k in r {
        RouteFifo(p, keyFunc, k);
        assert c == r[k];
        assert c == Target(r, kt) <==> kt == k;
      } else {
        assert k == kt && c == |r|;
        RouteChannels(p, keyFunc);
        SentOnSendsElsewhere(Route(p, keyFunc), c);
        FilterAbsent(p, keyFunc, k);
      }
    }
  }

  /** The channels that no key is registered on receive nothing. */
  lemma RouteUnregistered<T, K>(s: seq<T>, keyFunc: T -> K, c: Chan)
    requires c !in Registry(s, keyFunc).Values
    ensures SentOn(Route(s, keyFunc), c) == []
  {
    RegistryKeys(s, keyFunc);
    RouteSends(s, keyFunc);
    var tr := Route(s, keyFunc);
    forall i | 0 <= i < |tr| && tr[i].Send? ensures tr[i].ch != c {
      assert Registry(s, keyFunc)[keyFunc(tr[i].item)] in Registry(s, keyFunc).Values;
    }
    RouteChannels(s, keyFunc);
    SentOnSendsElsewhere(tr, c);
  }

  /** A channel that no send of a trace names has an empty log there. */
  lemma {:induction false} SentOnSendsElsewhere<K, T>(tr: seq<Event<K, T>>, c: Chan)
    requires forall i :: 0 <= i < |tr| && tr[i].Send? ==> tr[i].ch != c
    ensures SentOn(tr, c) == []
  {
    if tr != [] {
      SentOnSendsElsewhere(tr[..|tr| - 1], c);
    }
  }

  /** A consumer is started exactly once for each key of the input, on that
      key's registered channel, and never for any other key. */
  lemma {:induction false} RouteSpawns<T, K>(s: seq<T>, keyFunc: T -> K, k: K)
    ensures SpawnedOn(Route(s, keyFunc), k) == if k in Registry(s, keyFunc) then [Registry(s, keyFunc)[k]] else []
  {
    if s != [] {
      var p, t := s[..|s| - 1], s[|s| - 1];
      var r, kt := Registry(p, keyFunc), keyFunc(t);
      RouteSpawns(p, keyFunc, k);
      SpawnedOnAppend(Route(p, keyFunc), Step(r, kt, t), k);
      StepProjections(r, kt, t);
    }
  }

  /** The number of consumers started equals the number of registry entries,
      which is the number of distinct keys of the input. */
  lemma {:induction false} RouteSpawnCount<T, K>(s: seq<T>, keyFunc: T -> K)
    ensures SpawnCount(Route(s, keyFunc)) == |Registry(s, keyFunc)| == |KeysOf(s, keyFunc)|
  {
    RegistryKeys(s, keyFunc);
    if s != [] {
      var p, t := s[..|s| - 1], s[|s| - 1];
      var r, kt := Registry(p, keyFunc), keyFunc(t);
      RouteSpawnCount(p, keyFunc);
      SpawnCountAppend(Route(p, keyFunc), Step(r, kt, t));
      StepProjections(r, kt, t);
    }
  }

  /** Every input item is sent exactly once, in input order. */
  lemma {:induction false} RouteItems<T, K>(s: seq<T>, keyFunc: T -> K)
    ensures Items(Route(s, keyFunc)) == s
  {
    if s != [] {
      var p, t := s[..|s| - 1], s[|s| - 1];
      assert s == p + [t];
      RouteItems(p, keyFunc);
      var r := Registry(p, keyFunc);
      ItemsAppend(Route(p, keyFunc), Step(r, keyFunc(t), t));
      StepProjections(r, keyFunc(t), t);
    }
  }

  /** Each send goes to the channel registered for the item's key. */
  lemma {:induction false} RouteSends<T, K>(s: seq<T>, keyFunc: T -> K)
    ensures forall i :: 0 <= i < |Route(s, keyFunc)| && Route(s, keyFunc)[i].Send? ==>
      keyFunc(Route(s, keyFunc)[i].item) in Registry(s, keyFunc) &&
      Route(s, keyFunc)[i].ch == Registry(s, keyFunc)[keyFunc(Route(s, keyFunc)[i].item)]
  {
    if s != [] {
      var p, t := s[..|s| - 1], s[|s| - 1];
      assert s == p + [t];
      RouteSends(p, keyFunc);
      var r, kt := Registry(p, keyFunc), keyFunc(t);
      var ext := Step(r, kt, t);
      var tr, tr' := Route(s, keyFunc), Route(p, keyFunc);
      assert tr == tr' + ext;
      RegistryStable(p, [t], keyFunc);
      var rs := Registry(s, keyFunc);
      assert kt in rs && rs[kt] == Target(r, kt);
      forall i | 0 <= i < |tr| && tr[i].Send?
        ensures keyFunc(tr[i].item) in rs && tr[i].ch == rs[keyFunc(tr[i].item)]
      {
        if i < |tr'| {
          assert tr[i] == tr'[i];
        } else {
          assert tr[i] == ext[i - |tr'|];
        }
      }
    }
  }

  /** A consumer is started at its key's first item: the event right after the
      start is the send of the first input item with that key, on the new
      channel, and nothing was sent on that channel before. */
  lemma {:induction false} SpawnThenFirstSend<T, K>(s: seq<T>, keyFunc: T -> K, i: nat)
    requires i < |Route(s, keyFunc)| && Route(s, keyFunc)[i].Spawn?
    ensures var tr := Route(s, keyFunc);
      && i + 1 < |tr| && tr[i + 1].Send? && tr[i + 1].ch == tr[i].ch
      && keyFunc(tr[i + 1].item) == tr[i].key
      && Filter(s, keyFunc, tr[i].key) != [] && tr[i + 1].item == Filter(s, keyFunc, tr[i].key)[0]
      && SentOn(tr[..i], tr[i].ch) == []
  {
    var p, t := s[..|s| - 1], s[|s| - 1];
    var r, kt := Registry(p, keyFunc), keyFunc(t);
    var tr, tr' := Route(s, keyFunc), Route(p, keyFunc);
    if i < |tr'| {
      SpawnThenFirstSend(p, keyFunc, i);
      assert tr[i] == tr'[i] && tr[i + 1] == tr'[i + 1];
      assert tr[..i] == tr'[..i];
    } else {
      assert !(kt in r) && i == |tr'|;
      assert tr[..i] == tr';
      RouteChannels(p, keyFunc);
      SentOnSendsElsewhere(tr', |r|);
      RegistryKeys(p, keyFunc);
      FilterAbsent(p, keyFunc, kt);
    }
  }

  /** Every send happens after its key's consumer was started, on the same
      channel, and that consumer is the only one started for the key so far. */
  lemma {:induction false} SendAfterSpawn<T, K>(s: seq<T>, keyFunc: T -> K, j: nat)
    requires j < |Route(s, keyFunc)| && Route(s, keyFunc)[j].Send?
    ensures var tr := Route(s, keyFunc);
      SpawnedOn(tr[..j], keyFunc(tr[j].item)) == [tr[j].ch]
  {
    var p, t := s[..|s| - 1], s[|s| - 1];
    var r, kt := Registry(p, keyFunc), keyFunc(t);
    var tr, tr' := Route(s, keyFunc), Route(p, keyFunc);
    if j < |tr'| {
      SendAfterSpawn(p, keyFunc, j);
      assert tr[j] == tr'[j] && tr[..j] == tr'[..j];
    } else {
      RegistryKeys(p, keyFunc);
      RouteSpawns(p, keyFunc, kt);
      if kt in r {
        assert tr[..j] == tr';
      } else {
        assert tr[..j] == tr' + [Spawn(kt, |r|)];
        SpawnedOnAppend(tr', [Spawn(kt, |r|)], kt);
      }
    }
  }

  /** Input whose items all share one key starts one consumer, on the first
      channel made, and that consumer receives every item in order. */
  lemma SingleKey<T, K>(s: seq<T>, keyFunc: T -> K, k: K)
    requires s != [] && forall i :: 0 <= i < |s| ==> keyFunc(s[i]) == k
    ensures Registry(s, keyFunc) == map[k := 0]
    ensures SpawnCount(Route(s, keyFunc)) == 1 && SpawnedOn(Route(s, keyFunc), k) == [0]
    ensures SentOn(Route(s, keyFunc), 0) == s
  {
    assert KeysOf(s, keyFunc) == {k} by {
      assert keyFunc(s[0]) in KeysOf(s, keyFunc);
    }
    RegistryKeys(s, keyFunc);
    assert Registry(s, keyFunc) == map[k := 0];
    RouteSpawnCount(s, keyFunc);
    RouteSpawns(s, keyFunc, k);
    RouteFifo(s, keyFunc, k);
    FilterAll(s, keyFunc, k);
  }

  /** Two keys in alternation: key 1 gets the first channel and items "a", "c";
      key 2 gets the second channel and items "b", "d". */
  lemma TwoKeysAlternating()
    ensures var input := [(1, "a"), (2, "b"), (1, "c"), (2, "d")];
      var keyFunc := (x: (int, string)) => x.0;
      && Registry(input, keyFunc) == map[1 := 0, 2 := 1]
      && SentOn(Route(input, keyFunc), 0) == [(1, "a"), (1, "c")]
      && SentOn(Route(input, keyFunc), 1) == [(2, "b"), (2, "d")]
      && SpawnCount(Route(input, keyFunc)) == 2
  {
    var input := [(1, "a"), (2, "b"), (1, "c"), (2, "d")];
    var keyFunc := (x: (int, string)) => x.0;
    var s1, s2, s3 := input[..1], input[..2], input[..3];
    assert s1[..0] == [] && s2[..1] == s1 && s3[..2] == s2 && input[..3] == s3;
    assert Registry(s1, keyFunc) == map[1 := 0];
    assert |map[1 := 0]| == 1;
    assert Registry(s2, keyFunc) == map[1 := 0, 2 := 1];
    assert Registry(s3, keyFunc) == map[1 := 0, 2 := 1];
    assert Registry(input, keyFunc) == map[1 := 0, 2 := 1];
    assert Filter(s1, keyFunc, 1) == [(1, "a")] && Filter(s1, keyFunc, 2) == [];
    assert Filter(s2, keyFunc, 1) == [(1, "a")] && Filter(s2, keyFunc, 2) == [(2, "b")];
    assert Filter(s3, keyFunc, 1) == [(1, "a"), (1, "c")] && Filter(s3, keyFunc, 2) == [(2, "b")];
    assert Filter(input, keyFunc, 1) == [(1, "a"), (1, "c")];
    assert Filter(input, keyFunc, 2) == [(2, "b"), (2, "d")];
    RouteFifo(input, keyFunc, 1);
    RouteFifo(input, keyFunc, 2);
    RouteSpawnCount(input, keyFunc);
  }

  /** The loop's events followed by exactly one close of every registered
      channel: each key's log is its input items in order, one consumer per
      key, every registered channel closed once, and no send after a close. */
  lemma RouteThenCloses<T, K>(input: seq<T>, keyFunc: T -> K, closes: seq<Event<K, T>>, trace: seq<Event<K, T>>)
    requires OnlyCloses(closes)
    requires forall c :: CloseCount(closes, c) == if c in Registry(input, keyFunc).Values then 1 else 0
    requires trace == Route(input, keyFunc) + closes
    ensures forall k :: k in KeysOf(input, keyFunc) ==>
      k in Registry(input, keyFunc) && SentOn(trace, Registry(input, keyFunc)[k]) == Filter(input, keyFunc, k)
    ensures forall k :: SpawnedOn(trace, k) == if k in KeysOf(input, keyFunc) then [Registry(input, keyFunc)[k]] else []
    ensures SpawnCount(trace) == |KeysOf(input, keyFunc)|
    ensures Items(trace) == input
    ensures forall c :: CloseCount(trace, c) == if c in Registry(input, keyFunc).Values then 1 else 0
    ensures NoSendAfterClose(trace)
  {
    var routed := Route(input, keyFunc);
    RegistryKeys(input, keyFunc);
    RouteChannels(input, keyFunc);
    RouteSpawnCount(input, keyFunc);
    ClosesOnly(closes);
    forall k | k in KeysOf(input, keyFunc)
      ensures SentOn(trace, Registry(input, keyFunc)[k]) == Filter(input, keyFunc, k)
    {
      RouteFifo(input, keyFunc, k);
      SentOnAppend(routed, closes, Registry(input, keyFunc)[k]);
    }
    forall k ensures SpawnedOn(trace, k) == if k in KeysOf(input, keyFunc) then [Registry(input, keyFunc)[k]] else [] {
      RouteSpawns(input, keyFunc, k);
      SpawnedOnAppend(routed, closes, k);
    }
    SpawnCountAppend(routed, closes);
    RouteItems(input, keyFunc);
    ItemsAppend(routed, closes);
    forall c ensures CloseCount(trace, c) == if c in Registry(input, keyFunc).Values then 1 else 0 {
      CloseCountAppend(routed, closes, c);
      NoClosesCount(routed, c);
    }
    SendsThenCloses(routed, closes);
  }

  /** The routing loop and its deferred close-all loop. `keyFunc` is called once
      per item; the consumers are started as `Spawn` events and what they do is
      not modelled. The returned trace is the loop's events followed by one
      close of every registered channel, in some order. */
  method Dynamic<T, K(==)>(input: seq<T>, keyFunc: T -> K) returns (trace: seq<Event<K, T>>)
    ensures |Route(input, keyFunc)| <= |trace| && trace[..|Route(input, keyFunc)|] == Route(input, keyFunc)
    ensures OnlyCloses(trace[|Route(input, keyFunc)|..])
    ensures forall k :: k in KeysOf(input, keyFunc) ==>
      k in Registry(input, keyFunc) && SentOn(trace, Registry(input, keyFunc)[k]) == Filter(input, keyFunc, k)
    ensures forall k :: SpawnedOn(trace, k) == if k in KeysOf(input, keyFunc) then [Registry(input, keyFunc)[k]] else []
    ensures SpawnCount(trace) == |KeysOf(input, keyFunc)|
    ensures Items(trace) == input
    ensures forall c :: CloseCount(trace, c) == if c in Registry(input, keyFunc).Values then 1 else 0
    ensures NoSendAfterClose(trace)
    ensures input == [] ==> trace == []
  {
    var outChans: map<K, Chan> := map[];
    trace := [];
    for i := 0 to |input|
      invariant outChans == Registry(input[..i], keyFunc)
      invariant trace == Route(input[..i], keyFunc)
    {
      assert input[..i + 1][..i] == input[..i];
      var t := input[i];
      var key := keyFunc(t);
      var ch: Chan;
      if key in outChans {
        ch := outChans[key];
      } else {
        ch := |outChans|;
        outChans := outChans[key := ch];
        trace := trace + [Spawn(key, ch)];
      }
      trace := trace + [Send(ch, t)];
    }
    assert input[..|input|] == input;
    RegistryKeys(input, keyFunc);
    var closes, exit := CloseAll(outChans);
    assert exit == Returned;
    var routed := trace;
    trace := routed + closes;
    assert trace[..|routed|] == routed && trace[|routed|..] == closes;
    RouteThenCloses(input, keyFunc, closes, trace);
  }
}
