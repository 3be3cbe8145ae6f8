/**
 The static router: one loop over the input that looks each item's key up in a
 caller-supplied map from keys to channels, sends the item on the channel found
 and drops it when the key has no entry; once the input is exhausted, it closes
 the channel stored under every entry of the map.

 The map is a value parameter, so the router cannot change it. Two keys that
 share one channel make the close-all loop close that channel twice; the model
 reports this as `Exit.DoubleClose` and proves it happens exactly then.
 */
module StaticDemux {
  import opened Demux

  /** The events of the loop over `s`: one send on the mapped channel for each
      item whose key has an entry, nothing at all for the others. */
  function StaticRoute<T, K(==)>(s: seq<T>, keyFunc: T -> K, channels: map<K, Chan>): seq<Event<K, T>>
  {
    if s == [] then []
    else
      var t := s[|s| - 1];
      StaticRoute(s[..|s| - 1], keyFunc, channels)
        + (if keyFunc(t) in channels then [Send(channels[keyFunc(t)], t)] else [])
  }

  /** The items of `s` whose key has an entry in `channels`, in input order. */
  function Mapped<T, K(==)>(s: seq<T>, keyFunc: T -> K, channels: map<K, Chan>): seq<T>
  {
    if s == [] then []
    else Mapped(s[..|s| - 1], keyFunc, channels) + (if keyFunc(s[|s| - 1]) in channels then [s[|s| - 1]] else [])
  }

  /** The items of `s` whose key is mapped to channel `c`, in input order. */
  function RoutedTo<T, K(==)>(s: seq<T>, keyFunc: T -> K, channels: map<K, Chan>, c: Chan): seq<T>
  {
    if s == [] then []
    else
      var t := s[|s| - 1];
      RoutedTo(s[..|s| - 1], keyFunc, channels, c)
        + (if keyFunc(t) in channels && channels[keyFunc(t)] == c then [t] else [])
  }

  /** Drop iff unmapped: the sent items are exactly the input items whose key
      is mapped, in input order, each sent on its key's channel; nothing else
      happens, so an unmapped item leaves no trace. */
  lemma {:induction false} StaticSends<T, K>(s: seq<T>, keyFunc: T -> K, channels: map<K, Chan>)
    ensures Items(StaticRoute(s, keyFunc, channels)) == Mapped(s, keyFunc, channels)
    ensures forall i :: 0 <= i < |StaticRoute(s, keyFunc, channels)| ==>
      var e := StaticRoute(s, keyFunc, channels)[i];
      e.Send? && keyFunc(e.item) in channels && e.ch == channels[keyFunc(e.item)]
    ensures |StaticRoute(s, keyFunc, channels)| == |Mapped(s, keyFunc, channels)| <= |s|
  {
    if s != [] {
      var p, t := s[..|s| - 1], s[|s| - 1];
      StaticSends(p, keyFunc, channels);
      var tr, tr' := StaticRoute(s, keyFunc, channels), StaticRoute(p, keyFunc, channels);
      var ext: seq<Event<K, T>> := if keyFunc(t) in channels then [Send(channels[keyFunc(t)], t)] else [];
      ItemsAppend(tr', ext);
      if ext != [] {
        OneEvent(ext[0]);
      }
      forall i | 0 <= i < |tr|
        ensures tr[i].Send? && keyFunc(tr[i].item) in channels && tr[i].ch == channels[keyFunc(tr[i].item)]
      {
        if i < |tr'| {
          assert tr[i] == tr'[i];
        }
      }
    }
  }

  /** The log of each channel is the input items whose key maps to it, in
      input order. */
  lemma {:induction false} StaticLogs<T, K>(s: seq<T>, keyFunc: T -> K, channels: map<K, Chan>, c: Chan)
    ensures SentOn(StaticRoute(s, keyFunc, channels), c) == RoutedTo(s, keyFunc, channels, c)
  {
    if s != [] {
      var p, t := s[..|s| - 1], s[|s| - 1];
      StaticLogs(p, keyFunc, channels, c);
      var ext: seq<Event<K, T>> := if keyFunc(t) in channels then [Send(channels[keyFunc(t)], t)] else [];
      SentOnAppend(StaticRoute(p, keyFunc, channels), ext, c);
      if ext != [] {
        OneEvent(ext[0]);
      }
    }
  }

  /** Per-key FIFO: when no two keys share a channel, a mapped key's channel
      receives exactly the input items with that key, in input order. */
  lemma {:induction false} RoutedToOwnKey<T, K>(s: seq<T>, keyFunc: T -> K, channels: map<K, Chan>, k: K)
    requires Injective(channels) && k in channels
    ensures RoutedTo(s, keyFunc, channels, channels[k]) == Filter(s, keyFunc, k)
  {
    if s != [] {
      RoutedToOwnKey(s[..|s| - 1], keyFunc, channels, k);
    }
  }

  /** Even numbers go to the channel of key "A", odd ones to that of "B":
      input 1, 2, 3, 4 gives A the log 2, 4 and B the log 1, 3. */
  lemma EvenOddSinks()
    ensures var channels := map["A" := 0, "B" := 1];
      var keyFunc := (i: int) => if i % 2 == 0 then "A" else "B";
      && SentOn(StaticRoute([1, 2, 3, 4], keyFunc, channels), 0) == [2, 4]
      && SentOn(StaticRoute([1, 2, 3, 4], keyFunc, channels), 1) == [1, 3]
  {
    var channels := map["A" := 0, "B" := 1];
    var keyFunc := (i: int) => if i % 2 == 0 then "A" else "B";
    var input := [1, 2, 3, 4];
    var s1, s2, s3 := input[..1], input[..2], input[..3];
    assert s1[..0] == [] && s2[..1] == s1 && s3[..2] == s2 && input[..3] == s3;
    assert RoutedTo(s1, keyFunc, channels, 0) == [] && RoutedTo(s1, keyFunc, channels, 1) == [1];
    assert RoutedTo(s2, keyFunc, channels, 0) == [2] && RoutedTo(s2, keyFunc, channels, 1) == [1];
    assert RoutedTo(s3, keyFunc, channels, 0) == [2] && RoutedTo(s3, keyFunc, channels, 1) == [1, 3];
    assert RoutedTo(input, keyFunc, channels, 0) == [2, 4];
    assert RoutedTo(input, keyFunc, channels, 1) == [1, 3];
    StaticLogs(input, keyFunc, channels, 0);
    StaticLogs(input, keyFunc, channels, 1);
  }

  /** Items whose key has no entry are dropped: with sinks for "A" and "B",
      the items keyed "C" reach no channel. */
  lemma UnmappedKeyDropped()
    ensures var channels := map["A" := 0, "B" := 1];
      var keyFunc := (x: (string, int)) => x.0;
      var input := [("A", 1), ("C", 2), ("B", 3), ("A", 4)];
      && Items(StaticRoute(input, keyFunc, channels)) == [("A", 1), ("B", 3), ("A", 4)]
      && SentOn(StaticRoute(input, keyFunc, channels), 0) == [("A", 1), ("A", 4)]
      && SentOn(StaticRoute(input, keyFunc, channels), 1) == [("B", 3)]
  {
    var channels := map["A" := 0, "B" := 1];
    var keyFunc := (x: (string, int)) => x.0;
    var input := [("A", 1), ("C", 2), ("B", 3), ("A", 4)];
    var s1, s2, s3 := input[..1], input[..2], input[..3];
    assert s1[..0] == [] && s2[..1] == s1 && s3[..2] == s2 && input[..3] == s3;
    assert Mapped(s1, keyFunc, channels) == [("A", 1)];
    assert Mapped(s2, keyFunc, channels) == [("A", 1)];
    assert Mapped(s3, keyFunc, channels) == [("A", 1), ("B", 3)];
    assert Mapped(input, keyFunc, channels) == [("A", 1), ("B", 3), ("A", 4)];
    assert RoutedTo(s1, keyFunc, channels, 0) == [("A", 1)] && RoutedTo(s1, keyFunc, channels, 1) == [];
    assert RoutedTo(s2, keyFunc, channels, 0) == [("A", 1)] && RoutedTo(s2, keyFunc, channels, 1) == [];
    assert RoutedTo(s3, keyFunc, channels, 0) == [("A", 1)] && RoutedTo(s3, keyFunc, channels, 1) == [("B", 3)];
    assert RoutedTo(input, keyFunc, channels, 0) == [("A", 1), ("A", 4)];
    assert RoutedTo(input, keyFunc, channels, 1) == [("B", 3)];
    StaticSends(input, keyFunc, channels);
    StaticLogs(input, keyFunc, channels, 0);
    StaticLogs(input, keyFunc, channels, 1);
  }

  /** The loop's sends followed by the closes of the close-all loop. */
  lemma StaticThenCloses<T, K>(input: seq<T>, keyFunc: T -> K, channels: map<K, Chan>,
                               closes: seq<Event<K, T>>, trace: seq<Event<K, T>>)
    requires OnlyCloses(closes)
    requires trace == StaticRoute(input, keyFunc, channels) + closes
    ensures forall c :: SentOn(trace, c) == RoutedTo(input, keyFunc, channels, c)
    ensures Items(trace) == Mapped(input, keyFunc, channels)
    ensures Injective(channels) ==> forall k :: k in channels ==>
      SentOn(trace, channels[k]) == Filter(input, keyFunc, k)
    ensures forall c :: CloseCount(trace, c) == CloseCount(closes, c)
    ensures SpawnCount(trace) == 0
    ensures NoSendAfterClose(trace)
  {
    var routed := StaticRoute(input, keyFunc, channels);
    StaticSends(input, keyFunc, channels);
    ClosesOnly(closes);
    assert NoCloses(routed);
    forall c ensures SentOn(trace, c) == RoutedTo(input, keyFunc, channels, c) {
      StaticLogs(input, keyFunc, channels, c);
      SentOnAppend(routed, closes, c);
    }
    ItemsAppend(routed, closes);
    if Injective(channels) {
      forall k | k in channels ensures SentOn(trace, channels[k]) == Filter(input, keyFunc, k) {
        RoutedToOwnKey(input, keyFunc, channels, k);
      }
    }
    forall c ensures CloseCount(trace, c) == CloseCount(closes, c) {
      CloseCountAppend(routed, closes, c);
      NoClosesCount(routed, c);
    }
    StaticNoSpawns(input, keyFunc, channels);
    SpawnCountAppend(routed, closes);
    SendsThenCloses(routed, closes);
  }

  /** The static router starts no consumers. */
  lemma {:induction false} StaticNoSpawns<T, K>(s: seq<T>, keyFunc: T -> K, channels: map<K, Chan>)
    ensures SpawnCount(StaticRoute(s, keyFunc, channels)) == 0
  {
    if s != [] {
      var p, t := s[..|s| - 1], s[|s| - 1];
      StaticNoSpawns(p, keyFunc, channels);
      var ext: seq<Event<K, T>> := if keyFunc(t) in channels then [Send(channels[keyFunc(t)], t)] else [];
      SpawnCountAppend(StaticRoute(p, keyFunc, channels), ext);
      if ext != [] {
        OneEvent(ext[0]);
      }
    }
  }

  /** The routing loop and its deferred close-all loop. The returned trace is
      the loop's sends followed by the closes, in some order; `exit` tells
      whether the close-all loop ended normally or by closing a shared channel
      a second time. */
  method Static<T, K(==)>(input: seq<T>, keyFunc: T -> K, channels: map<K, Chan>)
    returns (trace: seq<Event<K, T>>, exit: Exit)
    ensures |StaticRoute(input, keyFunc, channels)| <= |trace|
    ensures trace[..|StaticRoute(input, keyFunc, channels)|] == StaticRoute(input, keyFunc, channels)
    ensures OnlyCloses(trace[|StaticRoute(input, keyFunc, channels)|..])
    ensures forall c :: SentOn(trace, c) == RoutedTo(input, keyFunc, channels, c)
    ensures Items(trace) == Mapped(input, keyFunc, channels)
    ensures Injective(channels) ==> forall k :: k in channels ==>
      SentOn(trace, channels[k]) == Filter(input, keyFunc, k)
    ensures exit.Returned? <==> Injective(channels)
    ensures exit.Returned? ==> forall c :: CloseCount(trace, c) == if c in channels.Values then 1 else 0
    ensures exit.DoubleClose? ==> Shared(channels, exit.ch) && CloseCount(trace, exit.ch) == 1
    ensures forall c :: CloseCount(trace, c) <= 1
    ensures forall c :: CloseCount(trace, c) == 1 ==> c in channels.Values
    ensures SpawnCount(trace) == 0
    ensures NoSendAfterClose(trace)
  {
    trace := [];
    for i := 0 to |input|
      invariant trace == StaticRoute(input[..i], keyFunc, channels)
    {
      assert input[..i + 1][..i] == input[..i];
      var t := input[i];
      var k := keyFunc(t);
      if k in channels {
        trace := trace + [Send(channels[k], t)];
      }
    }
    assert input[..|input|] == input;
    var closes;
    closes, exit := CloseAll(channels);
    var routed := trace;
    trace := routed + closes;
    assert trace[..|routed|] == routed && trace[|routed|..] == closes;
    StaticThenCloses(input, keyFunc, channels, closes, trace);
  }
}
