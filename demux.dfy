/**
 The vocabulary shared by both routers: channels, the trace of effects a router
 has on them, the projections of a trace that the properties talk about, and the
 deferred loop that closes every channel stored in a map.

 A channel is modelled as an identity; what a router does to it is recorded as
 one trace of events. A send appends an item to the channel's log, which is what
 `SentOn` reads back; blocking and buffering are not modelled.
 */
module Demux {

  /** A channel, identified by a number. The routers compare channels only by
      identity: the close loop asks whether a channel is already closed, and
      whether two keys share a channel is a question about these numbers. */
  type Chan = nat

  /** One effect of a router: starting a consumer for a key on a channel,
      sending an item on a channel, or closing a channel. */
  datatype Event<K, T> =
    | Spawn(key: K, ch: Chan)
    | Send(ch: Chan, item: T)
    | Close(ch: Chan)

  /** How a router's call ends: normally, or with the panic Go raises when a
      channel that is already closed is closed again. */
  datatype Exit = Returned | DoubleClose(ch: Chan)

  // ---------------------------------------------------------------------------
  // The input side: keys and per-key subsequences.

  /** The set of keys of the items in `s`. */
  function KeysOf<T, K>(s: seq<T>, keyFunc: T -> K): set<K>
  {
    set i | 0 <= i < |s| :: keyFunc(s[i])
  }

  /** The items of `s` whose key is `k`, in input order. */
  function Filter<T, K(==)>(s: seq<T>, keyFunc: T -> K, k: K): seq<T>
  {
    if s == [] then []
    else Filter(s[..|s| - 1], keyFunc, k) + (if keyFunc(s[|s| - 1]) == k then [s[|s| - 1]] else [])
  }

  lemma KeysOfSnoc<T, K>(s: seq<T>, t: T, keyFunc: T -> K)
    ensures KeysOf(s + [t], keyFunc) == KeysOf(s, keyFunc) + {keyFunc(t)}
  {
    var l, r := KeysOf(s + [t], keyFunc), KeysOf(s, keyFunc) + {keyFunc(t)};
    forall k | k in r ensures k in l {
      if k != keyFunc(t) {
        var i :| 0 <= i < |s| && keyFunc(s[i]) == k;
        assert (s + [t])[i] == s[i];
      } else {
        assert (s + [t])[|s|] == t;
      }
    }
  }

  /** Filtering a sequence whose items all have key `k` keeps all of it. */
  lemma {:induction false} FilterAll<T, K>(s: seq<T>, keyFunc: T -> K, k: K)
    requires forall i :: 0 <= i < |s| ==> keyFunc(s[i]) == k
    ensures Filter(s, keyFunc, k) == s
  {
    if s != [] {
      FilterAll(s[..|s| - 1], keyFunc, k);
    }
  }

  /** A key that no item has filters to nothing. */
  lemma {:induction false} FilterAbsent<T, K>(s: seq<T>, keyFunc: T -> K, k: K)
    requires k !in KeysOf(s, keyFunc)
    ensures Filter(s, keyFunc, k) == []
  {
    if s != [] {
      var p := s[..|s| - 1];
      assert s == p + [s[|s| - 1]];
      KeysOfSnoc(p, s[|s| - 1], keyFunc);
      FilterAbsent(p, keyFunc, k);
    }
  }

  // ---------------------------------------------------------------------------
  // Projections of a trace.

  /** The log of channel `c`: the items sent on it, in order. */
  function SentOn<K, T>(tr: seq<Event<K, T>>, c: Chan): seq<T>
  {
    if tr == [] then []
    else
      var e := tr[|tr| - 1];
      SentOn(tr[..|tr| - 1], c) + (if e.Send? && e.ch == c then [e.item] else [])
  }

  /** All items sent, on whatever channel, in order. */
  function Items<K, T>(tr: seq<Event<K, T>>): seq<T>
  {
    if tr == [] then []
    else
      var e := tr[|tr| - 1];
      Items(tr[..|tr| - 1]) + (if e.Send? then [e.item] else [])
  }

  /** The channels a consumer for key `k` was started on, in order. */
  function SpawnedOn<K(==), T>(tr: seq<Event<K, T>>, k: K): seq<Chan>
  {
    if tr == [] then []
    else
      var e := tr[|tr| - 1];
      SpawnedOn(tr[..|tr| - 1], k) + (if e.Spawn? && e.key == k then [e.ch] else [])
  }

  /** The number of consumers started. */
  function SpawnCount<K, T>(tr: seq<Event<K, T>>): nat
  {
    if tr == [] then 0
    else SpawnCount(tr[..|tr| - 1]) + (if tr[|tr| - 1].Spawn? then 1 else 0)
  }

  /** How many times channel `c` was closed. */
  function CloseCount<K, T>(tr: seq<Event<K, T>>, c: Chan): nat
  {
    if tr == [] then 0
    else
      var e := tr[|tr| - 1];
      CloseCount(tr[..|tr| - 1], c) + (if e.Close? && e.ch == c then 1 else 0)
  }

  predicate NoCloses<K, T>(tr: seq<Event<K, T>>)
  {
    forall i :: 0 <= i < |tr| ==> !tr[i].Close?
  }

  predicate OnlyCloses<K, T>(tr: seq<Event<K, T>>)
  {
    forall i :: 0 <= i < |tr| ==> tr[i].Close?
  }

  /** No channel is sent on after it has been closed. */
  predicate NoSendAfterClose<K, T>(tr: seq<Event<K, T>>)
  {
    forall i, j :: 0 <= i < j < |tr| && tr[i].Close? && tr[j].Send? ==> tr[i].ch != tr[j].ch
  }

  /** Distinct keys are mapped to distinct channels. */
  predicate Injective<K, V(==)>(m: map<K, V>)
  {
    forall k1, k2 :: k1 in m && k2 in m && k1 != k2 ==> m[k1] != m[k2]
  }

  /** Channel `c` is stored under two different keys of `m`. */
  predicate Shared<K>(m: map<K, Chan>, c: Chan)
  {
    exists k1, k2 :: k1 in m && k2 in m && k1 != k2 && m[k1] == c && m[k2] == c
  }

  // ---------------------------------------------------------------------------
  // Projections distribute over concatenation.

  lemma {:induction false} SentOnAppend<K, T>(a: seq<Event<K, T>>, b: seq<Event<K, T>>, c: Chan)
    ensures SentOn(a + b, c) == SentOn(a, c) + SentOn(b, c)
  {
    if b != [] {
      var b' := b[..|b| - 1];
      assert (a + b)[..|a + b| - 1] == a + b';
      SentOnAppend(a, b', c);
    } else {
      assert a + b == a;
    }
  }

  lemma {:induction false} ItemsAppend<K, T>(a: seq<Event<K, T>>, b: seq<Event<K, T>>)
    ensures Items(a + b) == Items(a) + Items(b)
  {
    if b != [] {
      var b' := b[..|b| - 1];
      assert (a + b)[..|a + b| - 1] == a + b';
      ItemsAppend(a, b');
    } else {
      assert a + b == a;
    }
  }

  lemma {:induction false} SpawnedOnAppend<K, T>(a: seq<Event<K, T>>, b: seq<Event<K, T>>, k: K)
    ensures SpawnedOn(a + b, k) == SpawnedOn(a, k) + SpawnedOn(b, k)
  {
    if b != [] {
      var b' := b[..|b| - 1];
      assert (a + b)[..|a + b| - 1] == a + b';
      SpawnedOnAppend(a, b', k);
    } else {
      assert a + b == a;
    }
  }

  lemma {:induction false} SpawnCountAppend<K, T>(a: seq<Event<K, T>>, b: seq<Event<K, T>>)
    ensures SpawnCount(a + b) == SpawnCount(a) + SpawnCount(b)
  {
    if b != [] {
      var b' := b[..|b| - 1];
      assert (a + b)[..|a + b| - 1] == a + b';
      SpawnCountAppend(a, b');
    } else {
      assert a + b == a;
    }
  }

  lemma {:induction false} CloseCountAppend<K, T>(a: seq<Event<K, T>>, b: seq<Event<K, T>>, c: Chan)
    ensures CloseCount(a + b, c) == CloseCount(a, c) + CloseCount(b, c)
  {
    if b != [] {
      var b' := b[..|b| - 1];
      assert (a + b)[..|a + b| - 1] == a + b';
      CloseCountAppend(a, b', c);
    } else {
      assert a + b == a;
    }
  }

  /** What each projection reads from a single event. */
  lemma OneEvent<K, T>(e: Event<K, T>)
    ensures forall c :: SentOn([e], c) == if e.Send? && e.ch == c then [e.item] else []
    ensures forall k :: SpawnedOn([e], k) == if e.Spawn? && e.key == k then [e.ch] else []
    ensures forall c :: CloseCount([e], c) == if e.Close? && e.ch == c then 1 else 0
    ensures Items([e]) == (if e.Send? then [e.item] else [])
    ensures SpawnCount([e]) == if e.Spawn? then 1 else 0
  {
    assert [e][..0] == [];
  }

  /** A trace made only of closes sends nothing and starts nothing. */
  lemma {:induction false} ClosesOnly<K, T>(tr: seq<Event<K, T>>)
    requires OnlyCloses(tr)
    ensures forall c :: SentOn(tr, c) == []
    ensures forall k :: SpawnedOn(tr, k) == []
    ensures Items(tr) == [] && SpawnCount(tr) == 0
  {
    if tr != [] {
      ClosesOnly(tr[..|tr| - 1]);
    }
  }

  /** A trace without closes closes nothing. */
  lemma {:induction false} NoClosesCount<K, T>(tr: seq<Event<K, T>>, c: Chan)
    requires NoCloses(tr)
    ensures CloseCount(tr, c) == 0
  {
    if tr != [] {
      NoClosesCount(tr[..|tr| - 1], c);
    }
  }

  /** Running the closes after a part without closes never sends after a close. */
  lemma SendsThenCloses<K, T>(a: seq<Event<K, T>>, b: seq<Event<K, T>>)
    requires NoCloses(a) && OnlyCloses(b)
    ensures NoSendAfterClose(a + b)
  {
    forall i | 0 <= i < |a + b| ensures (a + b)[i].Close? <==> |a| <= i {
      if i < |a| {
        assert (a + b)[i] == a[i];
      } else {
        assert (a + b)[i] == b[i - |a|];
      }
    }
  }

  // ---------------------------------------------------------------------------
  // The deferred close-all loop.

  /** The state of the close-all loop after visiting the entries `done`: the
      closed channels are those of the visited entries, each closed once, and
      no two visited entries share a channel. */
  ghost predicate ClosedSoFar<K, T>(chans: map<K, Chan>, done: set<K>, closed: set<Chan>, closes: seq<Event<K, T>>)
  {
    && done <= chans.Keys
    && closed == (set k | k in done :: chans[k])
    && OnlyCloses(closes) && (done == {} ==> closes == [])
    && (forall c :: CloseCount(closes, c) == if c in closed then 1 else 0)
    && (forall k1, k2 :: k1 in done && k2 in done && k1 != k2 ==> chans[k1] != chans[k2])
  }

  /** Visiting an entry whose channel is still open closes it once more. */
  lemma CloseStep<K, T>(chans: map<K, Chan>, done: set<K>, closed: set<Chan>, closes: seq<Event<K, T>>, k: K)
    requires ClosedSoFar(chans, done, closed, closes)
    requires k in chans && k !in done && chans[k] !in closed
    ensures ClosedSoFar(chans, done + {k}, closed + {chans[k]}, closes + [Close(chans[k])])
  {
    var c := chans[k];
    assert (closes + [Close(c)])[..|closes|] == closes;
    forall k' | k' in done ensures chans[k'] != c {
      assert chans[k'] in closed;
    }
  }

  /** Visiting an entry whose channel is already closed: two keys share it, so
      the map is not injective, and that channel has been closed once. */
  lemma ClosePanics<K, T>(chans: map<K, Chan>, done: set<K>, closed: set<Chan>, closes: seq<Event<K, T>>, k: K)
    requires ClosedSoFar(chans, done, closed, closes)
    requires k in chans && k !in done && chans[k] in closed
    ensures Shared(chans, chans[k]) && !Injective(chans)
    ensures forall c :: CloseCount(closes, c) <= 1
    ensures forall c :: CloseCount(closes, c) == 1 ==> c in chans.Values
    ensures CloseCount(closes, chans[k]) == 1
    ensures chans != map[]
  {
    var k' :| k' in done && chans[k'] == chans[k];
    assert k != k';
    forall c | CloseCount(closes, c) == 1 ensures c in chans.Values {
      var j :| j in done && chans[j] == c;
    }
  }

  /** Once every entry has been visited, every channel of the map is closed
      exactly once, and the map is injective. */
  lemma CloseFinish<K, T>(chans: map<K, Chan>, closed: set<Chan>, closes: seq<Event<K, T>>)
    requires ClosedSoFar(chans, chans.Keys, closed, closes)
    ensures Injective(chans)
    ensures forall c :: CloseCount(closes, c) == if c in chans.Values then 1 else 0
    ensures chans == map[] ==> closes == []
  {
    forall c ensures c in closed <==> c in chans.Values {
      if c in chans.Values {
        var k :| k in chans && chans[k] == c;
      }
    }
  }

  /** Closes the channel stored under every entry of `chans`, visiting the
      entries in an unspecified order. Closing a channel a second time ends the
      loop with `DoubleClose`; this happens exactly when two keys share a channel. */
  method CloseAll<K, T>(chans: map<K, Chan>) returns (closes: seq<Event<K, T>>, exit: Exit)
    ensures OnlyCloses(closes)
    ensures exit.Returned? <==> Injective(chans)
    ensures forall c :: CloseCount(closes, c) <= 1
    ensures forall c :: CloseCount(closes, c) == 1 ==> c in chans.Values
    ensures exit.Returned? ==> forall c :: c in chans.Values ==> CloseCount(closes, c) == 1
    ensures exit.DoubleClose? ==> Shared(chans, exit.ch) && CloseCount(closes, exit.ch) == 1
    ensures chans == map[] ==> closes == []
  {
    var pending := chans.Keys;
    var closed: set<Chan> := {};
    ghost var done: set<K> := {};
    closes := [];
    while pending != {}
      invariant pending == chans.Keys - done
      invariant ClosedSoFar(chans, done, closed, closes)
      decreases pending
    {
      var k :| k in pending;
      var c := chans[k];
      if c in closed {
        ClosePanics(chans, done, closed, closes, k);
        exit := DoubleClose(c);
        return;
      }
      CloseStep(chans, done, closed, closes, k);
      closes := closes + [Close(c)];
      closed := closed + {c};
      done := done + {k};
      pending := pending - {k};
    }
    assert done == chans.Keys;
    CloseFinish(chans, closed, closes);
    exit := Returned;
  }
}
