# demux: keyed demultiplexing of one stream into per-key channels

This project models the Go package `demux` in Dafny. The package has two
routers. Each one reads an input stream, classifies every item by a key
function, and forwards the item on a channel.

- `Dynamic` keeps a registry `outChans` from keys to channels. The first time
  a key is seen, it makes a channel, registers it and starts a consumer
  goroutine on it. Then it sends the item on the key's channel. When the input
  ends, a deferred loop closes every registered channel.
- `Static` looks each key up in a map supplied by the caller. It sends the
  item on the channel found and silently drops it when the key has no entry.
  When the input ends, a deferred loop closes the channel under every map
  entry.

How the model represents these:

- The input is a `seq<T>`. The key function is a total Dafny function
  `T -> K`, where `K` supports equality.
- A channel is an identity `Chan` (a `nat`).
- Everything a router does is recorded, in program order, as one trace of
  events: `Spawn(key, ch)` starts a consumer, `Send(ch, item)` sends, and
  `Close(ch)` closes. A channel's log (`SentOn`) is the items sent on it, in
  order.
- `Dynamic` and `Static` are methods with the source's loops. Their loop
  invariants tie the local state to specification functions of the input
  prefix read so far: `Registry` and `Route` for `Dynamic`, `StaticRoute` for
  `Static`. The lemmas prove the routing properties about those functions.
- Both deferred close loops are one method, `Demux.CloseAll`. It visits the
  map's keys in an unspecified order, chosen with `:|`, because Go map
  iteration order is unspecified.
- In Go, closing a channel twice panics. `CloseAll` reports that case as
  `Exit.DoubleClose(ch)` and stops there. It is proved to happen exactly when
  two keys share a channel. For `Dynamic` this never happens, because its
  registry is injective.
- `Dynamic`'s `make(chan T)` gives the new channel the number of channels made
  so far. The registry never loses an entry, so that number is `|outChans|`.
- `Static`'s `channels` map is a value parameter, so the router cannot modify
  it.

The code has no LRU eviction, no bound on the number of channels, no
buffer-size option and no barrier that waits for the consumers. Registry
entries are never removed, every channel is unbuffered (dynamic.go:22), and
`Dynamic` returns without waiting for its consumers.

`Static` closes the channel under every map entry (static.go:7-9). So a
channel stored under two keys is closed twice, which panics. The model reports
this as `DoubleClose`.

## Model

| member | source | states |
|---|---|---|
| `Demux.CloseAll` | dynamic.go:12-16 | Closes the channel of every map entry, in some order. It ends normally exactly when no two keys share a channel. On a normal end, every channel in the map is closed exactly once. On empty input nothing is closed. On a double close, the channel being closed is shared by two keys and was already closed once. No channel is closed twice, and nothing outside the map is closed. |
| `Demux.ClosePanics` | static.go:7-9 | Reaching an entry whose channel is already closed means two keys share that channel, so the map is not injective. That channel was closed exactly once before, and every closed channel is in the map. |
| `Demux.CloseFinish` | static.go:7-9 | After the loop visits every entry without reaching a closed channel, the map is injective and every channel in it has been closed exactly once. |
| `Demux.SendsThenCloses` | dynamic.go:12-28 | The closes run after the whole routing loop (the close loop is deferred), so no channel is sent on after it has been closed. |
| `DynamicDemux.Dynamic` | dynamic.go:6-29 | The trace is the loop's events (`Route`) followed only by closes. Each key's channel log is the input items with that key, in input order. Exactly one consumer is started per distinct key, on that key's registered channel, and none for other keys. The number of consumers equals the number of distinct keys. Every input item is sent once, in input order. Every registered channel is closed exactly once and no other channel is closed. Nothing is sent after a close. Empty input gives an empty trace: no channel, no consumer, no close. |
| `DynamicDemux.RegistryKeys` | dynamic.go:19-24 | After any prefix, the registry's key set is the set of keys of the prefix's items, with one entry per distinct key. Its channels are distinct and numbered below its size. |
| `DynamicDemux.RegistryStable` | dynamic.go:20-24 | Registry entries are never removed or overwritten. Once a key has a channel, it keeps that channel for the rest of the input. |
| `DynamicDemux.RouteChannels` | dynamic.go:18-28 | The routing loop closes nothing, and every event names a channel that has already been made. |
| `DynamicDemux.RouteFifo` | dynamic.go:18-28 | Per-key FIFO: for every registered key, the log of its channel is exactly the input items with that key, in input order. |
| `DynamicDemux.RouteUnregistered` | dynamic.go:20-27 | A channel under no key in the registry receives nothing. |
| `DynamicDemux.RouteSpawns` | dynamic.go:21-25 | For each key, the consumers started are exactly one, on the key's registered channel, if the key occurs in the input, and none otherwise. |
| `DynamicDemux.RouteSpawnCount` | dynamic.go:11-25 | The number of consumers started equals the number of registry entries, which equals the number of distinct keys in the input. |
| `DynamicDemux.RouteItems` | dynamic.go:18-28 | All input items are sent, exactly once each and in input order. |
| `DynamicDemux.RouteSends` | dynamic.go:20-27 | Each send goes to the channel registered for the item's key. |
| `DynamicDemux.SpawnThenFirstSend` | dynamic.go:20-27 | A consumer starts at its key's first item. The very next event sends that first item with the key, on the new channel. Nothing was sent on that channel before the consumer started. |
| `DynamicDemux.SendAfterSpawn` | dynamic.go:20-27 | Before any send, exactly one consumer has been started for the item's key, on the channel the item is sent on. |
| `DynamicDemux.SingleKey` | dynamic_test.go:56-89 | Non-empty input whose items all share one key has a one-entry registry and one consumer, on the first channel. That channel receives every item, in order. |
| `DynamicDemux.TwoKeysAlternating` | dynamic_test.go:11-54 | Input (1,"a"), (2,"b"), (1,"c"), (2,"d") keyed by the number creates two registry entries and two consumers. Key 1's channel receives "a", "c" and key 2's channel receives "b", "d". |
| `DynamicDemux.RouteThenCloses` | dynamic.go:12-28 | The loop's events followed by one close of each registered channel satisfy `Dynamic`'s guarantees: per-key FIFO, every item sent once in order, one consumer per key and one close per channel, with no send after a close. |
| `StaticDemux.Static` | static.go:5-18 | The trace is the loop's sends followed only by closes. Each channel's log is the input items whose key maps to it, in order. When no two keys share a channel, that is the items with the mapped key. The items sent are exactly the mapped items, in input order. No consumer is started. The call ends normally exactly when the map is injective, and then every channel in the map is closed once, including sinks that received nothing and the case of empty input. Otherwise it stops at a shared channel already closed once. No channel is closed twice, no channel outside the map is closed, and nothing is sent after a close. |
| `StaticDemux.StaticSends` | static.go:12-17 | An item is sent if and only if its key is in the map: the items sent are exactly the mapped input items, in order. Every event is a send on the channel of the item's key, so dropped items have no other effect. The number of sends equals the number of mapped items and is at most the input length. |
| `StaticDemux.StaticLogs` | static.go:13-16 | The log of each channel is the input items whose key maps to that channel, in input order. |
| `StaticDemux.RoutedToOwnKey` | static.go:13-16 | When no two keys share a channel, a mapped key's channel receives exactly the items with that key, in input order. |
| `StaticDemux.StaticNoSpawns` | static.go:12-17 | The static router starts no consumer. |
| `StaticDemux.StaticThenCloses` | static.go:6-17 | The loop's sends followed by the close loop's closes satisfy `Static`'s guarantees about logs, the items sent and the closes, with no send after a close. |
| `StaticDemux.EvenOddSinks` | static_test.go:11-77 | With even numbers keyed "A" and odd numbers keyed "B", input 1, 2, 3, 4 gives A's channel 2, 4 and B's channel 1, 3. |
| `StaticDemux.UnmappedKeyDropped` | static.go:13-16 | With sinks for "A" and "B" only, the items keyed "C" are dropped. The sent items and the two logs contain exactly the A and B items, in order. |

## Left out

- Goroutines and scheduling: a consumer start is a `Spawn` event. What `consumeFunc` does with its channel is caller code and is not modelled.
- Channel blocking and backpressure: the unbuffered sends at dynamic.go:27 and static.go:15 are modelled as appends to the channel's log.
- Panics raised by `keyFunc` or `consumeFunc`, and the deferred close that still runs after such a panic: not modelled.
- Go map iteration order in both close loops is unspecified. The model picks the next key nondeterministically and claims nothing about the order of closes.
- `Static`'s caller may pass channels that are already closed or nil. A send or close on those panics or blocks. The model assumes every channel in the map is open and non-nil when `Static` starts.
- LRU eviction, a bound on the number of channels, a buffer-size option and a join barrier on consumers: not part of the code (see above), so not part of the model.
- Go key comparison: the model's `K(==)` equality is reflexive and total, and Go's `comparable` equality is not always. A NaN float key never matches a map lookup. So in `Dynamic` every NaN-keyed item gets a new registry entry, channel and consumer (dynamic.go:20-25), and in `Static` a NaN-keyed item is dropped even when the map has a NaN entry (static.go:14). An interface key whose dynamic type is not hashable panics on lookup. None of this is modelled. For NaN keys, "one entry per distinct key" (`RegistryKeys`, `RouteSpawnCount`) does not hold in Go.
