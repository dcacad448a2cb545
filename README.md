# Birdnest violation tracker in Dafny

The birdnest backend polls a drone feed every two seconds. It keeps a ten-minute history
of violations of the no-fly zone, a 100 m circle around a nest. For each drone it publishes
the closest violation to every client listening on an event stream. This project models the
core of that backend and proves its behaviour:

- **Batch assembly** (`getCurrentlyViolatingDrones`). Drones strictly inside 100 m are kept
  in snapshot order. Each is paired, by index, with the answer to its pilot request. A
  non-OK answer gives a `null` pilot. A failed drone fetch, or a rejected pilot request,
  gives the empty batch.
- **The history `recentViolations`.** This is a dictionary from serial number to a list of
  records. `Object.keys` order is modelled as a key sequence beside a map. Each tick merges
  the batch: every record is pushed onto its serial's list, and a missing key is created at
  the end of the key order. Each tick then evicts: a record is kept only if its timestamp is
  strictly after `now` minus ten minutes, and a key whose list becomes empty is deleted.
  Both loops are imperative methods of the class `RecentViolations`. Each is proved against
  a pure specification (`History.Merge`, `History.Evict`), and the properties are lemmas
  about those specifications.
- **Closest-violation reduction** (`getClosestViolations`). Each list is folded to one
  record. The fold replaces the incumbent only on a strictly closer record, so the first
  closest record wins ties.
- **Change gate** (`reportDrones`). The reduced list is compared with the last serialised
  list, which starts as `""`. The list is broadcast only when the two differ, and the new
  one is stored either way. Over any run, the broadcasts are exactly the computed lists with
  consecutive repeats dropped.

Time is in integer milliseconds, and `now` is a parameter. A distance is a `nat` number of
hundredths of a metre. The record's `distToNest` string is `Distance.Fixed2` of that number,
the way `toFixed(2)` renders it. The reduction compares distances with the source's own
comparison, `<` on those strings (`DistOrder.AsWritten`), or numerically
(`DistOrder.Numeric`). The order-generic properties (the order lemmas, the fold giving the
first closest record, the per-key reduction, the gate) are proved for both orders. Three
lemmas are about one order by design: `History.NumericClosestIsNearest` holds for
`Numeric` only (it is false for `AsWritten`, which is the finding below), and
`History.AsWrittenPicksFarther` and `Distance.AsWrittenMisordersTenMetres` exhibit the
string order. See "Findings".

`server.js` repeats the merge, eviction and reduction statements of `getViolatingDrones.js`
(server.js:46-72). `Server.Backend` therefore owns its own `RecentViolations` object and
reuses its methods. `sse.send` appends its payload to the log `broadcasts`.

Three behaviours of the code that the model follows deliberately:

- A failed drone fetch still runs the eviction pass, with an empty batch. It does not leave
  the history untouched.
- Distances are compared as `toFixed(2)` strings, not as numbers.
- A pilot request that fails at the network or JSON level empties the whole batch. Only a
  non-OK status yields a `null` pilot.

## Model

| member | source | states |
|---|---|---|
| `Distance.Fixed2` | birdnest-backend/getViolatingDrones.js:53 | `toFixed(2)` of a distance in hundredths: whole metres, a point, two digits; specified by `Fixed2Injective` (distinct distances render differently) |
| `Distance.StrLess` | birdnest-backend/getViolatingDrones.js:75 | JavaScript `<` on strings, code unit by code unit, a proper prefix first; specified by `StrLessIrreflexive`, `StrLessTransitive` and `StrLessTotal` (a strict total order) and `AsWrittenMisordersTenMetres` |
| `Distance.Fixed2Injective` | birdnest-backend/getViolatingDrones.js:53 | two distances with the same `toFixed(2)` string are equal |
| `Distance.StrLessIrreflexive` | birdnest-backend/getViolatingDrones.js:75 | no `distToNest` string is `<` itself |
| `Distance.StrLessTransitive` | birdnest-backend/getViolatingDrones.js:75 | string `<` is transitive |
| `Distance.StrLessTotal` | birdnest-backend/getViolatingDrones.js:75 | of two different strings, one is `<` the other |
| `Distance.LessIrreflexive` | birdnest-backend/getViolatingDrones.js:75 | under either order no distance is closer than itself |
| `Distance.LessTransitive` | birdnest-backend/getViolatingDrones.js:75 | under either order "closer than" is transitive |
| `Distance.LessTotal` | birdnest-backend/getViolatingDrones.js:75 | under either order, of two different distances one is closer |
| `Distance.AsWrittenMisordersTenMetres` | birdnest-backend/getViolatingDrones.js:75 | the string comparison ranks 10.00 m as closer than 9.50 m |
| `History.Append` | birdnest-backend/getViolatingDrones.js:89-93 | one iteration of the push loop; specified by `AppendWellFormed` and, through `Merge`, by `MergeAppendsInOrder` and `MergeKeyOrder` |
| `History.Merge` | birdnest-backend/getViolatingDrones.js:88-94 | the push loop over the batch; specified against the independent `OfSerial` and `NewSerials` by `MergeAppendsInOrder`, `MergeKeys` and `MergeKeyOrder`, and by `MergeWellFormed` |
| `History.AppendWellFormed` | birdnest-backend/getViolatingDrones.js:89-93 | one push or key creation keeps keys unique, keys and map in agreement, no list empty, each list of one serial |
| `History.MergeWellFormed` | birdnest-backend/getViolatingDrones.js:88-94 | the merge loop keeps that invariant |
| `History.MergeAppendsInOrder` | birdnest-backend/getViolatingDrones.js:88-94 | after the merge a serial's list is its old list followed by the batch's records for it in batch order; a new serial gets just those |
| `History.MergeKeys` | birdnest-backend/getViolatingDrones.js:88-94 | existing keys keep their positions and new keys come after them, in the order of their first record in the batch; a key is present iff it was before or the batch has a record for it |
| `History.NewSerialsMembers` | birdnest-backend/getViolatingDrones.js:91-93 | the keys a batch creates are exactly its serials that were not keys, each once |
| `History.MergeConcat` | birdnest-backend/getViolatingDrones.js:88-94 | merging a batch in two parts in order is merging the whole batch |
| `History.MergeKeyOrder` | birdnest-backend/getViolatingDrones.js:88-94 | new keys follow the old ones in the order of their first record in the batch, which fixes the order of `Object.values` |
| `History.Recent` | birdnest-backend/getViolatingDrones.js:99 | the timestamp filter; specified by `RecentCounts`, `RecentMembers`, `RecentConcat`, `RecentUnchanged` and `RecentAllRecent` |
| `History.Without` | birdnest-backend/getViolatingDrones.js:102 | `delete` on the key order; specified by `WithoutMembers` |
| `History.EvictKey` | birdnest-backend/getViolatingDrones.js:99-105 | one iteration of the eviction loop; specified by `EvictKeyWellFormed` and `EvictKeysStep` |
| `History.EvictKeys` | birdnest-backend/getViolatingDrones.js:98-106 | the eviction loop over given keys; specified by `EvictKeysLists`, `EvictKeysOrder` and `EvictKeysWellFormed` |
| `History.Evict` | birdnest-backend/getViolatingDrones.js:96-106 | the eviction pass over the keys present when it starts; specified by `EvictSpec` and, after a merge, `UpdateLists` |
| `History.RecentCounts` | birdnest-backend/getViolatingDrones.js:99 | the filter keeps each record strictly after the cutoff as often as it occurs and drops every other |
| `History.RecentMembers` | birdnest-backend/getViolatingDrones.js:99 | a record survives iff it was in the list and its timestamp is strictly after the cutoff; one exactly at the cutoff is dropped |
| `History.RecentConcat` | birdnest-backend/getViolatingDrones.js:99 | the filter keeps relative order: it distributes over concatenation |
| `History.RecentUnchanged` | birdnest-backend/getViolatingDrones.js:99-104 | a list comes through unchanged iff all its records are recent |
| `History.RecentAllRecent` | birdnest-backend/getViolatingDrones.js:99 | a list whose records are all after the cutoff passes the filter unchanged |
| `History.WithoutMembers` | birdnest-backend/getViolatingDrones.js:102 | `delete` removes exactly that key from the key order and keeps it duplicate-free |
| `History.EvictKeyWellFormed` | birdnest-backend/getViolatingDrones.js:99-105 | one iteration of the eviction loop keeps the invariant |
| `History.EvictKeysWellFormed` | birdnest-backend/getViolatingDrones.js:98-106 | the eviction loop keeps the invariant |
| `History.EvictKeysLists` | birdnest-backend/getViolatingDrones.js:98-106 | a visited key holds its recent records and is present iff one exists; an unvisited key is untouched |
| `History.EvictKeysStep` | birdnest-backend/getViolatingDrones.js:98-105 | the key the loop visits next is still present, and visiting it is one more single-key eviction |
| `History.EvictKeysOrder` | birdnest-backend/getViolatingDrones.js:98-106 | surviving keys keep their relative order; only deleted keys leave it |
| `History.EvictSpec` | birdnest-backend/getViolatingDrones.js:96-106 | after eviction no list is empty, every record is strictly after the cutoff, a key stays iff one of its records survives, survivors keep their order, fully recent lists are unchanged |
| `History.UpdateLists` | birdnest-backend/getViolatingDrones.js:88-106 | after merge and eviction a serial's list is the recent part of its old records followed by the recent part of its incoming ones |
| `History.Closest` | birdnest-backend/getViolatingDrones.js:73-78 | the reduce with `null` start; specified by `ClosestIsFirstClosest` against the independent `IsFirstClosest`, and by `NumericClosestIsNearest` |
| `History.FirstClosestKeep` | birdnest-backend/getViolatingDrones.js:74-77 | a record that is not strictly closer leaves the incumbent in place |
| `History.FirstClosestReplace` | birdnest-backend/getViolatingDrones.js:74-77 | a strictly closer record becomes the first closest one |
| `History.ClosestIsFirstClosest` | birdnest-backend/getViolatingDrones.js:73-78 | the fold is `null` iff the list is empty; otherwise it is a record of the list that nothing is strictly closer than and that is strictly closer than every earlier record (first wins ties) |
| `History.FirstClosestUnique` | birdnest-backend/getViolatingDrones.js:74-78 | only one index is the first closest one |
| `History.AsWrittenPicksFarther` | birdnest-backend/getViolatingDrones.js:75 | the string order reduces [9.50 m, 10.00 m] to the 10.00 m record; the numeric order gives the 9.50 m one |
| `History.NumericClosestIsNearest` | birdnest-backend/getViolatingDrones.js:72-79 | with numeric comparison the reduction gives a record of the list with the least distance |
| `History.ClosestAll` | birdnest-backend/getViolatingDrones.js:72-80 | `Object.values(...).map(reduce)`; specified by `ClosestAllSpec` |
| `History.ClosestAllSpec` | birdnest-backend/getViolatingDrones.js:72-80 | one entry per key in key order, each non-null, of that serial, and the first closest record of its list |
| `GetViolatingDrones.Violating` | birdnest-backend/getViolatingDrones.js:45 | the radius filter; specified by `ViolatingCounts`, `ViolatingConcat` and `ViolatingInside` |
| `GetViolatingDrones.PilotOrNull` | birdnest-backend/getViolatingDrones.js:22-27 | a non-OK pilot response becomes `null`; specified through `CurrentlyViolatingSpec` |
| `GetViolatingDrones.CurrentlyViolating` | birdnest-backend/getViolatingDrones.js:34-59 | the batch of a tick; specified by `CurrentlyViolatingSpec` and `NearDroneOnly` |
| `GetViolatingDrones.ViolatingCounts` | birdnest-backend/getViolatingDrones.js:45 | the filter keeps exactly the drones strictly inside 100 m; one at exactly 100 m is dropped |
| `GetViolatingDrones.ViolatingConcat` | birdnest-backend/getViolatingDrones.js:45 | the filter keeps snapshot order |
| `GetViolatingDrones.ViolatingInside` | birdnest-backend/getViolatingDrones.js:45 | every kept drone is from the snapshot and inside the radius |
| `GetViolatingDrones.CurrentlyViolatingSpec` | birdnest-backend/getViolatingDrones.js:34-59 | a failed fetch or a rejected pilot request gives `[]`; otherwise record `i` is the `i`-th violating drone, in snapshot order, with its serial, its distance, the snapshot time and exactly the pilot fetched for it at that index (`null` iff that lookup was not OK) |
| `GetViolatingDrones.NearDroneOnly` | birdnest-backend/getViolatingDrones.js:44-55 | of drones at 50 m and 150 m only the first is reported, with a `null` pilot when its lookup is not OK |
| `GetViolatingDrones.RecentViolations.constructor` | birdnest-backend/getViolatingDrones.js:65 | the dictionary starts empty |
| `GetViolatingDrones.RecentViolations.MergeBatch` | birdnest-backend/getViolatingDrones.js:88-94 | the push loop leaves the dictionary equal to `Merge` of the old one and keeps its invariant |
| `GetViolatingDrones.RecentViolations.EvictOlderThan` | birdnest-backend/getViolatingDrones.js:96-106 | the eviction loop leaves the dictionary equal to `Evict` of the old one and keeps its invariant |
| `GetViolatingDrones.RecentViolations.UpdateRecentlyViolatingDrones` | birdnest-backend/getViolatingDrones.js:86-107 | the dictionary becomes the current batch merged in, then evicted at `now` minus ten minutes |
| `GetViolatingDrones.RecentViolations.GetClosestViolations` | birdnest-backend/getViolatingDrones.js:72-80 | reading only the dictionary, one entry per key in key order, each the first closest record of its list |
| `Server.Report` | birdnest-backend/server.js:44-79 | one tick on the state as a value; specified by `ReportTable`, `ReportGate`, `ReportKeepsInSync` and, over runs, `BroadcastsAreCollapsedComputed` |
| `Server.ReportTable` | birdnest-backend/server.js:44-64 | after a tick the dictionary keeps its invariant, holds only records strictly after `now` minus ten minutes, and each list is its recent old records followed by its recent incoming ones |
| `Server.ReportGate` | birdnest-backend/server.js:66-79 | `violationsToSend` has one first-closest entry per remaining key; a broadcast happens iff the text changed and sends that list; the new text is stored either way |
| `Server.ReportKeepsInSync` | birdnest-backend/server.js:75-79 | the stored text is `""` before any broadcast and the text of the last broadcast after it |
| `Server.FirstTickBroadcasts` | birdnest-backend/server.js:75-77 | the first tick always broadcasts, even an empty list, since the initial `""` (line 42) is no list's text |
| `Server.RepeatIsSuppressed` | birdnest-backend/server.js:75-79 | a tick that computes the same list as the one before does not broadcast |
| `Server.ExpiryIsBroadcast` | birdnest-backend/server.js:44-79 | a drone seen once is broadcast; ten minutes later the dictionary is empty and the empty list is broadcast |
| `Server.CollapseLast` | birdnest-backend/server.js:75-79 | dropping repeats keeps the last element |
| `Server.CollapseNoRepeats` | birdnest-backend/server.js:75-79 | after dropping repeats no two consecutive elements are equal |
| `Server.BroadcastsAreCollapsedComputed` | birdnest-backend/server.js:75-79 | over any run from start-up the broadcasts are the computed lists with consecutive repeats dropped, and the stored text is the last computed list's |
| `Server.Backend.constructor` | birdnest-backend/server.js:37-42 | start-up state: empty dictionary, `""`, nothing sent |
| `Server.Backend.ReportDrones` | birdnest-backend/server.js:44-80 | one tick: the new state is `Report` of the old one |

## Findings

| source | as written | input that shows it | evidently intended | confidence | as-written member | corrected member |
|---|---|---|---|---|---|---|
| birdnest-backend/getViolatingDrones.js:75 | `curr.distToNest < closest.distToNest` compares the `toFixed(2)` strings (server.js:68 does the same) | a drone's list holding a record at 9.50 m, then one at 10.00 m: "10.00" < "9.50", so the 10.00 m record is kept | keep the record with the smaller distance | high; not executed | `History.AsWrittenPicksFarther` | `History.NumericClosestIsNearest` |

The reduction, `RecentViolations.GetClosestViolations` and `Server.Backend` all take the
order as a parameter. `DistOrder.AsWritten` gives the source's behaviour and
`DistOrder.Numeric` the intended one. Every order-generic property is proved for both;
`NumericClosestIsNearest` holds only for `Numeric`.

## Left out

- The HTTP fetches of the drone snapshot and of pilots, and their status checks, are not
  modelled. They become inputs: a `DroneReport` (a capture, or `Unavailable` for any fetch,
  status or parse failure) and a function from serial to `PilotResponse`.
- The XML parse is left out because it is a foreign library. This includes its quirk that a
  snapshot with a single drone does not parse to an array.
- `getDroneDistToNest` is left out because it is floating-point code (`Math.hypot` and the
  `Number.EPSILON` rounding). The distance arrives as a whole number of hundredths of a
  metre, and the filter `distToNest < 100` becomes `dist < 10000`.
- `Promise.all` and `setInterval` are not modelled. `setInterval(reportDrones, 2000)`
  (server.js:82) does not wait for the previous call, so ticks can overlap at their `await`
  and finish in any order. Each tick's merge, eviction, reduction and gate run without an
  `await` after its batch arrives, so a tick is one atomic step once its batch is in, and
  `Server.Run` over an arbitrary sequence of `Tick`s covers any completion order.
- Express, compression, CORS, static files and the catch-all route are not modelled. They
  are transport plumbing.
- The internals of `sse.init` and `sse.send` are not modelled. This includes any resend to
  newly connected clients, which happens inside the library. A send is an append to
  `broadcasts`.
- `JSON.stringify` is modelled as an injective map from a list to its text, so comparing
  texts compares lists.
- Object key order is insertion order. This does not hold for serials that look like array
  indices, which JavaScript lists first in numeric order.
- Serials that name a member of `Object.prototype` (`constructor`, `toString`,
  `__proto__`, …) are not modelled. For them `recentViolations[serial]` (getViolatingDrones.js:89,
  server.js:47) is truthy before any key is created, so `.push` throws a `TypeError` in the
  middle of the merge. `History.Append` treats every string as an ordinary key.
- Timestamps are integers in milliseconds. An unparsable snapshot timestamp (`Invalid Date`,
  which every eviction would drop) is not modelled.
- Pilot records carry only `firstName`, `lastName`, `email` and `phoneNumber`. Other fields
  of the pilot response are left out.
- `server.js` imports a default export that `getViolatingDrones.js` does not provide.
  `Server.Backend.ReportDrones` therefore takes the batch of current violations as an input,
  in the format of `CurrentlyViolating`.
- The React frontend and its development proxy are not modelled.
