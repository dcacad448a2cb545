/** The violation history `recentViolations` as a value: a dictionary from a
    drone's serial number to its recent violation records, with the merge,
    eviction and closest-violation reduction that both backend files perform on
    it, and what each of them guarantees. */
module History {
  import opened Records
  import opened Distance

  /** `order` lists the dictionary's keys as `Object.keys` and `Object.values`
      enumerate them (insertion order); `lists` maps each key to its records. */
  datatype Table = Table(order: seq<string>, lists: map<string, seq<Violation>>)

  /** The empty dictionary `{}`. */
  const Empty: Table := Table([], map[])

  ghost predicate Distinct(s: seq<string>)
  {
    forall i, j :: 0 <= i < j < |s| ==> s[i] != s[j]
  }

  /** The shape the history keeps between ticks: each key listed once, the
      key order and the map agree, no list is empty, and a list holds only
      records of its own serial. */
  ghost predicate WellFormed(t: Table)
  {
    && Distinct(t.order)
    && (forall k :: k in t.order <==> k in t.lists)
    && (forall k :: k in t.lists ==> t.lists[k] != [])
    && (forall k, v :: k in t.lists && v in t.lists[k] ==> v.serialNumber == k)
  }

  lemma NotInPrefix(s: seq<string>, i: int)
    requires Distinct(s) && 0 <= i < |s|
    ensures s[i] !in s[..i]
  {
  }

  /** The records under key `k`, or none when the key is absent. */
  function Lookup(t: Table, k: string): seq<Violation>
  {
    if k in t.lists then t.lists[k] else []
  }

  // ---------------------------------------------------------------------------
  // Merge: the forEach that pushes each incoming record onto its serial's list.

  /** One iteration: push `v` onto its serial's list, or create the key, at the
      end of the key order, with the one-element list `[v]`. */
  function Append(t: Table, v: Violation): Table
  {
    if v.serialNumber in t.lists then
      Table(t.order, t.lists[v.serialNumber := t.lists[v.serialNumber] + [v]])
    else
      Table(t.order + [v.serialNumber], t.lists[v.serialNumber := [v]])
  }

  /** The whole loop, one record after another in batch order. */
  function Merge(t: Table, batch: seq<Violation>): Table
  {
    if batch == [] then t else Append(Merge(t, batch[..|batch| - 1]), batch[|batch| - 1])
  }

  /** The records of `batch` whose serial is `k`, in batch order. */
  function OfSerial(batch: seq<Violation>, k: string): seq<Violation>
  {
    if batch == [] then []
    else OfSerial(batch[..|batch| - 1], k)
         + (if batch[|batch| - 1].serialNumber == k then [batch[|batch| - 1]] else [])
  }

  lemma AppendWellFormed(t: Table, v: Violation)
    requires WellFormed(t)
    ensures WellFormed(Append(t, v))
  {
    var r := Append(t, v);
    forall k, w | k in r.lists && w in r.lists[k]
      ensures w.serialNumber == k
    {
      if k == v.serialNumber && k in t.lists {
        assert w in t.lists[k] || w == v;
      }
    }
  }

  lemma {:induction false} MergeWellFormed(t: Table, batch: seq<Violation>)
    requires WellFormed(t)
    ensures WellFormed(Merge(t, batch))
  {
    if batch != [] {
      MergeWellFormed(t, batch[..|batch| - 1]);
      AppendWellFormed(Merge(t, batch[..|batch| - 1]), batch[|batch| - 1]);
    }
  }

  /** After the merge, every incoming record sits at the end of its serial's
      list, after all earlier entries and in batch order; a serial that had no
      key gets exactly its incoming records. */
  lemma {:induction false} MergeAppendsInOrder(t: Table, batch: seq<Violation>, k: string)
    ensures Lookup(Merge(t, batch), k) == Lookup(t, k) + OfSerial(batch, k)
  {
    if batch != [] {
      MergeAppendsInOrder(t, batch[..|batch| - 1], k);
    }
  }

  /** The merge keeps every existing key in its place and puts new keys after
      them; a key is present afterwards iff it was before or the batch has a
      record for it. */
  lemma {:induction false} MergeKeys(t: Table, batch: seq<Violation>, k: string)
    requires WellFormed(t)
    ensures |t.order| <= |Merge(t, batch).order| && Merge(t, batch).order[..|t.order|] == t.order
    ensures k in Merge(t, batch).lists <==> k in t.lists || OfSerial(batch, k) != []
    ensures Merge(t, batch).order == t.order + NewSerials(t.lists.Keys, batch)
  {
    MergeKeyOrder(t, batch);
    MergeWellFormed(t, batch);
    if batch != [] {
      MergeKeys(t, batch[..|batch| - 1], k);
      MergeWellFormed(t, batch[..|batch| - 1]);
      MergeAppendsInOrder(t, batch[..|batch| - 1], k);
      MergeAppendsInOrder(t, batch, k);
    } else {
      assert t.order[..|t.order|] == t.order;
    }
  }

  /** The serials of `batch` that are not among `keys`, each once, in the order
      of their first record. */
  function NewSerials(keys: set<string>, batch: seq<Violation>): seq<string>
    decreases |batch|
  {
    if batch == [] then []
    else if batch[0].serialNumber in keys then NewSerials(keys, batch[1..])
    else [batch[0].serialNumber] + NewSerials(keys + {batch[0].serialNumber}, batch[1..])
  }

  /** The new serials are exactly the batch's serials that are not keys yet,
      each listed once. */
  lemma {:induction false} NewSerialsMembers(keys: set<string>, batch: seq<Violation>)
    ensures forall x :: x in NewSerials(keys, batch) <==> x !in keys && exists v :: v in batch && v.serialNumber == x
    ensures Distinct(NewSerials(keys, batch))
    decreases |batch|
  {
    if batch != [] {
      var s := batch[0].serialNumber;
      var keys' := if s in keys then keys else keys + {s};
      NewSerialsMembers(keys', batch[1..]);
      assert batch == [batch[0]] + batch[1..];
      assert forall v :: v in batch[1..] ==> v in batch;
    }
  }

  /** Merging `a` then `b` is merging `a + b`. */
  lemma {:induction false} MergeConcat(t: Table, a: seq<Violation>, b: seq<Violation>)
    ensures Merge(t, a + b) == Merge(Merge(t, a), b)
  {
    if b == [] {
      assert a + b == a;
    } else {
      assert (a + b)[..|a + b| - 1] == a + b[..|b| - 1];
      MergeConcat(t, a, b[..|b| - 1]);
    }
  }

  /** Merging a one-record batch is one push. */
  lemma MergeOne(t: Table, v: Violation)
    ensures Merge(t, [v]) == Append(t, v)
  {
    assert [v][..0] == [];
  }

  /** One push adds the serial to the keys, and to the end of the key order
      when it is new. */
  lemma AppendKeys(t: Table, v: Violation)
    ensures Append(t, v).lists.Keys == t.lists.Keys + {v.serialNumber}
    ensures Append(t, v).order == t.order + (if v.serialNumber in t.lists then [] else [v.serialNumber])
  {
  }

  /** The first record of a batch contributes its serial when it is new. */
  lemma NewSerialsFirst(keys: set<string>, v: Violation, rest: seq<Violation>)
    ensures NewSerials(keys, [v] + rest)
         == (if v.serialNumber in keys then [] else [v.serialNumber]) + NewSerials(keys + {v.serialNumber}, rest)
  {
    assert ([v] + rest)[1..] == rest;
    if v.serialNumber in keys {
      assert keys + {v.serialNumber} == keys;
    }
  }

  /** The merge appends new keys in the order of their first record in the
      batch: the key order after it is the old order followed by the new
      serials. This fixes the order of `Object.values` and so of the list the
      server sends. */
  lemma {:induction false} MergeKeyOrder(t: Table, batch: seq<Violation>)
    ensures Merge(t, batch).order == t.order + NewSerials(t.lists.Keys, batch)
    decreases |batch|
  {
    if batch != [] {
      var v, rest := batch[0], batch[1..];
      var keys, head := t.lists.Keys, if v.serialNumber in t.lists then [] else [v.serialNumber];
      var tail := NewSerials(keys + {v.serialNumber}, rest);
      assert batch == [v] + rest;
      MergeConcat(t, [v], rest);
      MergeOne(t, v);
      AppendKeys(t, v);
      MergeKeyOrder(Append(t, v), rest);
      assert Merge(t, batch).order == (t.order + head) + tail;
      NewSerialsFirst(keys, v, rest);
      assert NewSerials(keys, batch) == head + tail;
    }
  }

  // ---------------------------------------------------------------------------
  // Eviction: the forEach over Object.keys that filters out old records and
  // deletes keys whose list became empty.

  /** `filter(drone => new Date(drone.timestamp) > cutoff)`: the records
      strictly after the cutoff, in their original order. */
  function Recent(l: seq<Violation>, cutoff: int): seq<Violation>
  {
    if l == [] then []
    else Recent(l[..|l| - 1], cutoff) + (if l[|l| - 1].timestamp > cutoff then [l[|l| - 1]] else [])
  }

  /** `s` with `k` deleted, the rest in order: what `delete` does to the order
      of an object's keys. */
  function Without(s: seq<string>, k: string): seq<string>
  {
    if s == [] then []
    else Without(s[..|s| - 1], k) + (if s[|s| - 1] == k then [] else [s[|s| - 1]])
  }

  /** One iteration for key `k`: keep its recent records, or delete the key
      when none is left. */
  function EvictKey(t: Table, k: string, cutoff: int): Table
  {
    if k !in t.lists then t
    else if Recent(t.lists[k], cutoff) == [] then Table(Without(t.order, k), t.lists - {k})
    else Table(t.order, t.lists[k := Recent(t.lists[k], cutoff)])
  }

  /** The loop over the keys `ks`, in order. */
  function EvictKeys(t: Table, ks: seq<string>, cutoff: int): Table
  {
    if ks == [] then t else EvictKey(EvictKeys(t, ks[..|ks| - 1], cutoff), ks[|ks| - 1], cutoff)
  }

  /** The whole eviction pass over the keys present when it starts. */
  function Evict(t: Table, cutoff: int): Table
  {
    EvictKeys(t, t.order, cutoff)
  }

  /** `s` restricted to the members of `keep`, in order. */
  function Keep(s: seq<string>, keep: set<string>): seq<string>
  {
    if s == [] then [] else Keep(s[..|s| - 1], keep) + (if s[|s| - 1] in keep then [s[|s| - 1]] else [])
  }

  /** The filter keeps exactly the records strictly after the cutoff, each as
      often as it occurs. */
  lemma {:induction false} RecentCounts(l: seq<Violation>, cutoff: int, v: Violation)
    ensures multiset(Recent(l, cutoff))[v] == if v.timestamp > cutoff then multiset(l)[v] else 0
  {
    if l != [] {
      var prefix, last := l[..|l| - 1], l[|l| - 1];
      RecentCounts(prefix, cutoff, v);
      assert l == prefix + [last];
      assert multiset(l) == multiset(prefix) + multiset{last};
      var tail := if last.timestamp > cutoff then [last] else [];
      assert Recent(l, cutoff) == Recent(prefix, cutoff) + tail;
      assert multiset(Recent(l, cutoff)) == multiset(Recent(prefix, cutoff)) + multiset(tail);
    }
  }

  lemma RecentMembers(l: seq<Violation>, cutoff: int)
    ensures forall v :: v in Recent(l, cutoff) <==> v in l && v.timestamp > cutoff
  {
    forall v
      ensures v in Recent(l, cutoff) <==> v in l && v.timestamp > cutoff
    {
      RecentCounts(l, cutoff, v);
      assert v in Recent(l, cutoff) <==> multiset(Recent(l, cutoff))[v] > 0;
      assert v in l <==> multiset(l)[v] > 0;
    }
  }

  /** The filter keeps the relative order: it distributes over concatenation. */
  lemma {:induction false} RecentConcat(a: seq<Violation>, b: seq<Violation>, cutoff: int)
    ensures Recent(a + b, cutoff) == Recent(a, cutoff) + Recent(b, cutoff)
  {
    if b != [] {
      assert (a + b)[..|a + b| - 1] == a + b[..|b| - 1];
      RecentConcat(a, b[..|b| - 1], cutoff);
    } else {
      assert a + b == a;
    }
  }

  /** A list comes through the filter unchanged iff all of its records are
      recent. */
  lemma {:induction false} RecentUnchanged(l: seq<Violation>, cutoff: int)
    ensures Recent(l, cutoff) == l <==> forall v :: v in l ==> v.timestamp > cutoff
  {
    if forall v :: v in l ==> v.timestamp > cutoff {
      RecentAllRecent(l, cutoff);
    } else {
      var v :| v in l && v.timestamp <= cutoff;
      RecentMembers(l, cutoff);
      assert v !in Recent(l, cutoff);
    }
  }

  lemma {:induction false} RecentAllRecent(l: seq<Violation>, cutoff: int)
    requires forall v :: v in l ==> v.timestamp > cutoff
    ensures Recent(l, cutoff) == l
  {
    if l != [] {
      var prefix, last := l[..|l| - 1], l[|l| - 1];
      assert l == prefix + [last];
      assert last in l;
      assert forall v :: v in prefix ==> v in l;
      RecentAllRecent(prefix, cutoff);
    }
  }

  lemma {:induction false} RecentIdempotent(l: seq<Violation>, cutoff: int)
    ensures Recent(Recent(l, cutoff), cutoff) == Recent(l, cutoff)
  {
    RecentMembers(l, cutoff);
    RecentUnchanged(Recent(l, cutoff), cutoff);
  }

  lemma {:induction false} WithoutMembers(s: seq<string>, k: string)
    ensures forall x :: x in Without(s, k) <==> x in s && x != k
    ensures Distinct(s) ==> Distinct(Without(s, k))
  {
    if s != [] {
      WithoutMembers(s[..|s| - 1], k);
      assert s == s[..|s| - 1] + [s[|s| - 1]];
      if Distinct(s) {
        assert Distinct(s[..|s| - 1]);
        assert s[|s| - 1] !in s[..|s| - 1];
      }
    }
  }

  lemma {:induction false} WithoutKeep(s: seq<string>, keep: set<string>, k: string)
    ensures Without(Keep(s, keep), k) == Keep(s, keep - {k})
  {
    if s != [] {
      var s' := s[..|s| - 1];
      var last := s[|s| - 1];
      WithoutKeep(s', keep, k);
      if last in keep {
        var p := Keep(s', keep) + [last];
        assert Keep(s, keep) == p;
        assert p[..|p| - 1] == Keep(s', keep);
        assert Without(p, k) == Without(Keep(s', keep), k) + (if last == k then [] else [last]);
      } else {
        assert last !in keep - {k};
        assert Keep(s, keep) == Keep(s', keep) + [] == Keep(s', keep);
        assert Keep(s, keep - {k}) == Keep(s', keep - {k}) + [] == Keep(s', keep - {k});
      }
    }
  }

  lemma {:induction false} KeepAll(s: seq<string>, keep: set<string>)
    requires forall x :: x in s ==> x in keep
    ensures Keep(s, keep) == s
  {
    if s != [] {
      KeepAll(s[..|s| - 1], keep);
      assert s == s[..|s| - 1] + [s[|s| - 1]];
    }
  }

  lemma EvictKeyWellFormed(t: Table, k: string, cutoff: int)
    requires WellFormed(t)
    ensures WellFormed(EvictKey(t, k, cutoff))
  {
    if k in t.lists {
      RecentMembers(t.lists[k], cutoff);
      WithoutMembers(t.order, k);
    }
  }

  lemma {:induction false} EvictKeysWellFormed(t: Table, ks: seq<string>, cutoff: int)
    requires WellFormed(t)
    ensures WellFormed(EvictKeys(t, ks, cutoff))
  {
    if ks != [] {
      EvictKeysWellFormed(t, ks[..|ks| - 1], cutoff);
      EvictKeyWellFormed(EvictKeys(t, ks[..|ks| - 1], cutoff), ks[|ks| - 1], cutoff);
    }
  }

  /** After the loop over `ks`: a visited key holds its recent records and is
      present iff it has one; an unvisited key is as before. */
  lemma {:induction false} EvictKeysLists(t: Table, ks: seq<string>, cutoff: int, k: string)
    ensures k in ks ==> Lookup(EvictKeys(t, ks, cutoff), k) == Recent(Lookup(t, k), cutoff)
    ensures k !in ks ==> Lookup(EvictKeys(t, ks, cutoff), k) == Lookup(t, k)
    ensures k in EvictKeys(t, ks, cutoff).lists <==> Lookup(EvictKeys(t, ks, cutoff), k) != [] || (k !in ks && k in t.lists)
  {
    if ks != [] {
      var ks' := ks[..|ks| - 1];
      EvictKeysLists(t, ks', cutoff, k);
      if k == ks[|ks| - 1] && k in ks' {
        RecentIdempotent(Lookup(t, k), cutoff);
      }
    }
  }

  /** One step of the loop over a table's own keys: the next key is still
      present, and visiting it is one more `EvictKey`. */
  lemma EvictKeysStep(t: Table, i: nat, cutoff: int)
    requires WellFormed(t) && i < |t.order|
    ensures t.order[i] in EvictKeys(t, t.order[..i], cutoff).lists
    ensures EvictKeys(t, t.order[..i + 1], cutoff) == EvictKey(EvictKeys(t, t.order[..i], cutoff), t.order[i], cutoff)
  {
    var k := t.order[i];
    NotInPrefix(t.order, i);
    EvictKeysLists(t, t.order[..i], cutoff, k);
    assert t.order[..i + 1][..i] == t.order[..i];
  }

  /** Keys keep their relative order; only deleted keys leave the order. */
  lemma {:induction false} EvictKeysOrder(t: Table, ks: seq<string>, cutoff: int)
    requires WellFormed(t)
    ensures EvictKeys(t, ks, cutoff).order == Keep(t.order, EvictKeys(t, ks, cutoff).lists.Keys)
  {
    if ks == [] {
      KeepAll(t.order, t.lists.Keys);
    } else {
      var ks' := ks[..|ks| - 1];
      var m := EvictKeys(t, ks', cutoff);
      EvictKeysOrder(t, ks', cutoff);
      var k := ks[|ks| - 1];
      if k in m.lists && Recent(m.lists[k], cutoff) == [] {
        WithoutKeep(t.order, m.lists.Keys, k);
        assert (m.lists - {k}).Keys == m.lists.Keys - {k};
      } else if k in m.lists {
        assert m.lists[k := Recent(m.lists[k], cutoff)].Keys == m.lists.Keys;
      }
    }
  }

  /** Eviction at `cutoff`: what is left is well formed, every record left is
      strictly after the cutoff (a record exactly at it is gone), a key stays
      iff one of its records survives, survivors keep their relative order and
      a key whose records all survive keeps its list unchanged. */
  lemma EvictSpec(t: Table, cutoff: int)
    requires WellFormed(t)
    ensures WellFormed(Evict(t, cutoff))
    ensures forall k, v :: k in Evict(t, cutoff).lists && v in Evict(t, cutoff).lists[k] ==> v.timestamp > cutoff
    ensures forall k :: k in Evict(t, cutoff).lists <==> k in t.lists && Recent(t.lists[k], cutoff) != []
    ensures forall k :: k in Evict(t, cutoff).lists ==> Evict(t, cutoff).lists[k] == Recent(t.lists[k], cutoff)
    ensures forall k :: k in t.lists && (forall v :: v in t.lists[k] ==> v.timestamp > cutoff) ==>
              k in Evict(t, cutoff).lists && Evict(t, cutoff).lists[k] == t.lists[k]
    ensures Evict(t, cutoff).order == Keep(t.order, Evict(t, cutoff).lists.Keys)
  {
    var r := Evict(t, cutoff);
    EvictKeysWellFormed(t, t.order, cutoff);
    EvictKeysOrder(t, t.order, cutoff);
    forall k
      ensures k in r.lists <==> k in t.lists && Recent(t.lists[k], cutoff) != []
      ensures k in r.lists ==> r.lists[k] == Recent(t.lists[k], cutoff)
    {
      EvictKeysLists(t, t.order, cutoff, k);
    }
    forall k, v | k in r.lists && v in r.lists[k]
      ensures v.timestamp > cutoff
    {
      RecentMembers(t.lists[k], cutoff);
    }
    forall k | k in t.lists && (forall v :: v in t.lists[k] ==> v.timestamp > cutoff)
      ensures k in r.lists && r.lists[k] == t.lists[k]
    {
      RecentUnchanged(t.lists[k], cutoff);
    }
  }

  /** A whole update, merge then eviction: each serial's list becomes the
      recent part of its earlier records followed by the recent part of its
      incoming records, in batch order. */
  lemma UpdateLists(t: Table, batch: seq<Violation>, cutoff: int, k: string)
    requires WellFormed(t)
    ensures Lookup(Evict(Merge(t, batch), cutoff), k) == Recent(Lookup(t, k), cutoff) + Recent(OfSerial(batch, k), cutoff)
  {
    var m := Merge(t, batch);
    MergeWellFormed(t, batch);
    EvictSpec(m, cutoff);
    MergeAppendsInOrder(t, batch, k);
    RecentConcat(Lookup(t, k), OfSerial(batch, k), cutoff);
    assert Lookup(Evict(m, cutoff), k) == Recent(Lookup(m, k), cutoff);
  }

  // ---------------------------------------------------------------------------
  // Reduction: each key's list folded to its closest violation.

  /** `reduce((closest, curr) => !closest || curr.distToNest < closest.distToNest
      ? curr : closest, null)`, comparing distances under `o`. */
  function Closest(l: seq<Violation>, o: DistOrder): Option<Violation>
  {
    if l == [] then None
    else
      var acc := Closest(l[..|l| - 1], o);
      var curr := l[|l| - 1];
      if acc.None? || Less(o, curr.dist, acc.value.dist) then Some(curr) else acc
  }

  /** `l[i]` is the first closest record of `l`: no record is strictly closer,
      and every earlier record is strictly farther. */
  ghost predicate IsFirstClosest(l: seq<Violation>, o: DistOrder, i: int)
  {
    && 0 <= i < |l|
    && (forall j :: 0 <= j < |l| ==> !Less(o, l[j].dist, l[i].dist))
    && (forall j :: 0 <= j < i ==> Less(o, l[i].dist, l[j].dist))
  }

  /** Appending a record that is not strictly closer keeps the first closest
      index. */
  lemma FirstClosestKeep(l: seq<Violation>, o: DistOrder, i: int)
    requires |l| > 0 && IsFirstClosest(l[..|l| - 1], o, i)
    requires !Less(o, l[|l| - 1].dist, l[i].dist)
    ensures IsFirstClosest(l, o, i)
  {
    var prefix := l[..|l| - 1];
    assert forall j :: 0 <= j < |prefix| ==> prefix[j] == l[j];
  }

  /** A distance strictly below the best one is strictly below every distance
      that is not below the best. */
  lemma BelowBest(o: DistOrder, curr: nat, best: nat, d: nat)
    requires Less(o, curr, best) && !Less(o, d, best)
    ensures Less(o, curr, d) && !Less(o, d, curr)
  {
    if d != best {
      LessTotal(o, d, best);
      LessTransitive(o, curr, best, d);
    }
    if Less(o, d, curr) {
      LessTransitive(o, d, curr, best);
    }
  }

  /** Appending a strictly closer record makes it the first closest one. */
  lemma FirstClosestReplace(l: seq<Violation>, o: DistOrder, i: int)
    requires |l| > 0 && IsFirstClosest(l[..|l| - 1], o, i)
    requires Less(o, l[|l| - 1].dist, l[i].dist)
    ensures IsFirstClosest(l, o, |l| - 1)
  {
    var n := |l| - 1;
    var prefix := l[..n];
    forall j | 0 <= j < n
      ensures Less(o, l[n].dist, l[j].dist) && !Less(o, l[j].dist, l[n].dist)
    {
      assert prefix[j] == l[j];
      BelowBest(o, l[n].dist, l[i].dist, l[j].dist);
    }
    LessIrreflexive(o, l[n].dist);
  }

  /** The fold gives `null` only for an empty list; otherwise it gives the
      first closest record of the list, so on ties the earliest record wins. */
  lemma {:induction false} ClosestIsFirstClosest(l: seq<Violation>, o: DistOrder)
    ensures Closest(l, o).None? <==> l == []
    ensures l != [] ==> exists i :: IsFirstClosest(l, o, i) && Closest(l, o) == Some(l[i])
  {
    if l != [] {
      var n := |l| - 1;
      var prefix := l[..n];
      ClosestIsFirstClosest(prefix, o);
      if prefix == [] {
        LessIrreflexive(o, l[n].dist);
        assert IsFirstClosest(l, o, 0);
      } else {
        var i :| IsFirstClosest(prefix, o, i) && Closest(prefix, o) == Some(prefix[i]);
        assert prefix[i] == l[i];
        if Less(o, l[n].dist, l[i].dist) {
          FirstClosestReplace(l, o, i);
        } else {
          FirstClosestKeep(l, o, i);
        }
      }
    }
  }

  /** The first closest index is unique: no other index is one. */
  lemma FirstClosestUnique(l: seq<Violation>, o: DistOrder, i: int, j: int)
    requires IsFirstClosest(l, o, i) && 0 <= j < |l| && j != i
    ensures !IsFirstClosest(l, o, j)
  {
    if j < i {
      assert Less(o, l[i].dist, l[j].dist);
    } else {
      assert !Less(o, l[j].dist, l[i].dist);
    }
  }

  /** With the numeric order the fold gives a nearest record. */
  lemma NumericClosestIsNearest(l: seq<Violation>, v: Violation)
    requires Closest(l, Numeric) == Some(v)
    ensures v in l && forall w :: w in l ==> v.dist <= w.dist
  {
    ClosestIsFirstClosest(l, Numeric);
  }

  /** With the source's string comparison, a list holding a record at 9.50 m
      and a later one at 10.00 m reduces to the one at 10.00 m. */
  lemma AsWrittenPicksFarther(near: Violation, far: Violation)
    requires near.dist == 950 && far.dist == 1000
    ensures Closest([near, far], AsWritten) == Some(far)
    ensures Closest([near, far], Numeric) == Some(near)
  {
    AsWrittenMisordersTenMetres();
    assert [near, far][..1] == [near];
    assert [near][..0] == [];
    assert Closest([near], AsWritten) == Some(near);
    assert Closest([near], Numeric) == Some(near);
  }

  /** `Object.values(recentViolations).map(list => reduce ...)`. */
  function ClosestAll(t: Table, o: DistOrder): seq<Option<Violation>>
  {
    seq(|t.order|, i requires 0 <= i < |t.order| => Closest(Lookup(t, t.order[i]), o))
  }

  /** `entry` is the first closest record of key `k`'s list, and not `null`. */
  ghost predicate IsClosestOfKey(t: Table, o: DistOrder, k: string, entry: Option<Violation>)
  {
    && k in t.lists
    && entry.Some?
    && entry.value.serialNumber == k
    && exists j :: IsFirstClosest(t.lists[k], o, j) && entry.value == t.lists[k][j]
  }

  /** One entry per key, in key order; each is the first closest record of that
      key's list. */
  lemma ClosestAllSpec(t: Table, o: DistOrder)
    requires WellFormed(t)
    ensures |ClosestAll(t, o)| == |t.order|
    ensures forall i :: 0 <= i < |t.order| ==> IsClosestOfKey(t, o, t.order[i], ClosestAll(t, o)[i])
  {
    forall i | 0 <= i < |t.order|
      ensures IsClosestOfKey(t, o, t.order[i], ClosestAll(t, o)[i])
    {
      var l := t.lists[t.order[i]];
      ClosestIsFirstClosest(l, o);
      var j :| IsFirstClosest(l, o, j) && Closest(l, o) == Some(l[j]);
    }
  }
}
