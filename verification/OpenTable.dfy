/** The open-addressing hash table of src/lib/cef_hash.c.

    A slot is empty (`klen == 0`), a tombstone (`klen == -1`) or live.  This module works on
    the slots as a value: what probing, insertion and removal do to them, and why the result
    is still a finite map.  HashTable.dfy runs the loops on an array and is proved equal. */
module OpenTable {
  import opened Bytes
  import opened Counting

  datatype Slot<+E> = Empty | Tomb | Live(hash: nat, key: Key, elem: E)

  // ---------------------------------------------------------------- positions

  function Home(h: Key -> nat, key: Key, n: nat): (r: nat)
    requires 0 < n
    ensures r < n
  {
    h(key) % n
  }

  function Next(p: nat, n: nat): (r: nat)
    requires p < n
    ensures r < n
  {
    if p + 1 == n then 0 else p + 1
  }

  /** The slot `d` probes after `home`. */
  function Pos(home: nat, d: nat, n: nat): (r: nat)
    requires home < n && d < n
    ensures r < n
  {
    if home + d < n then home + d else home + d - n
  }

  /** Slot `q` is met by a probe that starts at `home` before slot `p` is. */
  predicate Before(home: nat, q: nat, p: nat) {
    if home <= p then home <= q < p else home <= q || q < p
  }

  // ---------------------------------------------------------------- operations

  predicate Matches<E>(s: Slot<E>, hash: nat, key: Key) {
    s.Live? && s.hash == hash && s.key == key
  }

  datatype Found = EmptyAt(i: nat) | KeyAt(i: nat) | Full(tomb: Option<nat>)

  /** What a probe for `key` meets from `d` steps after `home`, and the first tombstone on the
      way when it meets neither an empty slot nor the key. */
  function Find<E>(t: seq<Slot<E>>, hash: nat, key: Key, home: nat, d: nat, tomb: Option<nat>): (f: Found)
    requires home < |t| && d <= |t|
    requires tomb.Some? ==> tomb.value < |t| && t[tomb.value].Tomb?
    ensures match f
            case EmptyAt(i) => i < |t| && t[i].Empty?
            case KeyAt(i) => i < |t| && Matches(t[i], hash, key)
            case Full(r) => r.Some? ==> r.value < |t| && t[r.value].Tomb?
    decreases |t| - d
  {
    if d == |t| then Full(tomb) else
    var i := Pos(home, d, |t|);
    if t[i].Empty? then EmptyAt(i)
    else if Matches(t[i], hash, key) then KeyAt(i)
    else Find(t, hash, key, home, d + 1, if t[i].Tomb? && tomb.None? then Some(i) else tomb)
  }

  function Lookup<E>(h: Key -> nat, t: seq<Slot<E>>, key: Key): (r: Option<nat>)
    requires 0 < |t|
    ensures r.Some? ==> r.value < |t| && Matches(t[r.value], h(key), key)
  {
    var home := Home(h, key, |t|);
    if Matches(t[home], h(key), key) then Some(home)
    else match Find(t, h(key), key, home, 1, None)
         case KeyAt(i) => Some(i)
         case _ => None
  }

  /** The slot an insertion writes, if there is one.  The home slot is never compared. */
  function Target<E>(h: Key -> nat, t: seq<Slot<E>>, key: Key): (r: Option<nat>)
    requires 0 < |t|
    ensures r.Some? ==> r.value < |t| && (t[r.value].Live? ==> Matches(t[r.value], h(key), key))
  {
    var home := Home(h, key, |t|);
    if t[home].Empty? then Some(home)
    else match Find(t, h(key), key, home, 1, None)
         case EmptyAt(i) => Some(i)
         case KeyAt(i) => Some(i)
         case Full(tomb) => tomb
  }

  function Insert<E>(h: Key -> nat, t: seq<Slot<E>>, key: Key, elem: E): (r: seq<Slot<E>>)
    requires 0 < |t|
  {
    match Target(h, t, key)
    case Some(i) => t[i := Live(h(key), key, elem)]
    case None => t
  }

  /** Empties the tombstones at `x`, `x - 1`, ... above `stop`. */
  function Sweep<E>(t: seq<Slot<E>>, x: int, stop: int): (r: seq<Slot<E>>)
    requires -1 <= stop && x < |t|
    ensures |r| == |t|
    decreases x - stop
  {
    if x > stop && t[x].Tomb? then Sweep(t[x := Empty], x - 1, stop) else t
  }

  /** The clean-up after slot `p` was made a tombstone. */
  function Tidied<E>(t: seq<Slot<E>>, p: nat): (r: seq<Slot<E>>)
    requires p < |t|
    ensures |r| == |t|
  {
    if !t[Next(p, |t|)].Empty? then t else
    var low := Sweep(t[p := Empty], p - 1, -1);
    if low[0].Empty? then Sweep(low, |t| - 1, p) else low
  }

  function Remove<E>(h: Key -> nat, t: seq<Slot<E>>, key: Key): (r: seq<Slot<E>>)
    requires 0 < |t|
  {
    match Lookup(h, t, key)
    case Some(p) => Tidied(t[p := Tomb], p)
    case None => t
  }

  // ---------------------------------------------------------------- the table invariant

  /** `at` says which slot holds which key; no probe for a stored key meets an empty slot. */
  ghost predicate Table<E>(h: Key -> nat, t: seq<Slot<E>>, at: map<Key, nat>) {
    && 0 < |t|
    && (forall k <- at :: at[k] < |t| && t[at[k]].Live? && t[at[k]].key == k)
    && (forall p | 0 <= p < |t| && t[p].Live? ::
          t[p].hash == h(t[p].key) && t[p].key in at && at[t[p].key] == p)
    && (forall k, q | k in at && 0 <= q < |t| && Before(Home(h, k, |t|), q, at[k]) :: !t[q].Empty?)
  }

  ghost function Contents<E>(h: Key -> nat, t: seq<Slot<E>>, at: map<Key, nat>): (m: map<Key, E>)
    requires Table(h, t, at)
  {
    map k | k in at :: t[at[k]].elem
  }

  /** No tombstone is immediately followed, cyclically, by an empty slot, except perhaps at `x`. */
  ghost predicate TidyExcept<E>(t: seq<Slot<E>>, x: int) {
    forall p | 0 <= p < |t| && p != x && t[p].Tomb? :: !t[Next(p, |t|)].Empty?
  }

  ghost predicate Tidy<E>(t: seq<Slot<E>>) {
    TidyExcept(t, -1)
  }

  // ---------------------------------------------------------------- probing

  /** A probe for `key` goes past this slot. */
  predicate Blocked<E>(s: Slot<E>, hash: nat, key: Key) {
    !s.Empty? && !Matches(s, hash, key)
  }

  /** Slot `i` is at least `d` probes after `home` and a probe goes past every slot in between. */
  ghost predicate Passed<E>(t: seq<Slot<E>>, hash: nat, key: Key, home: nat, d: nat, i: nat)
    requires home < |t|
  {
    exists e: nat | d <= e < |t| ::
      Pos(home, e, |t|) == i && forall g | d <= g < e :: Blocked(t[Pos(home, g, |t|)], hash, key)
  }

  /** What each outcome of a probe says about the slots it passed. */
  lemma {:induction false} FindMeets<E>(t: seq<Slot<E>>, hash: nat, key: Key, home: nat, d: nat, tomb: Option<nat>)
    requires home < |t| && 0 < d <= |t|
    requires tomb.Some? ==> tomb.value < |t| && t[tomb.value].Tomb?
    ensures var f := Find(t, hash, key, home, d, tomb);
            match f
            case EmptyAt(i) => Passed(t, hash, key, home, d, i)
            case KeyAt(i) => Passed(t, hash, key, home, d, i)
            case Full(r) =>
              && (forall g | d <= g < |t| :: Blocked(t[Pos(home, g, |t|)], hash, key))
              && (tomb.Some? ==> r == tomb)
              && (tomb.None? && r.None? ==> forall g | d <= g < |t| :: t[Pos(home, g, |t|)].Live?)
              && (tomb.None? && r.Some? ==> r.value != home)
    decreases |t| - d
  {
    if d < |t| {
      var i := Pos(home, d, |t|);
      if !t[i].Empty? && !Matches(t[i], hash, key) {
        FindMeets(t, hash, key, home, d + 1, if t[i].Tomb? && tomb.None? then Some(i) else tomb);
      }
    }
  }

  /** Every slot other than `home` is some number of probes after it. */
  lemma PosCovers(home: nat, p: nat, n: nat) returns (d: nat)
    requires home < n && p < n
    ensures d < n && Pos(home, d, n) == p && (p != home ==> 0 < d)
    ensures forall g | 0 <= g < n :: g < d <==> Before(home, Pos(home, g, n), p)
  {
    d := if home <= p then p - home else p + n - home;
  }

  /** Lookup finds exactly the stored keys, each in its own slot. */
  lemma LookupFinds<E>(h: Key -> nat, t: seq<Slot<E>>, at: map<Key, nat>, key: Key)
    requires Table(h, t, at)
    ensures Lookup(h, t, key) == if key in at then Some(at[key]) else None
  {
    var home := Home(h, key, |t|);
    FindMeets(t, h(key), key, home, 1, None);
    if key in at && at[key] != home {
      var d := PosCovers(home, at[key], |t|);
      assert forall g | 0 <= g < d :: !t[Pos(home, g, |t|)].Empty?;
    }
  }

  // ---------------------------------------------------------------- insertion

  /** The key sits in the very slot it hashes to, the one slot an insertion does not compare. */
  predicate AtHome<E>(h: Key -> nat, t: seq<Slot<E>>, key: Key)
    requires 0 < |t|
  {
    Matches(t[Home(h, key, |t|)], h(key), key)
  }

  /** No slot is left for `key`: its home is not empty and every other slot is live. */
  ghost predicate NoRoom<E>(h: Key -> nat, t: seq<Slot<E>>, key: Key)
    requires 0 < |t|
  {
    var home := Home(h, key, |t|);
    !t[home].Empty? && forall q | 0 <= q < |t| && q != home :: t[q].Live?
  }

  /** FindMeets for a whole probe, in terms of the arc of slots it went past. */
  lemma FindArc<E>(t: seq<Slot<E>>, hash: nat, key: Key, home: nat)
    requires home < |t|
    ensures var f := Find(t, hash, key, home, 1, None);
            forall q | 0 <= q < |t| && q != home ::
              && (f.Full? ==> Blocked(t[q], hash, key) && (f.tomb.None? ==> t[q].Live?))
              && (!f.Full? ==> f.i != home && (Before(home, q, f.i) ==> Blocked(t[q], hash, key)))
  {
    FindMeets(t, hash, key, home, 1, None);
    var f := Find(t, hash, key, home, 1, None);
    forall q | 0 <= q < |t| && q != home
      ensures f.Full? ==> Blocked(t[q], hash, key) && (f.tomb.None? ==> t[q].Live?)
      ensures !f.Full? ==> f.i != home && (Before(home, q, f.i) ==> Blocked(t[q], hash, key))
    {
      var g := PosCovers(home, q, |t|);
      if !f.Full? {
        var e: nat :| 1 <= e < |t| && Pos(home, e, |t|) == f.i
          && forall g | 1 <= g < e :: Blocked(t[Pos(home, g, |t|)], hash, key);
      }
    }
  }

  /** Where an insertion writes: over the key's own entry, or over a dead slot that no probe for
      the key passes an empty slot to reach.  It fails exactly when there is no room. */
  lemma TargetFits<E>(h: Key -> nat, t: seq<Slot<E>>, at: map<Key, nat>, key: Key)
    requires Table(h, t, at) && !AtHome(h, t, key)
    ensures match Target(h, t, key)
            case None => key !in at && NoRoom(h, t, key)
            case Some(r) =>
              && r < |t|
              && (if key in at then r == at[key] else !t[r].Live? && !NoRoom(h, t, key))
              && forall q | 0 <= q < |t| && Before(Home(h, key, |t|), q, r) :: !t[q].Empty?
  {
    var home := Home(h, key, |t|);
    LookupFinds(h, t, at, key);
    if !t[home].Empty? {
      FindMeets(t, h(key), key, home, 1, None);
      FindArc(t, h(key), key, home);
      assert Find(t, h(key), key, home, 1, None).KeyAt? <==> key in at;
    }
  }

  /** A probe that ends without an empty slot or the key reports the first tombstone on its way. */
  lemma {:induction false} FirstTomb<E>(t: seq<Slot<E>>, hash: nat, key: Key, home: nat, d: nat) returns (e: nat)
    requires home < |t| && 0 < d <= |t|
    requires var f := Find(t, hash, key, home, d, None); f.Full? && f.tomb.Some?
    ensures d <= e < |t| && Pos(home, e, |t|) == Find(t, hash, key, home, d, None).tomb.value
    ensures forall g | d <= g < e :: t[Pos(home, g, |t|)].Live?
    decreases |t| - d
  {
    if t[Pos(home, d, |t|)].Tomb? {
      FindMeets(t, hash, key, home, d + 1, Some(Pos(home, d, |t|)));
      e := d;
    } else {
      e := FirstTomb(t, hash, key, home, d + 1);
    }
  }

  /** An insertion reuses a tombstone only when no slot is empty and no other slot has the key, and
      then the first one behind the home slot; a tombstone in the home slot it never reuses. */
  lemma TombReused<E>(h: Key -> nat, t: seq<Slot<E>>, key: Key)
    requires 0 < |t| && Target(h, t, key).Some? && t[Target(h, t, key).value].Tomb?
    ensures var home, r := Home(h, key, |t|), Target(h, t, key).value;
            && r != home && !t[home].Empty?
            && forall q | 0 <= q < |t| && q != home ::
                 Blocked(t[q], h(key), key) && (Before(home, q, r) ==> t[q].Live?)
  {
    var home, r := Home(h, key, |t|), Target(h, t, key).value;
    FindMeets(t, h(key), key, home, 1, None);
    FindArc(t, h(key), key, home);
    var e := FirstTomb(t, h(key), key, home, 1);
    forall q | 0 <= q < |t| && q != home && Before(home, q, r) ensures t[q].Live? {
      var g := PosCovers(home, q, |t|);
      var d := PosCovers(home, r, |t|);
      assert d == e;
    }
  }

  /** Storing a key that is not already in its home slot updates the map, and moves nothing else. */
  lemma InsertUpdates<E>(h: Key -> nat, t: seq<Slot<E>>, at: map<Key, nat>, key: Key, elem: E)
    requires Table(h, t, at) && !AtHome(h, t, key)
    requires Target(h, t, key).Some?
    ensures var r := Target(h, t, key).value;
            var t' := Insert(h, t, key, elem);
            && Table(h, t', at[key := r])
            && Contents(h, t', at[key := r]) == Contents(h, t, at)[key := elem]
            && (Tidy(t) ==> Tidy(t'))
  {
    TargetFits(h, t, at, key);
  }

  /** Storing a key over itself in its home slot makes a second live entry for it, and the slots
      no longer represent any map. */
  lemma HomeClash<E>(h: Key -> nat, t: seq<Slot<E>>, at: map<Key, nat>, key: Key, elem: E)
    requires Table(h, t, at) && AtHome(h, t, key)
    requires Target(h, t, key).Some?
    ensures !exists at' :: Table(h, Insert(h, t, key, elem), at')
  {
    var home := Home(h, key, |t|);
    FindMeets(t, h(key), key, home, 1, None);
    var r := Target(h, t, key).value;
    assert r != home && r < |t|;
    var t' := Insert(h, t, key, elem);
    forall at' ensures !Table(h, t', at') {
      assert t'[home].Live? && t'[r].Live? && t'[home].key == t'[r].key;
    }
  }

  /** Writing a new element into the slot of a stored key. */
  lemma ModifyUpdates<E>(h: Key -> nat, t: seq<Slot<E>>, at: map<Key, nat>, key: Key, elem: E)
    requires Table(h, t, at) && key in at
    ensures var t' := t[at[key] := Live(h(key), key, elem)];
            && t[at[key]].Live? && t[at[key]].(elem := elem) == Live(h(key), key, elem)
            && Table(h, t', at)
            && Contents(h, t', at) == Contents(h, t, at)[key := elem]
  {
  }

  lemma OthersStored<E>(h: Key -> nat, t: seq<Slot<E>>, at: map<Key, nat>, key: Key, q: nat)
    requires Table(h, t, at) && NoRoom(h, t, key)
    requires q < |t| && q != Home(h, key, |t|)
    ensures t[q].Live? && t[q].key in at && at[t[q].key] == q
  {
  }

  /** A table has no room for a key only if at most one of its slots is not live. */
  lemma NoRoomSize<E>(h: Key -> nat, t: seq<Slot<E>>, at: map<Key, nat>, key: Key)
    requires Table(h, t, at) && NoRoom(h, t, key)
    ensures |at| >= |t| - 1
  {
    assert 0 < |t|;
    hide Table, NoRoom, Home;
    var others := Range(0, |t|) - {Home(h, key, |t|)};
    RangeSize(0, |t|);
    forall q <- others ensures t[q].Live? && t[q].key in at && at[t[q].key] == q {
      OthersStored(h, t, at, key, q);
    }
    var keys := map q | q in others :: t[q].key;
    assert keys.Keys == others;
    Pigeonhole(keys, at.Keys);
  }

  // ---------------------------------------------------------------- removal

  lemma BuryKeeps<E>(h: Key -> nat, t: seq<Slot<E>>, at: map<Key, nat>, key: Key)
    requires Table(h, t, at) && key in at
    ensures var t' := t[at[key] := Tomb];
            && Table(h, t', at - {key})
            && Contents(h, t', at - {key}) == Contents(h, t, at) - {key}
  {
  }

  /** A dead slot whose successor is empty is on no stored key's probe path. */
  lemma EmptyKeeps<E>(h: Key -> nat, t: seq<Slot<E>>, at: map<Key, nat>, p: nat)
    requires Table(h, t, at) && p < |t| && t[p].Tomb? && t[Next(p, |t|)].Empty?
    ensures Table(h, t[p := Empty], at)
  {
  }

  /** The slot before `x + 1`: `x` itself, or the last slot when `x` has run off the front. */
  function Behind(x: int, n: nat): int {
    if x < 0 then n - 1 else x
  }

  /** Freeing a slot moves the one untidy place to the slot before it. */
  lemma EmptyTidies<E>(t: seq<Slot<E>>, x: nat)
    requires x < |t| && t[x].Tomb? && t[Next(x, |t|)].Empty?
    ensures TidyExcept(t, Behind(x, |t|)) ==> TidyExcept(t[x := Empty], Behind(x - 1, |t|))
  {
  }

  lemma StopTidy<E>(t: seq<Slot<E>>, x: int, stop: int)
    requires -1 <= stop <= x < |t| && (x == stop || !t[x].Tomb?)
    ensures TidyExcept(t, Behind(x, |t|)) ==> TidyExcept(t, Behind(stop, |t|))
  {
  }

  /** A sweep that starts right behind an empty slot frees only slots no probe needs, and moves
      the one place where a tombstone may precede an empty slot to the end of its range. */
  lemma {:induction false} SweepKeeps<E>(h: Key -> nat, t: seq<Slot<E>>, at: map<Key, nat>, x: int, stop: int)
    requires Table(h, t, at) && -1 <= stop <= x < |t|
    requires 0 <= x ==> t[Next(x, |t|)].Empty?
    ensures var r := Sweep(t, x, stop);
            && Table(h, r, at)
            && (forall q | 0 <= q < |t| :: r[q] == t[q] || (stop < q <= x && t[q].Tomb? && r[q].Empty?))
            && (TidyExcept(t, Behind(x, |t|)) ==> TidyExcept(r, Behind(stop, |t|)))
    decreases x
  {
    hide Table, TidyExcept;
    if x > stop && t[x].Tomb? {
      EmptyKeeps(h, t, at, x);
      EmptyTidies(t, x);
      SweepKeeps(h, t[x := Empty], at, x - 1, stop);
    } else {
      StopTidy(t, x, stop);
    }
  }

  lemma SameContents<E>(h: Key -> nat, t: seq<Slot<E>>, t': seq<Slot<E>>, at: map<Key, nat>)
    requires Table(h, t, at) && Table(h, t', at) && |t| == |t'|
    requires forall q | 0 <= q < |t| && t[q].Live? :: t'[q] == t[q]
    ensures Contents(h, t', at) == Contents(h, t, at)
  {
  }

  /** The first half of the clean-up: slot `p` and the tombstones before it, down to the front. */
  lemma LowKeeps<E>(h: Key -> nat, t: seq<Slot<E>>, at: map<Key, nat>, p: nat)
    requires Table(h, t, at) && p < |t| && t[p].Tomb? && t[Next(p, |t|)].Empty?
    ensures var low := Sweep(t[p := Empty], p - 1, -1);
            && Table(h, low, at) && low[p].Empty?
            && (forall q | 0 <= q < |t| :: low[q] == t[q] || (t[q].Tomb? && low[q].Empty?))
            && (TidyExcept(t, p) ==> TidyExcept(low, |t| - 1))
  {
    EmptyKeeps(h, t, at, p);
    var freed := t[p := Empty];
    assert TidyExcept(t, p) ==> TidyExcept(freed, Behind(p - 1, |t|));
    SweepKeeps(h, freed, at, p - 1, -1);
  }

  /** The whole clean-up, across the wrap to the table end. */
  lemma TidiedKeeps<E>(h: Key -> nat, t: seq<Slot<E>>, at: map<Key, nat>, p: nat)
    requires Table(h, t, at) && p < |t| && t[p].Tomb?
    ensures var r := Tidied(t, p);
            && Table(h, r, at)
            && (forall q | 0 <= q < |t| :: r[q] == t[q] || (t[q].Tomb? && r[q].Empty?))
            && (TidyExcept(t, p) ==> Tidy(r))
  {
    if t[Next(p, |t|)].Empty? {
      LowKeeps(h, t, at, p);
      var low := Sweep(t[p := Empty], p - 1, -1);
      if low[0].Empty? {
        SweepKeeps(h, low, at, |t| - 1, p);
      }
    }
  }

  /** Removing a key drops exactly that key; every other key stays in its own slot, findable. */
  lemma RemoveUpdates<E>(h: Key -> nat, t: seq<Slot<E>>, at: map<Key, nat>, key: Key)
    requires Table(h, t, at)
    ensures var t' := Remove(h, t, key);
            && Table(h, t', at - {key})
            && Contents(h, t', at - {key}) == Contents(h, t, at) - {key}
            && |t'| == |t|
            && (forall q | 0 <= q < |t| && t'[q] != t[q] :: t[q].Tomb? || (t[q].Live? && t[q].key == key))
            && (Tidy(t) ==> Tidy(t'))
  {
    LookupFinds(h, t, at, key);
    if key in at {
      BuryKeeps(h, t, at, key);
      var buried := t[at[key] := Tomb];
      TidiedKeeps(h, buried, at - {key}, at[key]);
      SameContents(h, buried, Tidied(buried, at[key]), at - {key});
    } else {
      assert at - {key} == at;
    }
  }

  lemma DropSize(at: map<Key, nat>, key: Key)
    ensures |at - {key}| == if key in at then |at| - 1 else |at|
    ensures key !in at ==> at - {key} == at
  {
  }

  // ---------------------------------------------------------------- runs

  datatype Op<+E> =
    | Store(key: Key, elem: E)      // cef_hash_tbl_item_set
    | StoreNew(key: Key, elem: E)   // cef_hash_tbl_item_set_for_app
    | Drop(key: Key)                // cef_hash_tbl_item_remove
    | DropAt(index: nat)            // cef_hash_tbl_item_remove_from_index

  function Apply<E>(h: Key -> nat, t: seq<Slot<E>>, op: Op<E>): (r: seq<Slot<E>>)
    requires 0 < |t|
  {
    match op
    case Store(k, e) => Insert(h, t, k, e)
    case StoreNew(k, e) => if Lookup(h, t, k).Some? then t else Insert(h, t, k, e)
    case Drop(k) => Remove(h, t, k)
    case DropAt(i) => if i < |t| && t[i].Live? then t[i := Tomb] else t
  }

  function Run<E>(h: Key -> nat, t: seq<Slot<E>>, ops: seq<Op<E>>): (r: seq<Slot<E>>)
    requires 0 < |t|
    ensures |r| == |t|
    decreases |ops|
  {
    if ops == [] then t else Apply(h, Run(h, t, ops[..|ops| - 1]), ops[|ops| - 1])
  }

  /** No store goes over a key that is in its home slot. */
  ghost predicate Legal<E>(h: Key -> nat, t: seq<Slot<E>>, ops: seq<Op<E>>)
    requires 0 < |t|
    decreases |ops|
  {
    ops == [] ||
    var front, last := ops[..|ops| - 1], ops[|ops| - 1];
    Legal(h, t, front) && (last.Store? ==> !AtHome(h, Run(h, t, front), last.key))
  }

  /** The finite map the operations describe: a store that found room binds its key, a removal
      unbinds it. */
  ghost function Expected<E>(h: Key -> nat, t: seq<Slot<E>>, ops: seq<Op<E>>): map<Key, E>
    requires 0 < |t|
    decreases |ops|
  {
    if ops == [] then map[] else
    var before := Run(h, t, ops[..|ops| - 1]);
    var m := Expected(h, t, ops[..|ops| - 1]);
    match ops[|ops| - 1]
    case Store(k, e) => if k !in m && NoRoom(h, before, k) then m else m[k := e]
    case StoreNew(k, e) => if k in m || NoRoom(h, before, k) then m else m[k := e]
    case Drop(k) => m - {k}
    case DropAt(i) => if i < |before| && before[i].Live? then m - {before[i].key} else m
  }

  lemma ApplyRefines<E>(h: Key -> nat, t: seq<Slot<E>>, at: map<Key, nat>, op: Op<E>) returns (at': map<Key, nat>)
    requires Table(h, t, at)
    requires op.Store? ==> !AtHome(h, t, op.key)
    ensures var t' := Apply(h, t, op);
            var m := Contents(h, t, at);
            && Table(h, t', at')
            && (forall k | k in at && k in at' :: at'[k] == at[k])
            && Contents(h, t', at') == (
              match op
              case Store(k, e) => if k !in m && NoRoom(h, t, k) then m else m[k := e]
              case StoreNew(k, e) => if k in m || NoRoom(h, t, k) then m else m[k := e]
              case Drop(k) => m - {k}
              case DropAt(i) => if i < |t| && t[i].Live? then m - {t[i].key} else m)
            && (Tidy(t) && !op.DropAt? ==> Tidy(t'))
    decreases op.StoreNew?
  {
    match op {
      case Store(k, e) =>
        TargetFits(h, t, at, k);
        match Target(h, t, k) {
          case None => at' := at;
          case Some(r) => at' := at[k := r]; InsertUpdates(h, t, at, k, e);
        }
      case StoreNew(k, e) =>
        LookupFinds(h, t, at, k);
        if k in at {
          at' := at;
        } else {
          at' := ApplyRefines(h, t, at, Store(k, e));
        }
      case Drop(k) =>
        at' := at - {k};
        RemoveUpdates(h, t, at, k);
      case DropAt(i) =>
        if i < |t| && t[i].Live? {
          at' := at - {t[i].key};
          BuryKeeps(h, t, at, t[i].key);
        } else {
          at' := at;
        }
    }
  }

  /** Over every run from the empty table: the slots represent the expected map, and lookups
      return exactly its bindings.  Without removals by index the table stays tidy. */
  lemma {:induction false} RunRefines<E>(h: Key -> nat, n: nat, ops: seq<Op<E>>) returns (at: map<Key, nat>)
    requires 0 < n
    requires Legal(h, seq(n, _ => Slot<E>.Empty), ops)
    ensures var t0 := seq(n, _ => Slot<E>.Empty);
            var t := Run(h, t0, ops);
            && Table(h, t, at)
            && Contents(h, t, at) == Expected(h, t0, ops)
            && (forall k :: Lookup(h, t, k) == if k in Expected(h, t0, ops) then Some(at[k]) else None)
            && ((forall op <- ops :: !op.DropAt?) ==> Tidy(t))
    decreases |ops|
  {
    var t0 := seq(n, _ => Slot<E>.Empty);
    if ops == [] {
      at := map[];
    } else {
      var last := |ops| - 1;
      var before := RunRefines(h, n, ops[..last]);
      at := ApplyRefines(h, Run(h, t0, ops[..last]), before, ops[last]);
    }
    forall k {
      LookupFinds(h, Run(h, t0, ops), at, k);
    }
  }

  lemma ApplyStays<E>(h: Key -> nat, t: seq<Slot<E>>, at: map<Key, nat>, op: Op<E>, key: Key)
    returns (at': map<Key, nat>)
    requires Table(h, t, at) && key in at
    requires op.Store? ==> !AtHome(h, t, op.key)
    requires op != Drop(key) && op != DropAt(at[key])
    ensures Table(h, Apply(h, t, op), at') && key in at' && at'[key] == at[key]
  {
    at' := ApplyRefines(h, t, at, op);
    assert key in Contents(h, t, at);
    assert key in Contents(h, Apply(h, t, op), at');
  }

  /** Slots never move: as long as nothing removes a key, its slot number keeps naming it. */
  lemma {:induction false} SlotStays<E>(h: Key -> nat, t: seq<Slot<E>>, at: map<Key, nat>, ops: seq<Op<E>>, key: Key)
    returns (at': map<Key, nat>)
    requires Table(h, t, at) && key in at
    requires Legal(h, t, ops)
    requires forall op <- ops :: op != Drop(key) && op != DropAt(at[key])
    ensures Table(h, Run(h, t, ops), at') && key in at' && at'[key] == at[key]
    decreases |ops|
  {
    if ops == [] {
      at' := at;
    } else {
      var last := |ops| - 1;
      assert forall op <- ops[..last] :: op in ops;
      var before := SlotStays(h, t, at, ops[..last], key);
      assert ops[last] in ops;
      at' := ApplyStays(h, Run(h, t, ops[..last]), before, ops[last], key);
    }
  }

  // ---------------------------------------------------------------- two runs that go wrong

  lemma RunCons<E>(h: Key -> nat, t: seq<Slot<E>>, op: Op<E>, ops: seq<Op<E>>)
    requires 0 < |t|
    ensures Run(h, t, [op] + ops) == Run(h, Apply(h, t, op), ops)
    decreases |ops|
  {
    hide Apply;
    if ops == [] {
      assert ([op] + ops)[..0] == [] && ([op] + ops)[0] == op;
    } else {
      var last := |ops| - 1;
      RunCons(h, t, op, ops[..last]);
      assert ([op] + ops)[..|ops|] == [op] + ops[..last];
    }
  }

  /** Storing a key twice, the first time into its home slot: the key is then live in two slots,
      and a lookup goes on returning the element stored first. */
  lemma StoredTwice<E>(h: Key -> nat, key: Key, a: E, b: E)
    requires h(key) == 0
    ensures var t := Run(h, [Empty, Empty, Empty], [Store(key, a), Store(key, b)]);
            t == [Live(0, key, a), Live(0, key, b), Empty] && Lookup(h, t, key) == Some(0)
  {
    var t1 := [Live(0, key, a), Empty, Empty];
    RunCons(h, [Empty, Empty, Empty], Store(key, a), [Store(key, b)]);
    RunCons(h, t1, Store(key, b), []);
    assert [Store(key, b)] + [] == [Store(key, b)];
    assert [Store(key, a)] + [Store(key, b)] == [Store(key, a), Store(key, b)];
    hide Run;
    assert Find(t1, 0, key, 0, 1, None) == EmptyAt(1);
  }

  /** Two stores into a table of two slots and a removal by index. */
  lemma TombThenLive<E>(h: Key -> nat, x: Key, y: Key, e: E)
    requires h(x) == 0 && h(y) == 1
    ensures Run(h, [Empty, Empty], [Store(x, e), Store(y, e), DropAt(0)]) == [Tomb, Live(1, y, e)]
  {
    var t1, t2 := [Live(0, x, e), Empty], [Live(0, x, e), Live(1, y, e)];
    var o1, o2, o3 := Store(x, e), Store(y, e), DropAt(0);
    RunCons(h, [Empty, Empty], o1, [o2, o3]);
    RunCons(h, t1, o2, [o3]);
    RunCons(h, t2, o3, []);
    assert [o1] + [o2, o3] == [o1, o2, o3] && [o2] + [o3] == [o2, o3] && [o3] + [] == [o3];
    assert Run(h, Apply(h, t2, o3), []) == Apply(h, t2, o3);
    hide Run;
    assert Apply(h, [Empty, Empty], o1) == t1 && Apply(h, t1, o2) == t2;
  }

  /** An insertion can fail although a slot is free: the home slot is not used when it is a
      tombstone, as a removal by index leaves it. */
  lemma FreeHomeRefused<E>(h: Key -> nat, x: Key, y: Key, z: Key, e: E)
    requires h(x) == 0 && h(y) == 1 && h(z) == 2 && y != z
    ensures var t := Run(h, [Empty, Empty], [Store(x, e), Store(y, e), DropAt(0)]);
            Insert(h, t, z, e) == t == [Tomb, Live(1, y, e)] && Lookup(h, t, z) == None
  {
    TombThenLive(h, x, y, e);
    hide Run;
    var t: seq<Slot<E>> := [Tomb, Live(1, y, e)];
    assert Find(t, 2, z, 0, 1, None) == Find(t, 2, z, 0, 2, None) == Full(None);
  }
}
