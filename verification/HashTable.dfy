/** The mutable open-addressing table: the probing, insertion, removal and clean-up loops of
    src/lib/cef_hash.c on an array, proved equal to the slot functions of OpenTable.  The digest
    that hashes a key is an arbitrary function. */
module HashTable {
  import opened Bytes
  import opened Constants
  import opened OpenTable

  class OpenHash<E> {
    const h: Key -> nat
    const tbl: array<Slot<E>>
    const defElemMax: nat       // the size the user asked for
    var elemNum: int
    ghost var at: map<Key, nat> // the slot of every stored key

    ghost predicate Valid()
      reads this, tbl
    {
      && Table(h, tbl[..], at)
      && elemNum == |at|
      && forall k <- at :: 0 < |k| <= MAX_KLEN
    }

    /** The finite map the table stands for. */
    ghost function Map(): (m: map<Key, E>)
      reads this, tbl
      requires Valid()
      ensures m.Keys == at.Keys
    {
      Contents(h, tbl[..], at)
    }

    constructor (h: Key -> nat, size: nat, defElemMax: nat)
      requires 0 < size
      ensures Valid() && fresh(tbl)
      ensures this.h == h && tbl.Length == size && this.defElemMax == defElemMax
      ensures Map() == map[] && at == map[] && Tidy(tbl[..])
    {
      this.h := h;
      this.tbl := new Slot<E>[size](_ => Empty);
      this.defElemMax := defElemMax;
      this.elemNum := 0;
      this.at := map[];
    }

    /** The two probing loops: from the slot after `home` to the end, then from the front. */
    method Probe(hash: nat, key: Key, home: nat) returns (f: Found)
      requires home < tbl.Length
      ensures f == Find(tbl[..], hash, key, home, 1, None)
    {
      var tomb: Option<nat> := None;
      var n := tbl.Length;
      var i := home + 1;
      while i < n
        invariant home + 1 <= i <= n
        invariant tomb.Some? ==> tomb.value < n && tbl[tomb.value].Tomb?
        invariant Find(tbl[..], hash, key, home, 1, None) == Find(tbl[..], hash, key, home, i - home, tomb)
      {
        if tbl[i].Empty? {
          return EmptyAt(i);
        }
        if Matches(tbl[i], hash, key) {
          return KeyAt(i);
        }
        if tbl[i].Tomb? && tomb.None? {
          tomb := Some(i);
        }
        i := i + 1;
      }
      i := 0;
      while i < home
        invariant 0 <= i <= home
        invariant tomb.Some? ==> tomb.value < n && tbl[tomb.value].Tomb?
        invariant Find(tbl[..], hash, key, home, 1, None) == Find(tbl[..], hash, key, home, n - home + i, tomb)
      {
        if tbl[i].Empty? {
          return EmptyAt(i);
        }
        if Matches(tbl[i], hash, key) {
          return KeyAt(i);
        }
        if tbl[i].Tomb? && tomb.None? {
          tomb := Some(i);
        }
        i := i + 1;
      }
      return Full(tomb);
    }

    method Locate(key: Key) returns (r: Option<nat>)
      requires 0 < tbl.Length
      ensures r == Lookup(h, tbl[..], key)
    {
      var hash := h(key);
      var home := hash % tbl.Length;
      if Matches(tbl[home], hash, key) {
        return Some(home);
      }
      var f := Probe(hash, key, home);
      r := if f.KeyAt? then Some(f.i) else None;
    }

    method ItemGet(key: Key) returns (r: Option<E>)
      requires Valid()
      ensures r == if key in Map() then Some(Map()[key]) else None
    {
      LookupFinds(h, tbl[..], at, key);
      if |key| > MAX_KLEN {
        return None;
      }
      var p := Locate(key);
      if p.Some? {
        r := Some(tbl[p.value].elem);
      } else {
        r := None;
      }
    }

    /** The body of an insertion: which slot it writes, and what it counts. */
    method Place(key: Key, elem: E) returns (index: int)
      requires 0 < tbl.Length
      modifies this`elemNum, tbl
      ensures match Target(h, old(tbl[..]), key)
              case None => index == FAILED && tbl[..] == old(tbl[..]) && elemNum == old(elemNum)
              case Some(i) =>
                && index == i && i < tbl.Length
                && tbl[..] == old(tbl[..])[i := Live(h(key), key, elem)]
                && elemNum == old(elemNum) + if old(tbl[i]).Live? then 0 else 1
    {
      var hash := h(key);
      var home := hash % tbl.Length;
      if tbl[home].Empty? {
        tbl[home] := Live(hash, key, elem);
        elemNum := elemNum + 1;
        return home;
      }
      var f := Probe(hash, key, home);
      match f {
        case EmptyAt(i) =>
          tbl[i] := Live(hash, key, elem);
          elemNum := elemNum + 1;
          return i;
        case KeyAt(i) =>
          tbl[i] := Live(tbl[i].hash, tbl[i].key, elem);
          return i;
        case Full(Some(i)) =>
          tbl[i] := Live(hash, key, elem);
          elemNum := elemNum + 1;
          return i;
        case Full(None) =>
          return FAILED;
      }
    }

    /** Stores `elem` under `key`.  On any key that is not in its own home slot this is the map
        update, it moves no other entry, and it fails only for want of room.  On a key that is in
        its home slot it makes a duplicate, and the table no longer represents a map. */
    method ItemSet(key: Key, elem: E) returns (index: int)
      requires Valid() && key != []
      modifies this, tbl
      ensures |key| > MAX_KLEN ==> index == FAILED
      ensures key !in old(at) ==> !old(AtHome(h, tbl[..], key))
      ensures index == FAILED ==> tbl[..] == old(tbl[..]) && at == old(at) && Valid()
      ensures |key| <= MAX_KLEN && !old(AtHome(h, tbl[..], key)) ==>
        (index == FAILED <==> key !in old(at) && NoRoom(h, old(tbl[..]), key))
      ensures index != FAILED && !old(AtHome(h, tbl[..], key)) ==>
        && Valid()
        && 0 <= index < tbl.Length
        && at == old(at)[key := index]
        && tbl[..] == old(tbl[..])[index := Live(h(key), key, elem)]
        && Map() == old(Map())[key := elem]
        && (key in old(at) ==> index == old(at)[key])
        && (old(Tidy(tbl[..])) ==> Tidy(tbl[..]))
      ensures index != FAILED && old(AtHome(h, tbl[..], key)) ==>
        !exists any :: Table(h, tbl[..], any)
    {
      if |key| > MAX_KLEN {
        return FAILED;
      }
      ghost var t := tbl[..];
      index := Place(key, elem);
      if index != FAILED {
        assert tbl[..] == Insert(h, t, key, elem);
        if AtHome(h, t, key) {
          HomeClash(h, t, at, key, elem);
        } else {
          TargetFits(h, t, at, key);
          InsertUpdates(h, t, at, key, elem);
          at := at[key := index];
        }
      } else if !AtHome(h, t, key) {
        TargetFits(h, t, at, key);
      }
    }

    /** The variant for application names: refuses a key that is already stored. */
    method ItemSetForApp(key: Key, elem: E) returns (index: int)
      requires Valid() && key != []
      modifies this, tbl
      ensures Valid()
      ensures index == FAILED ==> tbl[..] == old(tbl[..]) && at == old(at)
      ensures index == FAILED <==> |key| > MAX_KLEN || key in old(at) || NoRoom(h, old(tbl[..]), key)
      ensures index != FAILED ==>
        && 0 <= index < tbl.Length
        && at == old(at)[key := index]
        && tbl[..] == old(tbl[..])[index := Live(h(key), key, elem)]
        && Map() == old(Map())[key := elem]
        && (old(Tidy(tbl[..])) ==> Tidy(tbl[..]))
    {
      if |key| > MAX_KLEN {
        return FAILED;
      }
      LookupFinds(h, tbl[..], at, key);
      var present := Locate(key);
      if present.Some? {
        return FAILED;
      }
      index := ItemSet(key, elem);
    }

    /** The clean-up after slot `p` was made a tombstone: backward to the front, then, if slot 0
        is empty, from the end of the table down to `p`. */
    method Compact(p: nat)
      requires p < tbl.Length && tbl[p].Tomb?
      modifies tbl
      ensures tbl[..] == Tidied(old(tbl[..]), p)
    {
      var n := tbl.Length;
      ghost var t := tbl[..];
      if p == n - 1 {
        if tbl[0].Empty? {
          tbl[p] := Empty;
        }
      } else {
        if tbl[p + 1].Empty? {
          tbl[p] := Empty;
        }
      }
      if tbl[p].Empty? {
        ghost var freed := tbl[..];
        assert freed == t[p := Empty];
        var si := p - 1;
        while si >= 0 && tbl[si].Tomb?
          invariant -1 <= si < n
          invariant Sweep(freed, p - 1, -1) == Sweep(tbl[..], si, -1)
        {
          ghost var before := tbl[..];
          tbl[si] := Empty;
          assert tbl[..] == before[si := Empty];
          si := si - 1;
        }
        ghost var low := tbl[..];
        if tbl[0].Empty? {
          si := n - 1;
          while si > p && tbl[si].Tomb?
            invariant p <= si < n
            invariant Sweep(low, n - 1, p) == Sweep(tbl[..], si, p)
          {
            ghost var before := tbl[..];
            tbl[si] := Empty;
            assert tbl[..] == before[si := Empty];
            si := si - 1;
          }
        }
      }
    }

    /** The body of a removal: finds the slot, buries it and cleans up. */
    method Erase(key: Key) returns (r: Option<E>)
      requires 0 < tbl.Length
      modifies this`elemNum, tbl
      ensures tbl[..] == Remove(h, old(tbl[..]), key)
      ensures match Lookup(h, old(tbl[..]), key)
              case None => r == None && elemNum == old(elemNum)
              case Some(p) => r == Some(old(tbl[p]).elem) && elemNum == old(elemNum) - 1
    {
      var found := Locate(key);
      if found.None? {
        return None;
      }
      var p := found.value;
      r := Some(tbl[p].elem);
      ghost var t := tbl[..];
      tbl[p] := Tomb;
      elemNum := elemNum - 1;
      assert tbl[..] == t[p := Tomb];
      Compact(p);
    }

    /** Removes `key` and cleans up.  Every other key keeps its slot. */
    method ItemRemove(key: Key) returns (r: Option<E>)
      requires Valid()
      modifies this, tbl
      ensures Valid()
      ensures r == if key in old(Map()) then Some(old(Map())[key]) else None
      ensures at == old(at) - {key} && Map() == old(Map()) - {key}
      ensures forall q | 0 <= q < tbl.Length && tbl[..][q] != old(tbl[..])[q] ::
                old(tbl[..])[q].Tomb? || (old(tbl[..])[q].Live? && old(tbl[..])[q].key == key)
      ensures old(Tidy(tbl[..])) ==> Tidy(tbl[..])
    {
      hide Table, Contents, Remove, Tidy, Lookup;
      ghost var rest := at - {key};
      DropSize(at, key);
      if |key| > MAX_KLEN {
        MissingKey(key);
        return None;
      }
      RemoveUpdates(h, tbl[..], at, key);
      Located(key);
      r := Erase(key);
      at := rest;
    }

    lemma MissingKey(key: Key)
      requires Valid() && key !in at
      ensures Map() - {key} == Map()
    {
    }

    lemma Located(key: Key)
      requires Valid()
      ensures Lookup(h, tbl[..], key) == if key in at then Some(at[key]) else None
      ensures key in at ==> at[key] < tbl.Length && tbl[at[key]].Live? && Map()[key] == tbl[at[key]].elem
    {
      LookupFinds(h, tbl[..], at, key);
    }

    lemma SlotKey(index: nat)
      requires Valid() && index < tbl.Length && tbl[index].Live?
      ensures tbl[index].key in at && at[tbl[index].key] == index
    {
    }

    /** Removes whatever is in slot `index`, leaving a tombstone and no clean-up. */
    method ItemRemoveFromIndex(index: nat) returns (r: Option<E>)
      requires Valid() && index != tbl.Length
      modifies this, tbl
      ensures Valid()
      ensures if index < tbl.Length && old(tbl[index]).Live?
              then && r == Some(old(tbl[index]).elem)
                   && tbl[..] == old(tbl[..])[index := Tomb]
                   && at == old(at) - {old(tbl[index]).key}
                   && Map() == old(Map()) - {old(tbl[index]).key}
              else r == None && tbl[..] == old(tbl[..]) && at == old(at)
    {
      hide Table, Contents;
      if index > tbl.Length || !tbl[index].Live? {
        return None;
      }
      SlotKey(index);
      ghost var key := tbl[index].key;
      BuryKeeps(h, tbl[..], at, key);
      DropSize(at, key);
      ghost var t, rest := tbl[..], at - {key};
      r := Some(tbl[index].elem);
      tbl[index] := Tomb;
      elemNum := elemNum - 1;
      assert tbl[..] == t[index := Tomb];
      at := rest;
    }

    /** Writes through the pointer a lookup returned: the element of a stored key changes in place. */
    method Modify(key: Key, elem: E)
      requires Valid() && key in Map()
      modifies tbl
      ensures Valid() && Map() == old(Map())[key := elem]
      ensures tbl[..] == old(tbl[..])[at[key] := Live(h(key), key, elem)]
    {
      LookupFinds(h, tbl[..], at, key);
      ModifyUpdates(h, tbl[..], at, key, elem);
      ghost var t := tbl[..];
      var p := Locate(key);
      tbl[p.value] := tbl[p.value].(elem := elem);
      hide Table, Contents, Lookup;
      assert tbl[..] == t[at[key] := Live(h(key), key, elem)];
    }

    /** The first live slot at or after `index`, or slot 0 and nothing. */
    method ItemCheckFromIndex(index: nat) returns (next: nat, r: Option<E>)
      requires Valid()
      ensures if exists q :: index <= q < tbl.Length && tbl[q].Live?
              then && index <= next < tbl.Length && tbl[next].Live? && r == Some(tbl[next].elem)
                   && forall q | index <= q < next :: !tbl[q].Live?
              else r == None && next == if index > tbl.Length then index else 0
    {
      if index > tbl.Length {
        return index, None;
      }
      var i := index;
      while i < tbl.Length
        invariant index <= i <= tbl.Length
        invariant forall q | index <= q < i :: !tbl[q].Live?
      {
        if tbl[i].Live? {
          return i, Some(tbl[i].elem);
        }
        i := i + 1;
      }
      return 0, None;
    }
  }
}
