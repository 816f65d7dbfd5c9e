/** One ageing pass over the PIT: `cefnetd_pit_cleanup` of src/cefnetd/cef_netd.c, which deletes
    entries from the very chains it is walking and starts wherever the last pass stopped.  Every
    entry lock is taken to succeed. */
module PitSweep {
  import opened Bytes
  import opened ChainTable
  import opened Constants

  datatype PitEntry = PitEntry(key: Key, dropTime: nat)
  type Bucket = Chain<PitEntry>

  /** The entry outlives a pass made at `now`. */
  predicate Keeps(now: nat, c: Cell<PitEntry>) {
    !(c.elem.dropTime < now)
  }

  /** What a pass leaves of a chain, in order. */
  function Survivors(now: nat, b: Bucket): (r: Bucket) {
    if b == [] then []
    else if Keeps(now, b[0]) then [b[0]] + Survivors(now, b[1..])
    else Survivors(now, b[1..])
  }

  /** Examining `n` cells from position `eidx`: the chain that is left, and the cells examined. */
  function SweepFrom(now: nat, b: Bucket, eidx: nat, n: nat): (r: (Bucket, Bucket))
    requires eidx + n <= |b|
    decreases n
  {
    if n == 0 then (b, []) else
    var r := if Keeps(now, b[eidx]) then SweepFrom(now, b, eidx + 1, n - 1)
             else SweepFrom(now, Without(b, eidx), eidx, n - 1);
    (r.0, [b[eidx]] + r.1)
  }

  /** Deleting from the chain being walked still examines every cell once, in order, and leaves
      exactly the survivors. */
  lemma {:induction false} SweepWhole(now: nat, front: Bucket, rest: Bucket)
    ensures SweepFrom(now, front + rest, |front|, |rest|) == (front + Survivors(now, rest), rest)
    decreases rest
  {
    var b := front + rest;
    if rest == [] {
      assert b == front && front + Survivors(now, rest) == front;
    } else {
      var c, tail := rest[0], rest[1..];
      assert b[|front|] == c && rest == [c] + tail;
      if Keeps(now, c) {
        SweepWhole(now, front + [c], tail);
        assert b == front + [c] + tail;
        assert front + [c] + Survivors(now, tail) == front + ([c] + Survivors(now, tail));
      } else {
        SweepWhole(now, front, tail);
        assert Without(b, |front|) == front + tail;
      }
    }
  }

  /** The buckets in sweep order: from `start` to the end, then from the front. */
  function Rotated<T>(b: seq<T>, start: nat): (r: seq<T>)
    requires start <= |b|
    ensures |r| == |b|
  {
    b[start..] + b[..start]
  }

  /** The bucket `j` places after `start`, and the cursor value that leads to it. */
  function Cyc(start: nat, j: nat, n: nat): (r: nat)
    requires start <= n && j < n
    ensures r < n
  {
    if start + j < n then start + j else start + j - n
  }

  function Cursor(start: nat, done: nat, n: nat): (r: nat)
    requires start <= n && done <= n
    ensures r <= n
  {
    if start + done <= n then start + done else start + done - n
  }

  /** If an unvisited bucket is not empty, the next bucket found is unvisited and skips nothing. */
  lemma NextUnvisited(b: seq<Bucket>, start: nat, done: nat, some: nat, next: nat) returns (j: nat)
    requires start <= |b| && done <= some < |b| && b[Cyc(start, some, |b|)] != []
    requires First(b, Cursor(start, done, |b|), next)
    ensures done <= j < |b| && Cyc(start, j, |b|) == next
    ensures forall k | done <= k < j :: b[Cyc(start, k, |b|)] == []
  {
    j := if start <= next then next - start else next + |b| - start;
  }

  /** What is left of a concatenation, and what empty parts add to it. */
  lemma {:induction false} FlatRest<T>(parts: seq<seq<T>>, done: nat) returns (j: nat)
    requires done <= |parts| && |Flat(parts[..done])| < |Flat(parts)|
    ensures done <= j < |parts| && parts[j] != []
  {
    assert parts == parts[..done] + parts[done..];
    FlatAppend(parts[..done], parts[done..]);
    if forall k | done <= k < |parts| :: parts[k] == [] {
      FlatEmpty(parts[done..]);
    }
    j :| done <= j < |parts| && parts[j] != [];
  }

  lemma FlatSkip<T>(front: seq<T>, parts: seq<seq<T>>, done: nat, j: nat)
    requires done <= j < |parts| && forall k | done <= k < j :: parts[k] == []
    ensures Flat(parts[..j + 1]) == Flat(parts[..done]) + parts[j]
    ensures front + Flat(parts[..j + 1]) == front + Flat(parts[..done]) + parts[j]
  {
    assert parts[..j] == parts[..done] + parts[done..j];
    FlatAppend(parts[..done], parts[done..j]);
    FlatEmpty(parts[done..j]);
    Snoc(parts, j);
    FlatSnoc(parts[..j], parts[j]);
  }

  /** The cursor stands just behind the last bucket of a sweep order that holds an entry, or at its
      start if none does. */
  ghost predicate EndsAt<T>(order: seq<seq<T>>, start: nat, cursor: nat)
    requires start <= |order|
  {
    exists done: nat | done <= |order| ::
      && cursor == Cursor(start, done, |order|)
      && (done > 0 ==> order[done - 1] != [])
      && forall j | done <= j < |order| :: order[j] == []
  }

  lemma RoundEnds<T>(order: seq<seq<T>>, start: nat, done: nat)
    requires start <= |order| && done <= |order| && |Flat(order[..done])| >= |Flat(order)|
    requires done > 0 ==> order[done - 1] != []
    ensures EndsAt(order, start, Cursor(start, done, |order|))
  {
    AllVisited(order, done);
  }

  lemma RoundStart(now: nat, b: seq<Bucket>, start: nat)
    requires start <= |b| && Keyed(b)
    ensures Progress(now, Rotated(b, start), b, start, 0) && Keyed(Rotated(b, start))
    ensures Cursor(start, 0, |b|) == start
    ensures |Flat(Rotated(b, start)[..0])| == 0 && |Flat(Rotated(b, start))| == |Flat(b)|
  {
    FlatRotated(b, start);
  }

  lemma FlatRotated<T>(b: seq<seq<T>>, start: nat)
    requires start <= |b|
    ensures |Flat(Rotated(b, start))| == |Flat(b)|
  {
    assert b == b[..start] + b[start..];
    FlatAppend(b[..start], b[start..]);
    FlatAppend(b[start..], b[..start]);
  }

  /** Once as many cells have been visited as there are, every other bucket is empty. */
  lemma {:induction false} AllVisited<T>(parts: seq<seq<T>>, done: nat)
    requires done <= |parts| && |Flat(parts[..done])| >= |Flat(parts)|
    ensures Flat(parts[..done]) == Flat(parts)
    ensures forall j | done <= j < |parts| :: parts[j] == []
    decreases |parts| - done
  {
    assert parts == parts[..done] + parts[done..];
    FlatAppend(parts[..done], parts[done..]);
    if done < |parts| {
      assert parts[done..] == [parts[done]] + parts[done + 1..];
      FlatAppend([parts[done]], parts[done + 1..]);
      FlatSnoc([], parts[done]);
      FlatSkip([], parts, done, done);
      AllVisited(parts, done + 1);
    }
  }

  lemma {:induction false} SurvivorsKeyed(now: nat, c: Bucket)
    requires KeyedChain(c)
    ensures KeyedChain(Survivors(now, c))
  {
    if c != [] {
      SurvivorsKeyed(now, c[1..]);
    }
  }

  /** The first `done` buckets of the sweep order hold their survivors, the others are untouched. */
  ghost predicate Progress(now: nat, order: seq<Bucket>, b: seq<Bucket>, start: nat, done: nat) {
    && |b| == |order| && start <= |b| && done <= |b|
    && (forall j | 0 <= j < done :: b[Cyc(start, j, |b|)] == Survivors(now, order[j]))
    && (forall j | done <= j < |b| :: b[Cyc(start, j, |b|)] == order[j])
  }

  lemma ProgressStep(now: nat, order: seq<Bucket>, b: seq<Bucket>, b': seq<Bucket>, start: nat, done: nat, j: nat)
    requires Progress(now, order, b, start, done) && done <= j < |b| == |b'|
    requires forall k | done <= k < j :: order[k] == []
    requires b'[Cyc(start, j, |b|)] == Survivors(now, order[j])
    requires forall i | 0 <= i < |b| && i != Cyc(start, j, |b|) :: b'[i] == b[i]
    ensures Progress(now, order, b', start, j + 1)
  {
  }

  lemma ProgressEnd(now: nat, all: seq<Bucket>, b: seq<Bucket>, start: nat, done: nat)
    requires start <= |all| && Keyed(all) && Progress(now, Rotated(all, start), b, start, done)
    requires |Flat(Rotated(all, start)[..done])| >= |Flat(Rotated(all, start))|
    ensures Flat(Rotated(all, start)[..done]) == Flat(Rotated(all, start))
    ensures forall i | 0 <= i < |all| :: b[i] == Survivors(now, all[i])
    ensures Keyed(b)
  {
    var order := Rotated(all, start);
    AllVisited(order, done);
    forall i | 0 <= i < |all|
      ensures b[i] == Survivors(now, all[i]) && KeyedChain(b[i])
    {
      var j := if start <= i then i - start else i + |all| - start;
      assert Cyc(start, j, |all|) == i && order[j] == all[i];
      SurvivorsKeyed(now, all[i]);
    }
  }

  /** The PIT's own invariant: an entry's key is the key it is stored under, and is not empty. */
  ghost predicate Keyed(b: seq<Bucket>) {
    forall i | 0 <= i < |b| :: KeyedChain(b[i])
  }

  ghost predicate KeyedChain(c: Bucket) {
    forall j | 0 <= j < |c| :: c[j].elem.key == c[j].key && 0 < |c[j].key| <= MAX_KLEN
  }

  // ---------------------------------------------------------------- what a pass means for lookups

  /** No key is in both chains. */
  ghost predicate Apart(a: Bucket, b: Bucket) {
    forall x, y | x in a && y in b :: x.key != y.key
  }

  lemma ApartDistinct(a: Bucket, b: Bucket)
    requires Distinct(a) && Distinct(b) && Apart(a, b)
    ensures Distinct(a + b)
  {
    forall i, j | 0 <= i < j < |a + b| ensures (a + b)[i].key != (a + b)[j].key {
      assert i < |a| <= j ==> a[i] in a && b[j - |a|] in b;
    }
  }

  lemma HeadApart(c: Bucket)
    requires Distinct(c) && c != []
    ensures c == [c[0]] + c[1..] && Distinct(c[1..]) && Apart([c[0]], c[1..])
  {
  }

  /** The survivors are exactly the entries that have not dropped, and repeat no key. */
  lemma {:induction false} SurvivorsAll(now: nat, c: Bucket)
    requires Distinct(c)
    ensures forall e: Cell<PitEntry> :: e in Survivors(now, c) <==> e in c && Keeps(now, e)
    ensures Distinct(Survivors(now, c))
  {
    if c != [] {
      HeadApart(c);
      SurvivorsAll(now, c[1..]);
      assert Distinct([c[0]]) && Apart([c[0]], Survivors(now, c[1..]));
      hide Distinct, Apart;
      ApartDistinct([c[0]], Survivors(now, c[1..]));
    }
  }

  /** Looking a key up is finding its cell in its bucket. */
  lemma LookupIn(home: Key -> nat, b: seq<Bucket>, key: Key, e: PitEntry)
    requires home(key) < |b| && Distinct(b[home(key)])
    ensures Lookup(home, b, key) == Some(e) <==> Cell(key, e) in b[home(key)]
  {
    var c := b[home(key)];
    if Cell(key, e) in c {
      var j :| 0 <= j < |c| && c[j] == Cell(key, e);
      IndexUnique(c, j);
    }
  }

  /** What a pass leaves of the entry under a key. */
  function Kept(now: nat, r: Option<PitEntry>): Option<PitEntry> {
    if r.Some? && r.value.dropTime < now then None else r
  }

  /** A key is found after the pass exactly if it was before and its entry has not dropped. */
  lemma SweptLookup(home: Key -> nat, b: seq<Bucket>, b': seq<Bucket>, now: nat, key: Key)
    requires Chained(home, b) && |b'| == |b| && forall i | 0 <= i < |b| :: b'[i] == Survivors(now, b[i])
    ensures Lookup(home, b', key) == Kept(now, Lookup(home, b, key))
  {
    SurvivorsAll(now, b[home(key)]);
    var before, after := Lookup(home, b, key), Lookup(home, b', key);
    if before.Some? {
      LookupIn(home, b, key, before.value);
      LookupIn(home, b', key, before.value);
    }
    if after.Some? {
      LookupIn(home, b, key, after.value);
      LookupIn(home, b', key, after.value);
    }
  }

  ghost predicate InSome(parts: seq<Bucket>, c: Cell<PitEntry>) {
    exists i :: 0 <= i < |parts| && c in parts[i]
  }

  lemma InSomeStep(parts: seq<Bucket>, c: Cell<PitEntry>)
    requires parts != []
    ensures InSome(parts, c) <==> c in parts[0] || InSome(parts[1..], c)
  {
    if i :| 0 < i < |parts| && c in parts[i] {
      assert c in parts[1..][i - 1];
    }
  }

  /** The cells of some chains that share no key. */
  lemma {:induction false} FlatCells(parts: seq<Bucket>)
    requires forall i | 0 <= i < |parts| :: Distinct(parts[i])
    requires forall i, j | 0 <= i < j < |parts| :: Apart(parts[i], parts[j])
    ensures Distinct(Flat(parts))
    ensures forall c :: c in Flat(parts) <==> InSome(parts, c)
  {
    if parts != [] {
      var rest := parts[1..];
      FlatCells(rest);
      forall x: Cell<PitEntry>, y: Cell<PitEntry> | x in parts[0] && y in Flat(rest) ensures x.key != y.key {
        var i :| 0 <= i < |rest| && y in rest[i];
        assert Apart(parts[0], parts[i + 1]);
      }
      forall c ensures c in Flat(parts) <==> InSome(parts, c) {
        InSomeStep(parts, c);
        hide InSome, Distinct, Apart;
      }
      assert Apart(parts[0], Flat(rest));
      ApartDistinct(parts[0], Flat(rest));
    }
  }

  /** Where a stored entry stands in a sweep order. */
  lemma OrderAt(home: Key -> nat, b: seq<Bucket>, start: nat, j: nat)
    requires Chained(home, b) && start <= |b| && j < |b|
    ensures var order := Rotated(b, start);
            order[j] == b[Cyc(start, j, |b|)] && Distinct(order[j])
    ensures forall x: Cell<PitEntry> <- Rotated(b, start)[j] :: home(x.key) == Cyc(start, j, |b|)
  {
    assert Homed(home, b[Cyc(start, j, |b|)], Cyc(start, j, |b|));
  }

  /** A sweep order holds every stored entry, each once. */
  lemma SweepOrder(home: Key -> nat, b: seq<Bucket>, start: nat)
    requires Chained(home, b) && start <= |b|
    ensures Distinct(Flat(Rotated(b, start)))
    ensures forall c: Cell<PitEntry> :: c in Flat(Rotated(b, start)) <==> Lookup(home, b, c.key) == Some(c.elem)
  {
    var order := Rotated(b, start);
    forall k: Key ensures home(k) < |b| && Distinct(b[home(k)]) {
    }
    hide Chained, Distinct, Lookup;
    forall j | 0 <= j < |b| ensures order[j] == b[Cyc(start, j, |b|)] && Distinct(order[j]) {
      OrderAt(home, b, start, j);
    }
    forall i, j | 0 <= i < j < |b| ensures Apart(order[i], order[j]) {
      OrderAt(home, b, start, i);
      OrderAt(home, b, start, j);
    }
    FlatCells(order);
    forall c: Cell<PitEntry> ensures c in Flat(order) <==> Lookup(home, b, c.key) == Some(c.elem) {
      LookupIn(home, b, c.key, c.elem);
      var i := home(c.key);
      var j := if start <= i then i - start else i + |b| - start;
      assert order[j] == b[i];
      if k :| 0 <= k < |order| && c in order[k] {
        OrderAt(home, b, start, k);
      }
    }
  }

  /** A pass made the stored entries `after` of `before`: exactly those that have not dropped are
      left, and exactly the stored ones were examined, each once. */
  ghost predicate Swept(now: nat, home: Key -> nat, before: seq<Bucket>, after: seq<Bucket>,
                        examinedBefore: seq<Cell<PitEntry>>, examinedAfter: seq<Cell<PitEntry>>)
    requires (forall key :: home(key) < |before|) && forall key :: home(key) < |after|
  {
    && (forall key :: Lookup(home, after, key) == Kept(now, Lookup(home, before, key)))
    && examinedBefore <= examinedAfter
    && var examined := examinedAfter[|examinedBefore|..];
       && Distinct(examined)
       && forall c: Cell<PitEntry> :: c in examined <==> Lookup(home, before, c.key) == Some(c.elem)
  }

  /** What a round that visited the first `done` buckets of the sweep order, and with them every
      entry, did to the whole table. */
  lemma PassSwept(now: nat, home: Key -> nat, before: seq<Bucket>, after: seq<Bucket>, start: nat, done: nat,
                  examinedBefore: seq<Cell<PitEntry>>, examinedAfter: seq<Cell<PitEntry>>)
    requires Chained(home, before) && Keyed(before) && start <= |before| == |after| && done <= |before|
    requires forall key :: home(key) < |before|
    requires var order := Rotated(before, start);
             && Progress(now, order, after, start, done) && |Flat(order[..done])| >= |Flat(order)|
             && (done > 0 ==> order[done - 1] != [])
             && examinedAfter == examinedBefore + Flat(order[..done])
    ensures Swept(now, home, before, after, examinedBefore, examinedAfter) && Keyed(after)
    ensures examinedAfter == examinedBefore + Flat(Rotated(before, start))
    ensures EndsAt(Rotated(before, start), start, Cursor(start, done, |before|))
  {
    hide Chained, Distinct, Lookup, Keyed, Survivors, EndsAt, Cursor, Cyc;
    SweepOrder(home, before, start);
    RoundEnds(Rotated(before, start), start, done);
    ProgressEnd(now, before, after, start, done);
    forall key ensures Lookup(home, after, key) == Kept(now, Lookup(home, before, key)) {
      SweptLookup(home, before, after, now, key);
    }
    assert examinedAfter[|examinedBefore|..] == Flat(Rotated(before, start));
  }

  class Sweeper {
    const pit: ChainTable<PitEntry>
    var cleanIndex: nat                          // pit_clean_i
    ghost var examined: seq<Cell<PitEntry>>      // every call of cefnetd_pit_entry_clean, in order

    ghost predicate Valid()
      reads this, pit, pit.tbl, pit.repr
    {
      pit.Valid() && cleanIndex <= |pit.cells| && Keyed(pit.cells)
    }

    constructor (pit: ChainTable<PitEntry>)
      requires pit.Valid() && Keyed(pit.cells)
      ensures Valid() && this.pit == pit && examined == []
    {
      this.pit := pit;
      cleanIndex, examined := 0, [];
    }

    /** One step of the inner loop: examines the cell at `eidx` and deletes it if it has dropped. */
    method Examine(b: nat, eidx: nat, now: nat) returns (next: nat)
      requires pit.Valid() && b < |pit.cells| && eidx < |pit.cells[b]|
      requires KeyedChain(pit.cells[b])
      modifies this`examined, pit, pit.tbl, pit.repr
      ensures pit.Valid() && pit.repr == old(pit.repr) && |pit.cells| == old(|pit.cells|)
      ensures examined == old(examined) + [old(pit.cells)[b][eidx]]
      ensures forall i | 0 <= i < |pit.cells| && i != b :: pit.cells[i] == old(pit.cells)[i]
      ensures if Keeps(now, old(pit.cells)[b][eidx])
              then next == eidx + 1 && pit.cells[b] == old(pit.cells)[b]
              else next == eidx && pit.cells[b] == Without(old(pit.cells)[b], eidx)
      ensures KeyedChain(pit.cells[b])
    {
      CellAt(b, eidx);
      hide Chained;
      next := eidx + 1;
      var pe := pit.ItemGetFromIndex(b, eidx);
      if pe.None? {
        return;
      }
      examined := examined + [Cell(pe.value.key, pe.value)];   // cefnetd_pit_entry_clean
      if pe.value.dropTime < now {
        var gone := pit.ItemRemove(pe.value.key);              // cef_pit_entry_free
        next := eidx;
      }
    }

    lemma CellAt(b: nat, eidx: nat)
      requires pit.Valid() && b < |pit.cells| && eidx < |pit.cells[b]|
      ensures |pit.cells| == pit.tbl.Length
      ensures pit.home(pit.cells[b][eidx].key) == b && Index(pit.cells[b], pit.cells[b][eidx].key) == Some(eidx)
    {
      IndexUnique(pit.cells[b], eidx);
    }

    lemma HomesFit()
      requires pit.Valid()
      ensures forall key :: pit.home(key) < |pit.cells|
    {
    }

    /** The inner loop: examines the `count` cells bucket `b` had, deleting as it goes.  Position
        `eidx` is not advanced over a deleted cell. */
    method SweepBucket(b: nat, count: nat, now: nat)
      requires pit.Valid() && b < |pit.cells| && count == |pit.cells[b]|
      requires KeyedChain(pit.cells[b])
      modifies this`examined, pit, pit.tbl, pit.repr
      ensures pit.Valid() && pit.repr == old(pit.repr) && |pit.cells| == old(|pit.cells|)
      ensures pit.cells[b] == Survivors(now, old(pit.cells)[b])
      ensures forall i | 0 <= i < |pit.cells| && i != b :: pit.cells[i] == old(pit.cells)[i]
      ensures examined == old(examined) + old(pit.cells)[b]
    {
      hide Survivors, KeyedChain, Chained;
      ghost var cells, chain := pit.cells, pit.cells[b];
      ghost var todo := chain;                    // the cells still to be examined
      SweepWhole(now, [], chain);
      assert [] + chain == chain && [] + Survivors(now, chain) == Survivors(now, chain);
      var eidx: nat, elemIndex: nat := 0, 0;
      while elemIndex < count
        invariant pit.Valid() && pit.repr == old(pit.repr) && |pit.cells| == |cells|
        invariant 0 <= elemIndex <= count && eidx + (count - elemIndex) <= |pit.cells[b]|
        invariant KeyedChain(pit.cells[b])
        invariant forall i | 0 <= i < |cells| && i != b :: pit.cells[i] == cells[i]
        invariant SweepFrom(now, pit.cells[b], eidx, count - elemIndex) == (Survivors(now, chain), todo)
        invariant examined + todo == old(examined) + chain
      {
        assert examined + todo == (examined + [todo[0]]) + todo[1..];
        eidx := Examine(b, eidx, now);
        elemIndex := elemIndex + 1;
        todo := todo[1..];
      }
    }

    /** The step of the cursor while some bucket of the sweep order is still to be visited: it finds
        the next of them, `j`, and skips none. */
    method NextToVisit(now: nat, ghost order: seq<Bucket>, ghost start: nat, ghost done: nat)
      returns (next: nat, count: nat, ghost j: nat)
      requires pit.Valid() && Progress(now, order, pit.cells, start, done)
      requires cleanIndex == Cursor(start, done, |pit.cells|)
      requires |Flat(order[..done])| < |Flat(order)|
      ensures done <= j < |order| && next == Cyc(start, j, |order|) && next < |pit.cells|
      ensures pit.cells[next] == order[j] && count == |order[j]| > 0
      ensures next == start ==> j == 0
      ensures next + 1 == Cursor(start, j + 1, |order|)
      ensures forall k | done <= k < j :: order[k] == []
    {
      hide Chained;
      ghost var some := FlatRest(order, done);
      next, count := pit.ElemGet(cleanIndex);
      j := NextUnvisited(pit.cells, start, done, some, next);
    }

    /** SweepBucket on bucket `j` of the sweep order. */
    method Visit(b: nat, count: nat, now: nat, ghost order: seq<Bucket>, ghost start: nat, ghost done: nat,
                 ghost j: nat, ghost before: seq<Cell<PitEntry>>)
      requires pit.Valid() && Keyed(order) && Progress(now, order, pit.cells, start, done)
      requires done <= j < |order| && b == Cyc(start, j, |order|) && count == |order[j]|
      requires forall k | done <= k < j :: order[k] == []
      requires examined == before + Flat(order[..done])
      modifies this`examined, pit, pit.tbl, pit.repr
      ensures pit.Valid() && pit.repr == old(pit.repr) && Progress(now, order, pit.cells, start, j + 1)
      ensures examined == before + Flat(order[..j + 1])
      ensures |Flat(order[..j + 1])| == |Flat(order[..done])| + count
    {
      hide Chained;
      ghost var t := pit.cells;
      assert pit.cells[b] == order[j];
      FlatSkip(before, order, done, j);
      SweepBucket(b, count, now);
      ProgressStep(now, order, t, pit.cells, start, done, j);
    }

    /** The outer loop: picks buckets from the cursor until as many entries have been examined as
        the table held. */
    method Round(now: nat) returns (ghost done: nat)
      requires Valid()
      modifies this`cleanIndex, this`examined, pit, pit.tbl, pit.repr
      ensures pit.Valid() && pit.repr == old(pit.repr) && cleanIndex <= |pit.cells|
      ensures var order := Rotated(old(pit.cells), old(cleanIndex));
              && done <= |order| == |pit.cells| && Progress(now, order, pit.cells, old(cleanIndex), done)
              && |Flat(order[..done])| >= |Flat(order)|
              && cleanIndex == Cursor(old(cleanIndex), done, |order|)
              && (done > 0 ==> order[done - 1] != [])
              && examined == old(examined) + Flat(order[..done])
    {
      hide Survivors, First, Chained, Keyed, KeyedChain, Progress, Cyc, Cursor, Rotated, Flat;
      var pitNum := pit.elemNum;
      var endIndex := cleanIndex;
      var cleanNum, endFlag := 0, 0;
      ghost var order := Rotated(pit.cells, endIndex);
      done := 0;
      RoundStart(now, pit.cells, endIndex);
      while cleanNum < pitNum
        invariant pit.Valid() && pit.repr == old(pit.repr) && Progress(now, order, pit.cells, endIndex, done)
        invariant done <= |order| == |pit.cells| && (done > 0 ==> order[done - 1] != [])
        invariant cleanIndex == Cursor(endIndex, done, |order|)
        invariant examined == old(examined) + Flat(order[..done])
        invariant cleanNum == |Flat(order[..done])|
        invariant endFlag == 0 || (endFlag == 1 && done > 0)
        decreases |order| - done
      {
        var next, count, j := NextToVisit(now, order, endIndex, done);
        cleanIndex := next;
        if cleanIndex == endIndex {
          endFlag := endFlag + 1;
          if endFlag > 1 {
            break;
          }
        }
        var recIndex := cleanIndex;
        cleanIndex := cleanIndex + 1;
        if count == 0 {
          break;
        }
        Visit(recIndex, count, now, order, endIndex, done, j, old(examined));
        cleanNum := cleanNum + count;
        done := j + 1;
      }
    }

    /** One pass over one table.  Exactly the stored entries are examined, each once, in one cyclic
        sweep from the saved cursor, which moves behind the last bucket examined; afterwards exactly
        those that have not dropped are stored. */
    method Sweep(now: nat)
      requires Valid()
      modifies this`cleanIndex, this`examined, pit, pit.tbl, pit.repr
      ensures Valid() && pit.repr == old(pit.repr)
      ensures Swept(now, pit.home, old(pit.cells), pit.cells, old(examined), examined)
      ensures examined == old(examined) + Flat(Rotated(old(pit.cells), old(cleanIndex)))
      ensures EndsAt(Rotated(old(pit.cells), old(cleanIndex)), old(cleanIndex), cleanIndex)
    {
      hide Chained, Keyed, Swept, EndsAt, Progress, Cursor, Flat, Rotated;
      ghost var all, start := pit.cells, cleanIndex;
      HomesFit();
      var done := Round(now);
      HomesFit();
      PassSwept(now, pit.home, all, pit.cells, start, done, old(examined), examined);
    }
  }

  /** The PIT and the PIT of applications, with the time of the next pass over both. */
  class Daemon {
    const pit: Sweeper
    const appPit: Sweeper
    var cleanTime: nat                           // pit_clean_t

    ghost predicate Valid()
      reads this, pit, pit.pit, pit.pit.tbl, pit.pit.repr, appPit, appPit.pit, appPit.pit.tbl, appPit.pit.repr
    {
      && pit.Valid() && appPit.Valid()
      && pit != appPit && pit.pit != appPit.pit && pit.pit.tbl != appPit.pit.tbl
      && pit.pit.repr !! appPit.pit.repr
    }

    constructor (pit: Sweeper, appPit: Sweeper)
      requires pit.Valid() && appPit.Valid() && pit != appPit && pit.pit != appPit.pit
      requires pit.pit.tbl != appPit.pit.tbl && pit.pit.repr !! appPit.pit.repr
      ensures Valid() && this.pit == pit && this.appPit == appPit && cleanTime == 0
    {
      this.pit, this.appPit, cleanTime := pit, appPit, 0;
    }

    /** The whole clean-up: nothing before its time, then one pass over each table. */
    method Cleanup(now: nat)
      requires Valid()
      modifies this, pit, pit.pit, pit.pit.tbl, pit.pit.repr, appPit, appPit.pit, appPit.pit.tbl, appPit.pit.repr
      ensures Valid()
      ensures now < old(cleanTime) ==>
        && cleanTime == old(cleanTime)
        && pit.examined == old(pit.examined) && pit.pit.cells == old(pit.pit.cells)
        && appPit.examined == old(appPit.examined) && appPit.pit.cells == old(appPit.pit.cells)
      ensures now >= old(cleanTime) ==>
        && cleanTime == now + CLEANING_TIME
        && Swept(now, pit.pit.home, old(pit.pit.cells), pit.pit.cells, old(pit.examined), pit.examined)
        && Swept(now, appPit.pit.home, old(appPit.pit.cells), appPit.pit.cells, old(appPit.examined), appPit.examined)
    {
      hide Swept;
      if now < cleanTime {
        return;
      }
      pit.Sweep(now);
      appPit.Sweep(now);
      cleanTime := now + CLEANING_TIME;
    }
  }
}
