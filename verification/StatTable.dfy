/** The content-store statistics of src/lib/cef_csmgr_stat.c: one record a content, with a bitmap
    of its cached chunks, in a chained table with counters. */
module StatTable {
  import opened Bytes
  import opened Bitmap
  import opened ChainTable
  import opened CobSizes
  import opened Counting

  const STAT_MAX: nat := 1_000_000   // CsmgrT_Stat_Max

  datatype Stat = Stat(index: nat, words: seq<Word>, cobNum: int, sizes: Sizes)

  type Records = seq<Chain<Stat>>

  /** A record's counter is the number of bits set in its map. */
  ghost predicate Counted(r: Stat) {
    0 < |r.words| <= 0xFFFF_FFFF && r.cobNum == |Chunks(r.words)|
  }

  ghost predicate AllCounted(home: Key -> nat, b: Records)
    requires forall k :: home(k) < |b|
  {
    forall k :: Lookup(home, b, k).Some? ==> Counted(Lookup(home, b, k).value)
  }

  /** The chunks cached over all records. */
  function Sum(c: Chain<Stat>): int {
    if c == [] then 0 else c[0].elem.cobNum + Sum(c[1..])
  }

  function Total(b: Records): int {
    if b == [] then 0 else Sum(b[0]) + Total(b[1..])
  }

  function CobNum(r: Option<Stat>): int {
    if r.Some? then r.value.cobNum else 0
  }

  lemma {:induction false} SumSplit(a: Chain<Stat>, b: Chain<Stat>)
    ensures Sum(a + b) == Sum(a) + Sum(b)
  {
    if a == [] {
      assert a + b == b;
    } else {
      SumSplit(a[1..], b);
      assert (a + b)[0] == a[0] && (a + b)[1..] == a[1..] + b;
    }
  }

  lemma SumAt(c: Chain<Stat>, i: nat, e: Cell<Stat>)
    requires i < |c|
    ensures Sum(c[i := e]) == Sum(c) - c[i].elem.cobNum + e.elem.cobNum
    ensures Sum(Without(c, i)) == Sum(c) - c[i].elem.cobNum
  {
    SumSplit(c[..i], c[i + 1..]);
    SumSplit(c[..i], [c[i]] + c[i + 1..]);
    SumSplit(c[..i], [e] + c[i + 1..]);
    SumSplit([c[i]], c[i + 1..]);
    SumSplit([e], c[i + 1..]);
    assert c == c[..i] + ([c[i]] + c[i + 1..]);
    assert c[i := e] == c[..i] + ([e] + c[i + 1..]);
  }

  lemma {:induction false} TotalAt(b: Records, i: nat, c: Chain<Stat>)
    requires i < |b|
    ensures Total(b[i := c]) == Total(b) - Sum(b[i]) + Sum(c)
  {
    if i == 0 {
      assert b[0 := c][1..] == b[1..];
    } else {
      TotalAt(b[1..], i - 1, c);
      assert b[i := c][1..] == b[1..][i - 1 := c];
    }
  }

  lemma {:induction false} TotalEmpty(b: Records)
    requires forall i | 0 <= i < |b| :: b[i] == []
    ensures Total(b) == 0
  {
    if b != [] {
      TotalEmpty(b[1..]);
    }
  }

  /** Storing and deleting a record change the total by its counter. */
  lemma TotalStore(home: Key -> nat, b: Records, key: Key, r: Stat)
    requires Chained(home, b)
    ensures Total(StoreIn(home, b, key, r)) == Total(b) - CobNum(Lookup(home, b, key)) + r.cobNum
  {
    var c := b[home(key)];
    match Index(c, key) {
      case Some(i) => SumAt(c, i, Cell(key, r));
      case None => SumSplit([Cell(key, r)], c);
    }
    TotalAt(b, home(key), Stored(c, key, r));
  }

  lemma DropNone(home: Key -> nat, b: Records, key: Key)
    requires Chained(home, b) && Lookup(home, b, key).None?
    ensures DropFrom(home, b, key) == b
  {
  }

  lemma TotalDrop(home: Key -> nat, b: Records, key: Key)
    requires Chained(home, b)
    ensures Total(DropFrom(home, b, key)) == Total(b) - CobNum(Lookup(home, b, key))
  {
    var c := b[home(key)];
    match Index(c, key) {
      case Some(i) =>
        SumAt(c, i, c[i]);
        TotalAt(b, home(key), Without(c, i));
      case None =>
    }
  }

  // ---------------------------------------------------------------- what an update does to a record

  /** The record after `chunk` of the given size was cached, and whether it was new. */
  function Cached(r: Stat, chunk: nat, size: nat): (s: Stat) {
    var words := if |r.words| - 1 < chunk / 64 then Grown(r.words, GrownSize(chunk / 64)) else r.words;
    var isNew := !Bit(words, chunk);
    r.(words := Put(words, chunk, true),
       cobNum := if isNew then r.cobNum + 1 else r.cobNum,
       sizes := Note(r.sizes, chunk, size).(total := if isNew then r.sizes.total + size else r.sizes.total))
  }

  /** The record after `chunk` was removed. */
  function Removed(r: Stat, chunk: nat, size: nat): (s: Stat)
    requires chunk / 64 < |r.words|
  {
    var had := Bit(r.words, chunk);
    r.(words := Put(r.words, chunk, false),
       cobNum := if had then r.cobNum - 1 else r.cobNum,
       sizes := if had then r.sizes.(total := r.sizes.total - Inferred(r.sizes, chunk, size)) else r.sizes)
  }

  lemma CachedCounts(r: Stat, chunk: nat, size: nat)
    requires Counted(r) && chunk <= 0xFFFF_FFFF
    ensures Counted(Cached(r, chunk, size)) && Cached(r, chunk, size).index == r.index
    ensures Chunks(Cached(r, chunk, size).words) == Chunks(r.words) + {chunk}
    ensures Cached(r, chunk, size).cobNum == r.cobNum + if chunk in Chunks(r.words) then 0 else 1
  {
    var words := if |r.words| - 1 < chunk / 64 then Grown(r.words, GrownSize(chunk / 64)) else r.words;
    GrownChunks(r.words, |words|);
    PutChunks(words, chunk, true);
    assert chunk in Chunks(words) ==> Chunks(words) + {chunk} == Chunks(words);
  }

  lemma RemovedCounts(r: Stat, chunk: nat, size: nat)
    requires Counted(r) && chunk / 64 < |r.words|
    ensures Counted(Removed(r, chunk, size))
    ensures Chunks(Removed(r, chunk, size).words) == Chunks(r.words) - {chunk}
    ensures Removed(r, chunk, size).cobNum == r.cobNum - if chunk in Chunks(r.words) then 1 else 0
    ensures Removed(r, chunk, size).index == r.index
  {
    PutChunks(r.words, chunk, false);
    if chunk in Chunks(r.words) {
      assert Chunks(r.words) == (Chunks(r.words) - {chunk}) + {chunk};
    } else {
      assert Chunks(r.words) - {chunk} == Chunks(r.words);
    }
  }

  /** Caching a chunk of a regular content with its true size, and removing one without a size,
      keep the content size the exact sum over the bits set. */
  lemma CachedKnows(r: Stat, c: Content, chunk: nat)
    requires Counted(r) && chunk <= 0xFFFF_FFFF && chunk <= c.final
    requires Regular(c) && Knows(r.sizes, c, Chunks(r.words))
    ensures var s := Cached(r, chunk, SizeOf(c, chunk)); Knows(s.sizes, c, Chunks(s.words))
  {
    CachedCounts(r, chunk, SizeOf(c, chunk));
    UpdateKnows(r.sizes, c, Chunks(r.words), chunk);
  }

  lemma RemovedKnows(r: Stat, c: Content, chunk: nat, size: nat)
    requires Counted(r) && chunk / 64 < |r.words|
    requires Regular(c) && Knows(r.sizes, c, Chunks(r.words)) && (size == 0 || size == SizeOf(c, chunk))
    ensures var s := Removed(r, chunk, size); Knows(s.sizes, c, Chunks(s.words))
    ensures chunk in Chunks(r.words) ==> Inferred(r.sizes, chunk, size) == SizeOf(c, chunk)
  {
    RemovedCounts(r, chunk, size);
    RemoveKnows(r.sizes, c, Chunks(r.words), chunk, size);
  }

  /** Chunk `chunk` of size `size` came into a record: its bit is set and counted, its size is added
      if the bit was clear, and the largest size and the last smaller one are noted. */
  ghost predicate CameIn(before: Stat, after: Stat, chunk: nat, size: nat) {
    && after.index == before.index
    && Chunks(after.words) == Chunks(before.words) + {chunk}
    && after.cobNum == |Chunks(after.words)|
    && after.sizes.total == before.sizes.total + (if chunk in Chunks(before.words) then 0 else size)
    && after.sizes.cob == (if before.sizes.cob < size then size else before.sizes.cob)
    && (if before.sizes.cob == 0 || size < before.sizes.cob
        then after.sizes.last == size && after.sizes.lastChunk == chunk
        else && after.sizes.last == before.sizes.last
             && after.sizes.lastChunk == if before.sizes.lastChunk < chunk then chunk else before.sizes.lastChunk)
  }

  /** Chunk `chunk` went from a record: its bit is clear and not counted, and if it was set the given
      size is taken off, or without one the size of the last chunk or of the others. */
  ghost predicate WentOut(before: Stat, after: Stat, chunk: nat, size: nat) {
    && after.index == before.index
    && Chunks(after.words) == Chunks(before.words) - {chunk}
    && after.cobNum == |Chunks(after.words)|
    && after.sizes == before.sizes.(total := before.sizes.total -
         if chunk !in Chunks(before.words) then 0
         else if size > 0 then size
         else if chunk == before.sizes.lastChunk then before.sizes.last
         else before.sizes.cob)
  }

  lemma CachedCameIn(r: Stat, chunk: nat, size: nat)
    requires Counted(r) && chunk <= 0xFFFF_FFFF
    ensures CameIn(r, Cached(r, chunk, size), chunk, size)
  {
    CachedCounts(r, chunk, size);
    GrownBit(r.words, chunk);
    hide Chunks, Bit;
  }

  lemma GrownBit(words: seq<Word>, chunk: nat)
    ensures var grown := if |words| - 1 < chunk / 64 then Grown(words, GrownSize(chunk / 64)) else words;
            Bit(grown, chunk) <==> chunk in Chunks(words)
  {
    if |words| - 1 < chunk / 64 {
      GrownChunks(words, GrownSize(chunk / 64));
    }
  }

  lemma RemovedWentOut(r: Stat, chunk: nat, size: nat)
    requires Counted(r) && chunk / 64 < |r.words|
    ensures WentOut(r, Removed(r, chunk, size), chunk, size)
  {
    RemovedCounts(r, chunk, size);
  }

  function NewStat(index: nat): (r: Stat) {
    Stat(index, seq(ADD_MAPS, _ => Zero()), 0, FRESH)
  }

  lemma NewCounts(index: nat)
    ensures Counted(NewStat(index)) && Chunks(NewStat(index).words) == {}
  {
  }

  // ---------------------------------------------------------------- runs on one content

  datatype ChunkOp = Cache(chunk: nat, size: nat) | Evict(chunk: nat, size: nat)

  /** An update, or a removal, whose size is zero if none is given.  A record whose last chunk is
      removed is deleted, and the next update starts afresh. */
  function Step(r: Stat, op: ChunkOp): (s: Stat) {
    match op
    case Cache(q, size) => Cached(r, q, size)
    case Evict(q, size) =>
      if |r.words| - 1 < q / 64 then r else
      var left := Removed(r, q, size);
      if Chunks(left.words) == {} then NewStat(left.index) else left
  }

  /** The record of a content after some operations. */
  function Play(ops: seq<ChunkOp>): (r: Stat) {
    if ops == [] then NewStat(0) else Step(Play(ops[..|ops| - 1]), ops[|ops| - 1])
  }

  /** The chunks that are cached after an operation, and after some, with the sizes they were cached
      with. */
  function HeldAfter(held: map<nat, nat>, op: ChunkOp): map<nat, nat> {
    match op
    case Cache(q, size) => if q in held then held else held[q := size]
    case Evict(q, size) => held - {q}
  }

  function Held(ops: seq<ChunkOp>): map<nat, nat> {
    if ops == [] then map[] else HeldAfter(Held(ops[..|ops| - 1]), ops[|ops| - 1])
  }

  /** Bitmap, counter and content size of a record are what the cached chunks make them. */
  ghost predicate Exact(r: Stat, held: map<nat, nat>) {
    Counted(r) && Chunks(r.words) == held.Keys && r.sizes.total == SizeSum(held, 0x1_0000_0000)
  }

  /** A step keeps the record exact except when it removes one of several cached chunks and takes off
      another size than the chunk was cached with. */
  lemma StepExact(r: Stat, held: map<nat, nat>, op: ChunkOp)
    requires Exact(r, held) && op.chunk <= 0xFFFF_FFFF
    ensures Exact(Step(r, op), HeldAfter(held, op)) <==>
              (op.Evict? && op.chunk in held.Keys && held.Keys != {op.chunk} ==>
                 Inferred(r.sizes, op.chunk, op.size) == held[op.chunk])
  {
    hide Counted, Cached, Removed, Chunks, NewStat, SizeSum, Bit;
    match op {
      case Cache(q, size) =>
        CachedCounts(r, q, size);
        CachedCameIn(r, q, size);
        if q !in held {
          SizeSumPut(held, q, size, 0x1_0000_0000);
        } else {
          assert held.Keys + {q} == held.Keys;
        }
      case Evict(q, size) =>
        if q in held {
          SizeSumDrop(held, q, 0x1_0000_0000);
        } else {
          assert held - {q} == held;
        }
        if |r.words| - 1 < q / 64 {
          OutsideMap(r.words, q);
        } else {
          RemovedCounts(r, q, size);
          RemovedWentOut(r, q, size);
          NewCounts(Removed(r, q, size).index);
          SizeSumNone(0x1_0000_0000);
          NewTotal(Removed(r, q, size).index);
          assert (held - {q}).Keys == held.Keys - {q};
          assert held - {q} == map[] <==> (held - {q}).Keys == {};
          assert q in held.Keys ==> ((held - {q}).Keys == {} <==> held.Keys == {q});
        }
    }
  }

  /** Every removal of a cached chunk gives the size the chunk was cached with. */
  ghost predicate Given(ops: seq<ChunkOp>) {
    ops == [] ||
    var front, last := ops[..|ops| - 1], ops[|ops| - 1];
    && Given(front)
    && (last.Evict? && last.chunk in Held(front) ==> last.size == Held(front)[last.chunk] > 0)
  }

  /** For every order of insertions of chunks of whatever sizes, and removals that give the sizes
      their chunks were cached with, the record stays exact. */
  lemma {:induction false} PlayGiven(ops: seq<ChunkOp>)
    requires Given(ops) && forall op <- ops :: op.chunk <= 0xFFFF_FFFF
    ensures Exact(Play(ops), Held(ops))
    decreases |ops|
  {
    hide Exact, Step, HeldAfter;
    if ops == [] {
      NewExact();
    } else {
      var front, last := ops[..|ops| - 1], ops[|ops| - 1];
      PlayGiven(front);
      assert last in ops;
      StepExact(Play(front), Held(front), last);
    }
  }

  /** The operations are on a regular content: updates give the true size, and removals give the
      true size or none. */
  ghost predicate TrueSizes(c: Content, ops: seq<ChunkOp>) {
    forall op <- ops ::
      op.chunk <= c.final && (op.size == SizeOf(c, op.chunk) || (op.Evict? && op.size == 0))
  }

  /** A step of that kind keeps what the record knows, and takes off the size the chunk has. */
  lemma StepKnows(c: Content, r: Stat, held: map<nat, nat>, op: ChunkOp)
    requires Regular(c) && op.chunk <= c.final <= 0xFFFF_FFFF
    requires op.size == SizeOf(c, op.chunk) || (op.Evict? && op.size == 0)
    requires Exact(r, held) && Knows(r.sizes, c, held.Keys) && forall q <- held :: held[q] == SizeOf(c, q)
    ensures op.Evict? && op.chunk in held ==> Inferred(r.sizes, op.chunk, op.size) == held[op.chunk]
    ensures Knows(Step(r, op).sizes, c, HeldAfter(held, op).Keys)
    ensures forall q <- HeldAfter(held, op) :: HeldAfter(held, op)[q] == SizeOf(c, q)
  {
    hide Counted, Cached, Removed, Knows, Chunks, NewStat, SizeSum, Bit, Inferred, TotalSize;
    if op.Cache? {
      CachedCounts(r, op.chunk, op.size);
      CachedKnows(r, c, op.chunk);
      assert HeldAfter(held, op).Keys == held.Keys + {op.chunk};
    } else {
      EvictKnows(c, r, held.Keys, op);
      assert HeldAfter(held, op).Keys == held.Keys - {op.chunk};
    }
  }

  lemma EvictKnows(c: Content, r: Stat, chunks: set<nat>, op: ChunkOp)
    requires Regular(c) && op.Evict? && (op.size == SizeOf(c, op.chunk) || op.size == 0)
    requires Counted(r) && Chunks(r.words) == chunks && Knows(r.sizes, c, chunks)
    ensures op.chunk in chunks ==> Inferred(r.sizes, op.chunk, op.size) == SizeOf(c, op.chunk)
    ensures Knows(Step(r, op).sizes, c, chunks - {op.chunk})
  {
    hide Counted, Removed, Knows, Chunks, NewStat, Bit, Inferred, TotalSize, SizeOf;
    if |r.words| - 1 < op.chunk / 64 {
      OutsideMap(r.words, op.chunk);
      assert chunks - {op.chunk} == chunks;
    } else {
      RemovedCounts(r, op.chunk, op.size);
      RemovedKnows(r, c, op.chunk, op.size);
      NewKnows(Removed(r, op.chunk, op.size).index, c);
    }
  }

  /** For every order of insertions with true sizes and removals with or without them, the record of
      a regular content stays exact. */
  lemma {:induction false} PlayExact(c: Content, ops: seq<ChunkOp>)
    requires Regular(c) && c.final <= 0xFFFF_FFFF && TrueSizes(c, ops)
    ensures Exact(Play(ops), Held(ops)) && forall q <- Held(ops) :: Held(ops)[q] == SizeOf(c, q)
    ensures Knows(Play(ops).sizes, c, Held(ops).Keys)
    ensures Play(ops).sizes.total == TotalSize(c, Held(ops).Keys)
    decreases |ops|
  {
    hide Exact, Step, HeldAfter, Knows, NewStat;
    if ops == [] {
      NewExact();
      NewKnows(0, c);
      assert Held(ops).Keys == {};
    } else {
      var front, last := ops[..|ops| - 1], ops[|ops| - 1];
      assert forall op <- front :: op in ops;
      PlayExact(c, front);
      assert last in ops;
      StepKnows(c, Play(front), Held(front), last);
      StepExact(Play(front), Held(front), last);
    }
    KnowsTotal(Play(ops).sizes, c, Held(ops).Keys);
  }

  lemma NewExact()
    ensures Exact(NewStat(0), map[])
  {
    NewCounts(0);
    SizeSumNone(0x1_0000_0000);
  }

  lemma NewTotal(index: nat)
    ensures NewStat(index).sizes.total == 0
  {
  }

  lemma NewKnows(index: nat, c: Content)
    ensures Knows(NewStat(index).sizes, c, {})
  {
  }

  lemma KnowsTotal(z: Sizes, c: Content, chunks: set<nat>)
    requires Knows(z, c, chunks)
    ensures z.total == TotalSize(c, chunks)
  {
  }

  lemma OutsideMap(words: seq<Word>, q: nat)
    requires |words| <= q / 64
    ensures q !in Chunks(words)
  {
  }

  // ---------------------------------------------------------------- record indexes

  /** `owner` says which content holds each index in use. */
  ghost predicate Indexed(home: Key -> nat, b: Records, inUse: seq<bool>, owner: map<nat, Key>)
    requires forall k :: home(k) < |b|
  {
    && (forall i <- owner ::
          i < |inUse| && Lookup(home, b, owner[i]).Some? && Lookup(home, b, owner[i]).value.index == i)
    && (forall k :: var r := Lookup(home, b, k); r.Some? ==> r.value.index in owner && owner[r.value.index] == k)
    && (forall i | 0 <= i < |inUse| :: inUse[i] <==> i in owner)
  }

  /** The indexes of two records are different. */
  lemma IndexesDistinct(home: Key -> nat, b: Records, inUse: seq<bool>, owner: map<nat, Key>, k1: Key, k2: Key)
    requires (forall k :: home(k) < |b|) && Indexed(home, b, inUse, owner) && k1 != k2
    requires Lookup(home, b, k1).Some? && Lookup(home, b, k2).Some?
    ensures Lookup(home, b, k1).value.index != Lookup(home, b, k2).value.index
  {
  }

  lemma IndexedStore(home: Key -> nat, b: Records, inUse: seq<bool>, owner: map<nat, Key>, key: Key, r: Stat)
    requires Chained(home, b) && Indexed(home, b, inUse, owner) && r.index < |inUse|
    requires match Lookup(home, b, key)
             case Some(before) => r.index == before.index
             case None => r.index !in owner
    ensures var b' := StoreIn(home, b, key, r);
            && Chained(home, b')
            && Indexed(home, b', inUse[r.index := true], owner[r.index := key])
            && |owner[r.index := key]| == |owner| + if Lookup(home, b, key).None? then 1 else 0
  {
    hide StoreIn, Lookup, Chained;
    StoreInUpdates(home, b, key, r);
    var b', owner' := StoreIn(home, b, key, r), owner[r.index := key];
    if Lookup(home, b, key).Some? {
      assert owner' == owner;
    }
    forall k
      ensures var q := Lookup(home, b', k); q.Some? ==> q.value.index in owner' && owner'[q.value.index] == k
    {
      assert k != key && Lookup(home, b, k).Some? ==> owner[Lookup(home, b, k).value.index] == k;
    }
  }

  lemma IndexedDrop(home: Key -> nat, b: Records, inUse: seq<bool>, owner: map<nat, Key>, key: Key)
    requires Chained(home, b) && Indexed(home, b, inUse, owner) && Lookup(home, b, key).Some?
    ensures var i := Lookup(home, b, key).value.index;
            var b' := DropFrom(home, b, key);
            && i < |inUse| && Chained(home, b')
            && Indexed(home, b', inUse[i := false], owner - {i})
            && |owner - {i}| == |owner| - 1
  {
    hide DropFrom, Lookup, Chained;
    DropFromUpdates(home, b, key);
    var i := Lookup(home, b, key).value.index;
    assert owner.Keys == (owner - {i}).Keys + {i};
  }

  /** Storing a sound record under its own index keeps all that is kept about the records. */
  lemma StoreKeeps(home: Key -> nat, b: Records, inUse: seq<bool>, owner: map<nat, Key>, key: Key, r: Stat)
    requires Chained(home, b) && AllCounted(home, b) && Indexed(home, b, inUse, owner)
    requires Counted(r) && r.index < |inUse|
    requires match Lookup(home, b, key)
             case Some(before) => r.index == before.index
             case None => r.index !in owner
    ensures var b' := StoreIn(home, b, key, r);
            && Chained(home, b') && AllCounted(home, b')
            && (forall k :: Lookup(home, b', k) == if k == key then Some(r) else Lookup(home, b, k))
            && Indexed(home, b', inUse[r.index := true], owner[r.index := key])
            && |owner[r.index := key]| == |owner| + (if Lookup(home, b, key).None? then 1 else 0)
            && |Flat(b')| == |Flat(b)| + (if Lookup(home, b, key).None? then 1 else 0)
            && Total(b') == Total(b) - CobNum(Lookup(home, b, key)) + r.cobNum
  {
    hide Chained, Lookup, Indexed, StoreIn, Total, Counted;
    StoreInUpdates(home, b, key, r);
    IndexedStore(home, b, inUse, owner, key, r);
    TotalStore(home, b, key, r);
  }

  lemma DropKeeps(home: Key -> nat, b: Records, inUse: seq<bool>, owner: map<nat, Key>, key: Key)
    requires Chained(home, b) && AllCounted(home, b) && Indexed(home, b, inUse, owner)
    requires Lookup(home, b, key).Some?
    ensures var i := Lookup(home, b, key).value.index;
            var b' := DropFrom(home, b, key);
            && i < |inUse| && Chained(home, b') && AllCounted(home, b')
            && (forall k :: Lookup(home, b', k) == if k == key then None else Lookup(home, b, k))
            && Indexed(home, b', inUse[i := false], owner - {i})
            && |owner - {i}| == |owner| - 1
            && |Flat(b')| == |Flat(b)| - 1
            && Total(b') == Total(b) - CobNum(Lookup(home, b, key))
  {
    hide Chained, Lookup, Indexed, DropFrom, Total, Counted;
    DropFromUpdates(home, b, key);
    IndexedDrop(home, b, inUse, owner, key);
    TotalDrop(home, b, key);
  }

  /** If not all indexes are owned, some index below the limit is free. */
  lemma FreeExists(owner: map<nat, Key>, n: nat) returns (i: nat)
    requires |owner| < n
    ensures i < n && i !in owner
  {
    RangeSize(0, n);
    var same := map k | k in Range(0, n) :: k;
    assert same.Keys == Range(0, n);
    if Range(0, n) <= owner.Keys {
      Pigeonhole(same, owner.Keys);
    }
    i :| i in Range(0, n) && i !in owner.Keys;
  }

  class StatTable {
    const rcds: ChainTable<Stat>
    const inUse: array<bool>            // stat_index_mngr
    var conNum: int                     // cached_con_num
    var cobNum: int                     // cached_cob_num
    var capacity: nat
    ghost var owner: map<nat, Key>      // the content that holds each index in use

    /** The records, their bitmaps and their indexes agree. */
    ghost predicate Sound()
      reads this`owner, rcds, rcds.tbl, rcds.repr, inUse
    {
      && rcds.Valid() && inUse.Length == STAT_MAX
      && rcds.elemNum == |owner| <= STAT_MAX
      && AllCounted(rcds.home, rcds.cells)
      && Lookup(rcds.home, rcds.cells, []) == None
      && Indexed(rcds.home, rcds.cells, inUse[..], owner)
    }

    /** And the content counter is the number of records. */
    ghost predicate Valid()
      reads this, rcds, rcds.tbl, rcds.repr, inUse
    {
      Sound() && conNum == |Flat(rcds.cells)|
    }

    /** The table's chunk counter is the sum over the records. */
    ghost predicate SumAgrees()
      reads this`cobNum, rcds`cells
    {
      cobNum == Total(rcds.cells)
    }

    ghost function Rec(name: Key): Option<Stat>
      reads rcds, rcds.tbl, rcds.repr
      requires rcds.Valid()
    {
      Lookup(rcds.home, rcds.cells, name)
    }

    constructor (hash: Key -> nat)
      ensures Valid() && SumAgrees() && fresh(rcds) && fresh(rcds.tbl) && fresh(rcds.repr) && fresh(inUse)
      ensures conNum == 0 && cobNum == 0 && forall k :: Rec(k) == None
    {
      rcds := new ChainTable<Stat>(hash, STAT_MAX);
      inUse := new bool[STAT_MAX](_ => false);
      conNum, cobNum, capacity, owner := 0, 0, 0, map[];
      new;
      TotalEmpty(rcds.cells);
      FlatEmpty(rcds.cells);
    }

    /** The loop over the index flags: marks the first index not in use. */
    method TakeIndex() returns (i: nat)
      requires Sound() && |owner| < STAT_MAX
      modifies inUse
      ensures i < STAT_MAX && i !in owner && inUse[..] == old(inUse[..])[i := true]
      ensures forall j | 0 <= j < i :: j in owner
    {
      ghost var free := FreeExists(owner, STAT_MAX);
      i := 0;
      while inUse[i]
        invariant i <= free && forall j | 0 <= j < i :: inUse[j]
        decreases free - i
        modifies {}
      {
        i := i + 1;
      }
      inUse[i] := true;
    }

    /** Links a new record without chunks under a free index. */
    method Create(name: Key) returns (rcd: Stat)
      requires Sound() && name != [] && Rec(name).None? && |owner| < STAT_MAX
      modifies this`owner, rcds, rcds.tbl, rcds.repr, inUse
      ensures Sound() && fresh(rcds.repr - old(rcds.repr)) && |Flat(rcds.cells)| == |Flat(old(rcds.cells))| + 1
      ensures rcd == NewStat(rcd.index) && forall k :: Rec(k) == if k == name then Some(rcd) else old(Rec(k))
      ensures Total(rcds.cells) == Total(old(rcds.cells))
    {
      hide Chained, Lookup, Indexed, StoreIn, Total, Counted, AllCounted;
      ghost var b, used := rcds.cells, inUse[..];
      var index := TakeIndex();
      rcd := NewStat(index);
      NewCounts(index);
      StoreKeeps(rcds.home, b, used, owner, name, rcd);
      rcds.Store(name, rcd);
      owner := owner[index := name];
    }

    /** Writes the fields of a stored record, whose index stays. */
    method Write(name: Key, r: Stat)
      requires Sound() && Counted(r) && Rec(name).Some? && Rec(name).value.index == r.index
      modifies rcds, rcds.tbl, rcds.repr
      ensures Sound() && fresh(rcds.repr - old(rcds.repr)) && |Flat(rcds.cells)| == |Flat(old(rcds.cells))|
      ensures forall k :: Rec(k) == if k == name then Some(r) else old(Rec(k))
      ensures Total(rcds.cells) == Total(old(rcds.cells)) - CobNum(old(Rec(name))) + r.cobNum
    {
      hide Chained, Lookup, Indexed, StoreIn, Total, Counted, AllCounted;
      RecSound(name);
      ghost var b, used := rcds.cells, inUse[..];
      StoreKeeps(rcds.home, b, used, owner, name, r);
      assert used[r.index := true] == used && owner[r.index := name] == owner;
      rcds.Store(name, r);
    }

    lemma RecSound(name: Key)
      requires Sound() && Rec(name).Some?
      ensures var r := Rec(name).value;
              && Counted(r) && r.index < STAT_MAX && inUse[r.index] && name != []
              && r.index in owner && owner[r.index] == name
    {
    }

    /** Unlinks a record and gives its index back.  The table's chunk counter is not touched. */
    method InfoDelete(name: Key)
      requires Valid()
      modifies this`conNum, this`owner, rcds, rcds.tbl, rcds.repr, inUse
      ensures Valid() && rcds.repr == old(rcds.repr)
      ensures forall k :: Rec(k) == if k == name then None else old(Rec(k))
      ensures conNum == old(conNum) - if old(Rec(name)).Some? then 1 else 0
      ensures Total(rcds.cells) == Total(old(rcds.cells)) - CobNum(old(Rec(name)))
      ensures old(SumAgrees()) ==> (SumAgrees() <==> CobNum(old(Rec(name))) == 0)
    {
      hide Chained, Lookup, Indexed, Total, Counted, AllCounted, DropFrom;
      ghost var b, used := rcds.cells, inUse[..];
      if Rec(name).Some? {
        DropKeeps(rcds.home, b, used, owner, name);
      } else {
        DropNone(rcds.home, b, name);
      }
      var gone := rcds.Unlink(name);
      if gone.Some? {
        conNum := conNum - 1;
        inUse[gone.value.index] := false;
        owner := owner - {gone.value.index};
        assert inUse[..] == used[gone.value.index := false];
      }
    }

    /** `csmgr_stat_content_lookup`: the record of a name, created if there is none.  The callers
        count a record that was created. */
    method ContentLookup(name: Key) returns (rcd: Option<Stat>, created: bool)
      requires Valid()
      modifies this`owner, rcds, rcds.tbl, rcds.repr, inUse
      ensures Sound() && fresh(rcds.repr - old(rcds.repr))
      ensures |Flat(rcds.cells)| == conNum + if created then 1 else 0
      ensures Total(rcds.cells) == Total(old(rcds.cells))
      ensures created <==> old(Rec(name)).None? && name != [] && conNum != STAT_MAX
      ensures rcd == Rec(name) && forall k | k != name :: Rec(k) == old(Rec(k))
      ensures if created then rcd.Some? && rcd.value == NewStat(rcd.value.index) else rcd == old(Rec(name))
    {
      hide Chained, Lookup, Indexed, Total, Counted, AllCounted;
      rcd := rcds.Fetch(name);
      created := false;
      if name == [] || rcd.Some? || conNum == STAT_MAX {
        return;
      }
      var r := Create(name);
      return Some(r), true;
    }

    /** What the callers of the lookup begin with: a record that was created is counted. */
    method CountedLookup(name: Key) returns (rcd: Option<Stat>)
      requires Valid()
      modifies this`conNum, this`owner, rcds, rcds.tbl, rcds.repr, inUse
      ensures Valid() && fresh(rcds.repr - old(rcds.repr))
      ensures Total(rcds.cells) == Total(old(rcds.cells))
      ensures rcd == Rec(name) && forall k | k != name :: Rec(k) == old(Rec(k))
      ensures if old(Rec(name)).None? && name != [] && old(conNum) != STAT_MAX
              then rcd.Some? && rcd.value == NewStat(rcd.value.index) && conNum == old(conNum) + 1
              else rcd == old(Rec(name)) && conNum == old(conNum)
    {
      hide Chained, Lookup, Indexed, Total, Counted, AllCounted;
      var created;
      rcd, created := ContentLookup(name);
      if created {
        conNum := conNum + 1;
      }
    }

    /** Notes that a chunk was cached.  Every counter stays what it counts, also when the map grows
        and when the chunk was cached before. */
    method CobUpdate(name: Key, chunk: nat, size: nat)
      requires Valid() && chunk <= 0xFFFF_FFFF
      modifies this`conNum, this`cobNum, this`owner, rcds, rcds.tbl, rcds.repr, inUse
      ensures Valid() && fresh(rcds.repr - old(rcds.repr))
      ensures old(SumAgrees()) ==> SumAgrees()
      ensures forall k | k != name :: Rec(k) == old(Rec(k))
      ensures name != [] && (old(Rec(name)).Some? || old(conNum) != STAT_MAX) ==>
        && Rec(name).Some?
        && var after := Rec(name).value;
           CameIn(if old(Rec(name)).Some? then old(Rec(name)).value else NewStat(after.index), after, chunk, size)
      ensures match old(Rec(name))
              case Some(before) =>
                && Rec(name) == Some(Cached(before, chunk, size))
                && cobNum == old(cobNum) + (if chunk in Chunks(before.words) then 0 else 1)
                && conNum == old(conNum)
              case None =>
                if name == [] || old(conNum) == STAT_MAX
                then Rec(name) == None && cobNum == old(cobNum) && conNum == old(conNum)
                else && Rec(name).Some? && Rec(name).value == Cached(NewStat(Rec(name).value.index), chunk, size)
                     && cobNum == old(cobNum) + 1 && conNum == old(conNum) + 1
    {
      hide Chained, Lookup, Indexed, Total, Counted, AllCounted, Cached, NewStat, Chunks, CameIn;
      var rcd := CountedLookup(name);
      if rcd.None? {
        return;
      }
      RecSound(name);
      NewCounts(rcd.value.index);
      CachedCounts(rcd.value, chunk, size);
      CachedCameIn(rcd.value, chunk, size);
      var r := SetChunk(rcd.value, chunk, size);
      Write(name, r);
    }

    /** The bitmap part of an update: grows the map, notes the size, and counts a chunk that is new
        in the record and in the table. */
    method SetChunk(rcd: Stat, chunk: nat, size: nat) returns (r: Stat)
      modifies this`cobNum
      ensures r == Cached(rcd, chunk, size)
      ensures cobNum == old(cobNum) + r.cobNum - rcd.cobNum
    {
      var x, bit := chunk / 64, chunk % 64;
      r := rcd;
      if |r.words| - 1 < x {
        r := r.(words := Grown(r.words, GrownSize(x)));
      }
      var sizes := NoteSize(r.sizes, chunk, size);
      r := r.(sizes := sizes);
      if !r.words[x][bit] {
        r := r.(cobNum := r.cobNum + 1, sizes := r.sizes.(total := r.sizes.total + size));
        cobNum := cobNum + 1;
      }
      r := r.(words := r.words[x := r.words[x][bit := true]]);
    }

    /** The bitmap part of a removal. */
    method ClearChunk(rcd: Stat, chunk: nat, size: nat) returns (r: Stat)
      requires chunk / 64 < |rcd.words|
      modifies this`cobNum
      ensures r == Removed(rcd, chunk, size)
      ensures cobNum == old(cobNum) + r.cobNum - rcd.cobNum
    {
      var x, bit := chunk / 64, chunk % 64;
      var gone := Inferred(rcd.sizes, chunk, size);
      r := rcd;
      if r.words[x][bit] {
        r := r.(cobNum := r.cobNum - 1, sizes := r.sizes.(total := r.sizes.total - gone));
        cobNum := cobNum - 1;
      }
      r := r.(words := r.words[x := r.words[x][bit := false]]);
    }

    /** Notes that a chunk was removed; a record without chunks is deleted. */
    method CobRemove(name: Key, chunk: nat, size: nat) returns (r: int)
      requires Valid()
      modifies this`conNum, this`cobNum, this`owner, rcds, rcds.tbl, rcds.repr, inUse
      ensures Valid() && fresh(rcds.repr - old(rcds.repr))
      ensures old(SumAgrees()) ==> SumAgrees()
      ensures forall k | k != name :: Rec(k) == old(Rec(k))
      ensures var before := old(Rec(name));
              if before.None? || |before.value.words| - 1 < chunk / 64 then
                r == -1 && Rec(name) == before && cobNum == old(cobNum) && conNum == old(conNum)
              else
                var after := Removed(before.value, chunk, size);
                && WentOut(before.value, after, chunk, size)
                && cobNum == old(cobNum) - (if chunk in Chunks(before.value.words) then 1 else 0)
                && if Chunks(after.words) == {} then r == 0 && Rec(name) == None && conNum == old(conNum) - 1
                   else r == -1 && Rec(name) == Some(after) && conNum == old(conNum)
    {
      hide Chained, Lookup, Indexed, Total, Counted, AllCounted, Removed, Chunks, WentOut;
      var rcd := rcds.Fetch(name);
      if rcd.None? {
        return -1;
      }
      RecSound(name);
      if |rcd.value.words| - 1 < chunk / 64 {
        return -1;
      }
      RemovedCounts(rcd.value, chunk, size);
      RemovedWentOut(rcd.value, chunk, size);
      var next := ClearChunk(rcd.value, chunk, size);
      CountedEmpty(next);
      Write(name, next);
      if next.cobNum == 0 {
        InfoDelete(name);
        return 0;
      }
      return -1;
    }

    /** The record for a content, without chunks if it is new. */
    method InfoInit(name: Key) returns (rcd: Option<Stat>)
      requires Valid()
      modifies this`conNum, this`owner, rcds, rcds.tbl, rcds.repr, inUse
      ensures Valid() && fresh(rcds.repr - old(rcds.repr))
      ensures old(SumAgrees()) ==> SumAgrees()
      ensures rcd == Rec(name) && forall k | k != name :: Rec(k) == old(Rec(k))
      ensures if old(Rec(name)).None? && name != [] && old(conNum) != STAT_MAX
              then && rcd.Some? && Chunks(rcd.value.words) == {} && rcd.value.cobNum == 0 && rcd.value.sizes == FRESH
                   && rcd.value == NewStat(rcd.value.index) && conNum == old(conNum) + 1
              else rcd == old(Rec(name)) && conNum == old(conNum)
    {
      hide Chained, Lookup, Indexed, Total, Counted, AllCounted;
      rcd := CountedLookup(name);
      if rcd.Some? {
        NewCounts(rcd.value.index);
      }
    }

    /** The smallest and the largest cached chunk number of a content that has chunks. */
    method InfoGet(name: Key, expired: bool) returns (range: Option<(nat, nat)>)
      requires Valid()
      ensures range.Some? <==> Rec(name).Some? && Rec(name).value.cobNum != 0 && !expired
      ensures range.Some? ==>
        var chunks := Chunks(Rec(name).value.words);
        && range.value.0 in chunks && range.value.1 in chunks
        && forall q <- chunks :: range.value.0 <= q <= range.value.1
    {
      hide Chained, Lookup, Indexed, AllCounted;
      var rcd := rcds.Fetch(name);
      if rcd.None? || rcd.value.cobNum == 0 || expired {
        return None;
      }
      RecSound(name);
      CountedEmpty(rcd.value);
      var lo, hi := Extremes(rcd.value.words);
      range := Some((lo, hi));
    }

    /** The walk along one chain of a reset: gives back the index of every record in it. */
    method ReleaseChain(i: nat, ghost used: seq<bool>)
      requires rcds.Valid() && i < |rcds.cells|
      requires |used| == inUse.Length && Indexed(rcds.home, rcds.cells, used, owner)
      requires forall q: nat | q < inUse.Length && inUse[q] :: Ahead(rcds.home, rcds.cells, owner, q, i, 0)
      modifies inUse
      ensures forall q: nat | q < inUse.Length && inUse[q] :: Ahead(rcds.home, rcds.cells, owner, q, i + 1, 0)
    {
      hide Chained, Lookup, Indexed, Ahead;
      ghost var b := rcds.cells;
      rcds.BucketHead(i);
      var cp := rcds.tbl[i];
      ghost var p := 0;
      while cp != null
        invariant 0 <= p <= |b[i]| == |rcds.paths[i]| && cp == At(rcds.paths[i], p)
        invariant forall q: nat | q < inUse.Length && inUse[q] :: Ahead(rcds.home, b, owner, q, i, p)
        decreases |b[i]| - p
      {
        rcds.BucketNode(i, p);
        CellIndex(rcds.home, b, used, owner, i, p);
        ghost var before := inUse[..];
        inUse[cp.elem.index] := false;
        forall q: nat | q < inUse.Length && inUse[q] ensures Ahead(rcds.home, b, owner, q, i, p + 1) {
          assert before[q];
          AheadStep(rcds.home, b, used, owner, q, i, p);
        }
        cp := cp.next;
        p := p + 1;
      }
      forall q: nat | q < inUse.Length && inUse[q] ensures Ahead(rcds.home, b, owner, q, i + 1, 0) {
        AheadNext(rcds.home, b, used, owner, q, i);
      }
    }

    /** The walk over all chains.  No other flag is set, so no flag stays set. */
    method ReleaseAll()
      requires Sound()
      modifies inUse
      ensures forall q | 0 <= q < inUse.Length :: !inUse[q]
    {
      ghost var b, used := rcds.cells, inUse[..];
      hide Chained, Lookup, Indexed, AllCounted, Ahead;
      rcds.Heads();
      forall q: nat | q < |used| && used[q] ensures Ahead(rcds.home, b, owner, q, 0, 0) {
        AheadStart(rcds.home, b, used, owner, q);
      }
      for i := 0 to rcds.tbl.Length
        invariant forall q: nat | q < inUse.Length && inUse[q] :: Ahead(rcds.home, b, owner, q, i, 0)
        modifies inUse
      {
        ReleaseChain(i, used);
      }
      forall q: nat | q < inUse.Length ensures !inUse[q] {
        NoneAhead(rcds.home, b, owner, q);
      }
    }

    /** Drops every record and sets the capacity. */
    method CacheCapacityUpdate(cap: nat)
      requires Valid()
      modifies this, rcds, rcds.tbl, inUse
      ensures Valid() && rcds.repr == old(rcds.repr) && SumAgrees()
      ensures capacity == cap && conNum == 0 && cobNum == 0
      ensures forall k :: Rec(k) == None
      ensures forall q | 0 <= q < inUse.Length :: !inUse[q]
    {
      hide Chained, Indexed, AllCounted;
      ReleaseAll();
      rcds.Clear();
      conNum, capacity, cobNum, owner := 0, cap, 0, map[];
      TotalEmpty(rcds.cells);
      FlatEmpty(rcds.cells);
      EmptyKeeps(rcds.home, rcds.cells, inUse[..]);
    }
  }

  /** Deleting the record of a content that still has a chunk, on a table that holds nothing else:
      no record is left, and the table still counts a chunk. */
  method DeletedWithChunk(hash: Key -> nat, name: Key, size: nat) returns (conNum: int, cobNum: int)
    requires name != []
    ensures conNum == 0 && cobNum == 1
  {
    hide Chained, Lookup, Indexed, Total, Counted, AllCounted, Cached, NewStat, Chunks;
    var tbl := new StatTable(hash);
    tbl.CobUpdate(name, 0, size);
    tbl.InfoDelete(name);
    return tbl.conNum, tbl.cobNum;
  }

  // ---------------------------------------------------------------- giving the indexes back

  /** The record that holds index `q` is at or behind position `p` of bucket `i`. */
  ghost predicate Ahead(home: Key -> nat, b: Records, owner: map<nat, Key>, q: nat, i: nat, p: nat) {
    q in owner &&
    var k := home(owner[q]);
    k < |b| && (k > i || (k == i && Index(b[i], owner[q]).Some? && Index(b[i], owner[q]).value >= p))
  }

  lemma AheadStart(home: Key -> nat, b: Records, inUse: seq<bool>, owner: map<nat, Key>, q: nat)
    requires Chained(home, b) && Indexed(home, b, inUse, owner) && q < |inUse| && inUse[q]
    ensures Ahead(home, b, owner, q, 0, 0)
  {
  }

  lemma CellIndex(home: Key -> nat, b: Records, inUse: seq<bool>, owner: map<nat, Key>, i: nat, p: nat)
    requires Chained(home, b) && Indexed(home, b, inUse, owner) && i < |b| && p < |b[i]|
    ensures var r := b[i][p].elem; r.index < |inUse| && r.index in owner && owner[r.index] == b[i][p].key
  {
    IndexUnique(b[i], p);
    assert Lookup(home, b, b[i][p].key) == Some(b[i][p].elem);
  }

  lemma AheadStep(home: Key -> nat, b: Records, inUse: seq<bool>, owner: map<nat, Key>, q: nat, i: nat, p: nat)
    requires Chained(home, b) && Indexed(home, b, inUse, owner) && i < |b| && p < |b[i]|
    requires Ahead(home, b, owner, q, i, p) && q != b[i][p].elem.index
    ensures Ahead(home, b, owner, q, i, p + 1)
  {
    assert Lookup(home, b, owner[q]).value.index == q;
  }

  lemma AheadNext(home: Key -> nat, b: Records, inUse: seq<bool>, owner: map<nat, Key>, q: nat, i: nat)
    requires Chained(home, b) && Indexed(home, b, inUse, owner) && i < |b|
    requires Ahead(home, b, owner, q, i, |b[i]|)
    ensures Ahead(home, b, owner, q, i + 1, 0)
  {
  }

  lemma NoneAhead(home: Key -> nat, b: Records, owner: map<nat, Key>, q: nat)
    ensures !Ahead(home, b, owner, q, |b|, 0)
  {
  }

  lemma EmptyKeeps(home: Key -> nat, b: Records, inUse: seq<bool>)
    requires Chained(home, b) && forall i | 0 <= i < |b| :: b[i] == []
    requires forall i | 0 <= i < |inUse| :: !inUse[i]
    ensures AllCounted(home, b) && Indexed(home, b, inUse, map[])
    ensures forall k :: Lookup(home, b, k) == None
  {
  }

  lemma CountedEmpty(r: Stat)
    requires Counted(r)
    ensures r.cobNum == 0 <==> Chunks(r.words) == {}
  {
  }
}
