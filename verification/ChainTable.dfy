/** The chained hash table of src/lib/cef_hash.c, which holds the PIT and the content records.  The
    chains are linked lists of cells, newest cell first.  What a store or a removal does to the
    cells is stated on sequences; the table relinks its nodes and is proved equal. */
module ChainTable {
  import opened Bytes
  import opened Constants

  datatype Cell<+E> = Cell(key: Key, elem: E)
  type Chain<+E> = seq<Cell<E>>

  ghost predicate Distinct<E>(c: Chain<E>) {
    forall i, j | 0 <= i < j < |c| :: c[i].key != c[j].key
  }

  /** Every cell is in the bucket of its key, and no bucket repeats a key.  `home` is the digest
      of a key reduced modulo the number of buckets. */
  ghost predicate Chained<E>(home: Key -> nat, b: seq<Chain<E>>) {
    && (forall k :: home(k) < |b|)
    && (forall i | 0 <= i < |b| :: Distinct(b[i]) && Homed(home, b[i], i))
  }

  ghost predicate Homed<E>(home: Key -> nat, c: Chain<E>, i: nat) {
    forall j | 0 <= j < |c| :: home(c[j].key) == i
  }

  /** `next` is the first non-empty bucket at or after `from`, cyclically. */
  ghost predicate First<E>(b: seq<Chain<E>>, from: nat, next: nat)
    requires from <= |b|
  {
    && next < |b| && b[next] != []
    && if from <= next then forall i | from <= i < next :: b[i] == []
       else (forall i | from <= i < |b| :: b[i] == []) && (forall i | 0 <= i < next :: b[i] == [])
  }

  /** The position of a key in a chain. */
  function Index<E>(c: Chain<E>, key: Key): (r: Option<nat>)
    ensures match r
            case Some(i) => i < |c| && c[i].key == key && forall j | 0 <= j < i :: c[j].key != key
            case None => forall j | 0 <= j < |c| :: c[j].key != key
  {
    if c == [] then None
    else if c[0].key == key then Some(0)
    else match Index(c[1..], key)
         case Some(i) => assert c[1..][i] == c[i + 1]; Some(i + 1)
         case None => assert forall j | 0 < j < |c| :: c[j] == c[1..][j - 1]; None
  }

  function Lookup<E>(home: Key -> nat, b: seq<Chain<E>>, key: Key): Option<E>
    requires home(key) < |b|
  {
    var c := b[home(key)];
    match Index(c, key)
    case Some(i) => Some(c[i].elem)
    case None => None
  }

  /** In a chain without repeats a key is at the one position that holds it. */
  lemma IndexUnique<E>(c: Chain<E>, i: nat)
    requires Distinct(c) && i < |c|
    ensures Index(c, c[i].key) == Some(i)
  {
  }

  /** A chain after its cell `i` is unlinked. */
  function Without<E>(c: Chain<E>, i: nat): (r: Chain<E>)
    requires i < |c|
  {
    c[..i] + c[i + 1..]
  }

  lemma WithoutLooks<E>(c: Chain<E>, i: nat, key: Key)
    requires Distinct(c) && i < |c|
    ensures Distinct(Without(c, i))
    ensures Index(Without(c, i), key).Some? <==> Index(c, key).Some? && key != c[i].key
    ensures Index(Without(c, i), key).Some? ==>
              Without(c, i)[Index(Without(c, i), key).value] == c[Index(c, key).value]
  {
    hide Index;
    var r := Without(c, i);
    assert forall j | 0 <= j < |r| :: r[j] == if j < i then c[j] else c[j + 1];
    if Index(c, key).Some? && key != c[i].key {
      var j := Index(c, key).value;
      assert r[if j < i then j else j - 1] == c[j];
    }
    if Index(r, key).Some? {
      var j := Index(r, key).value;
      assert c[if j < i then j else j + 1] == r[j];
    }
  }

  /** A chain after `elem` is stored under `key`: in place, or in a new cell at the front. */
  function Stored<E>(c: Chain<E>, key: Key, elem: E): (r: Chain<E>) {
    match Index(c, key)
    case Some(i) => c[i := Cell(key, elem)]
    case None => [Cell(key, elem)] + c
  }

  /** The buckets after a store, and after a removal. */
  function StoreIn<E>(home: Key -> nat, b: seq<Chain<E>>, key: Key, elem: E): (r: seq<Chain<E>>)
    requires home(key) < |b|
    ensures |r| == |b|
  {
    b[home(key) := Stored(b[home(key)], key, elem)]
  }

  function DropFrom<E>(home: Key -> nat, b: seq<Chain<E>>, key: Key): (r: seq<Chain<E>>)
    requires home(key) < |b|
    ensures |r| == |b|
  {
    match Index(b[home(key)], key)
    case Some(i) => b[home(key) := Without(b[home(key)], i)]
    case None => b
  }

  lemma StoreInUpdates<E>(home: Key -> nat, b: seq<Chain<E>>, key: Key, elem: E)
    requires Chained(home, b)
    ensures var r := StoreIn(home, b, key, elem);
            && Chained(home, r)
            && (forall k :: Lookup(home, r, k) == if k == key then Some(elem) else Lookup(home, b, k))
            && |Flat(r)| == |Flat(b)| + if Lookup(home, b, key).None? then 1 else 0
  {
    StoredLooks(b[home(key)], key, elem);
    FlatUpdate(b, home(key), Stored(b[home(key)], key, elem));
  }

  lemma DropFromUpdates<E>(home: Key -> nat, b: seq<Chain<E>>, key: Key)
    requires Chained(home, b)
    ensures var r := DropFrom(home, b, key);
            && Chained(home, r)
            && (forall k :: Lookup(home, r, k) == if k == key then None else Lookup(home, b, k))
            && |Flat(r)| == |Flat(b)| - if Lookup(home, b, key).Some? then 1 else 0
  {
    var c := b[home(key)];
    if Index(c, key).Some? {
      var i := Index(c, key).value;
      forall k {
        WithoutLooks(c, i, k);
      }
      FlatUpdate(b, home(key), Without(c, i));
    }
  }

  /** A cell of a chain, linked to the next one. */
  class Node<E> {
    const key: Key
    var elem: E
    var next: Node?<E>

    constructor (key: Key, elem: E, next: Node?<E>)
      ensures this.key == key && this.elem == elem && this.next == next
    {
      this.key, this.elem, this.next := key, elem, next;
    }
  }

  ghost function At<E>(p: seq<Node<E>>, i: nat): Node?<E> {
    if i < |p| then p[i] else null
  }

  /** The list that starts at `head` runs through the nodes `p`, which hold the cells `c`. */
  ghost predicate Holds<E>(head: Node?<E>, p: seq<Node<E>>, c: Chain<E>)
    reads p
  {
    && |p| == |c| && head == At(p, 0)
    && forall j {:trigger p[j].next} {:trigger p[j].key} {:trigger p[j].elem} | 0 <= j < |p| ::
         p[j].next == At(p, j + 1) && p[j].key == c[j].key && p[j].elem == c[j].elem
  }

  class ChainTable<E> {
    const home: Key -> nat
    const tbl: array<Node?<E>>
    var elemNum: int
    ghost var cells: seq<Chain<E>>          // what each bucket holds
    ghost var paths: seq<seq<Node<E>>>      // the nodes of each bucket
    ghost var repr: set<Node<E>>

    /** Bucket `i` holds exactly `cells[i]`. */
    ghost predicate Bucket(i: nat)
      reads this`cells, this`paths, this`repr, tbl, repr
    {
      && i < |cells| == |paths| == tbl.Length
      && (forall j | 0 <= j < |paths[i]| :: paths[i][j] in repr)
      && Holds(tbl[i], paths[i], cells[i])
    }

    ghost predicate Laid()
      reads this`cells, this`paths, this`repr, tbl, repr
    {
      |cells| == |paths| == tbl.Length && forall i: nat | i < |cells| :: Bucket(i)
    }

    ghost predicate Valid()
      reads this, tbl, repr
    {
      Laid() && Chained(home, cells) && elemNum == |Flat(cells)|
    }

    constructor (hash: Key -> nat, size: nat)
      requires 0 < size
      ensures Valid() && fresh(tbl) && fresh(repr) && tbl.Length == size && elemNum == 0
      ensures forall i | 0 <= i < size :: cells[i] == []
      ensures forall key :: home(key) == hash(key) % size
    {
      this.home := key => hash(key) % size;
      this.tbl := new Node?<E>[size](_ => null);
      this.elemNum := 0;
      this.cells := seq(size, _ => []);
      this.paths := seq(size, _ => []);
      this.repr := {};
      new;
      FlatEmpty(cells);
    }

    /** Walks the chain of bucket `b`. */
    method Walk(b: nat, key: Key) returns (cp: Node?<E>)
      requires Valid() && b < tbl.Length
      ensures match Index(cells[b], key)
              case Some(i) =>
                && i < |cells[b]| == |paths[b]| && cp == paths[b][i]
                && cp in repr && cp.key == key && cp.elem == cells[b][i].elem
              case None => cp == null
    {
      hide Chained;
      assert Bucket(b);
      ghost var c, p := cells[b], paths[b];
      ghost var i := 0;
      cp := tbl[b];
      while cp != null
        invariant 0 <= i <= |c| && cp == At(p, i)
        invariant forall j | 0 <= j < i :: c[j].key != key
        decreases |c| - i
      {
        if cp.key == key {
          return;
        }
        cp := cp.next;
        i := i + 1;
      }
    }

    method Fetch(key: Key) returns (r: Option<E>)
      requires Valid()
      ensures r == Lookup(home, cells, key)
    {
      var cp := Walk(home(key), key);
      r := if cp != null then Some(cp.elem) else None;
    }

    /** Node `n` is in no bucket but `b`, where it is node `i`. */
    ghost predicate OnlyAt(n: Node<E>, b: nat, i: nat)
      reads this`paths
    {
      forall k, j | 0 <= k < |paths| && 0 <= j < |paths[k]| && paths[k][j] == n :: k == b && j == i
    }

    /** No two places of the table hold the same node, because no two hold the same key. */
    lemma NodeOnce(b: nat, i: nat)
      requires Valid() && b < |cells| && i < |cells[b]|
      ensures i < |paths[b]| && OnlyAt(paths[b][i], b, i)
    {
      assert Bucket(b);
      forall k, j | 0 <= k < |paths| && 0 <= j < |paths[k]| && paths[k][j] == paths[b][i]
        ensures k == b && j == i
      {
        assert Bucket(k);
        assert cells[k][j].key == paths[k][j].key == cells[b][i].key;
      }
    }

    /** Writes the element of the cell in node `cp`. */
    method Rewrite(cp: Node<E>, elem: E, ghost b: nat, ghost i: nat)
      requires Laid() && b < |cells| && i < |cells[b]| == |paths[b]| && cp == paths[b][i] && OnlyAt(cp, b, i)
      modifies cp`elem, this`cells
      ensures Laid() && cells == old(cells)[b := old(cells)[b][i := Cell(cp.key, elem)]]
    {
      assert Bucket(b);
      cp.elem := elem;
      cells := cells[b := cells[b][i := Cell(cp.key, elem)]];
      forall k: nat | k < |cells| ensures Bucket(k) {
        assert old(Bucket(k));
      }
    }

    /** Links a new cell at the front of bucket `b`. */
    method Push(b: nat, key: Key, elem: E)
      requires Laid() && b < |cells|
      modifies this`cells, this`paths, this`repr, tbl
      ensures Laid() && fresh(repr - old(repr))
      ensures cells == old(cells)[b := [Cell(key, elem)] + old(cells)[b]]
    {
      assert Bucket(b);
      var cell := new Node(key, elem, tbl[b]);
      tbl[b] := cell;
      ghost var p := paths[b];
      paths := paths[b := [cell] + p];
      cells := cells[b := [Cell(key, elem)] + cells[b]];
      repr := repr + {cell};
      assert forall j | 0 < j < |paths[b]| :: paths[b][j] == p[j - 1];
      forall k: nat | k < |cells| ensures Bucket(k) {
        assert old(Bucket(k));
      }
    }

    /** Replaces the element of a stored key in place, or links a new cell at the front. */
    method Store(key: Key, elem: E)
      requires Valid()
      modifies this, tbl, repr
      ensures Valid() && fresh(repr - old(repr))
      ensures cells == StoreIn(home, old(cells), key, elem)
    {
      StoreInUpdates(home, cells, key, elem);
      var b := home(key);
      assert b < |cells| == tbl.Length;
      hide Chained, Lookup, Laid, Index, Bucket;
      var cp := Walk(b, key);
      if cp != null {
        NodeOnce(b, Index(cells[b], key).value);
        Rewrite(cp, elem, b, Index(cells[b], key).value);
      } else {
        Push(b, key, elem);
        elemNum := elemNum + 1;
      }
    }

    /** Takes the first cell of bucket `b` out of its chain. */
    method CutFirst(b: nat, cp: Node<E>)
      requires Laid() && b < |cells| && tbl[b] == cp
      modifies this`cells, this`paths, tbl
      ensures |old(cells[b])| > 0
      ensures Laid() && cells == old(cells)[b := Without(old(cells)[b], 0)]
    {
      assert Bucket(b);
      ghost var p, c := paths[b], cells[b];
      assert p[0] == cp && p[0].next == At(p, 1) && Without(c, 0) == c[1..];
      Shifted(p, c);
      tbl[b] := cp.next;
      paths, cells := paths[b := p[1..]], cells[b := Without(c, 0)];
      forall k: nat | k < |cells| ensures Bucket(k) {
        assert old(Bucket(k));
      }
    }

    /** Takes the cell behind `cp` out of the chain of bucket `b`. */
    method CutNext(cp: Node<E>, ghost b: nat, ghost i: nat)
      requires Laid() && b < |cells| && i + 1 < |cells[b]| == |paths[b]| && cp == paths[b][i] && OnlyAt(cp, b, i)
      modifies cp`next, this`cells, this`paths
      ensures Laid() && cells == old(cells)[b := Without(old(cells)[b], i + 1)]
    {
      assert Bucket(b);
      ghost var p, c := paths[b], cells[b];
      assert p[i].next == At(p, i + 1) && p[i + 1].next == At(p, i + 2);
      ghost var q, d := p[..i + 1] + p[i + 2..], Without(c, i + 1);
      cp.next := cp.next.next;
      forall j | 0 <= j < |q|
        ensures q[j].next == At(q, j + 1) && q[j].key == d[j].key && q[j].elem == d[j].elem && q[j] in repr
      {
        var from := if j <= i then j else j + 1;
        assert q[j] == p[from] && d[j] == c[from] && p[from].key == c[from].key;
      }
      paths, cells := paths[b := q], cells[b := d];
      assert Bucket(b);
      forall k: nat | k < |cells| ensures Bucket(k) {
        assert old(Bucket(k));
      }
    }

    /** Walks a chain that does not begin with `key` to the cell before the one that holds it. */
    method FindBefore(first: Node<E>, b: nat, key: Key) returns (cp: Node<E>, ghost i: nat)
      requires Laid() && b < |cells| && tbl[b] == first && first.key != key
      ensures i < |cells[b]| == |paths[b]| && cp == paths[b][i] && cp in repr
      ensures match Index(cells[b], key)
              case Some(k) =>
                && k == i + 1 && cp.next != null && cp.next == paths[b][k] && cp.next in repr
                && cp.next.elem == cells[b][k].elem
              case None => cp.next == null
    {
      hide Laid, Bucket;
      BucketHead(b);
      ghost var c, p := cells[b], paths[b];
      cp := first;
      i := 0;
      while cp.next != null
        invariant 0 <= i < |c| && cp == p[i]
        invariant forall j | 0 <= j <= i :: c[j].key != key
        decreases |c| - i
      {
        BucketNode(b, i);
        BucketNode(b, i + 1);
        if cp.next.key == key {
          return;
        }
        cp := cp.next;
        i := i + 1;
      }
      BucketNode(b, i);
    }

    /** Unlinks the cell of `key`, at the head of its chain or further on. */
    method Unlink(key: Key) returns (r: Option<E>)
      requires Valid()
      modifies this, tbl, repr
      ensures Valid() && repr == old(repr)
      ensures cells == DropFrom(home, old(cells), key)
      ensures r == Lookup(home, old(cells), key)
    {
      DropFromUpdates(home, cells, key);
      var b := home(key);
      assert b < |cells| == tbl.Length;
      hide Chained, Laid, Bucket, Without, Index;
      BucketHead(b);
      var cp := tbl[b];
      if cp == null {
        return None;
      }
      if cp.key == key {
        r := Some(cp.elem);
        CutFirst(b, cp);
        elemNum := elemNum - 1;
        return;
      }
      var before, i := FindBefore(cp, b, key);
      if before.next == null {
        return None;
      }
      r := Some(before.next.elem);
      NodeOnce(b, i);
      CutNext(before, b, i);
      elemNum := elemNum - 1;
    }

    method ItemGet(key: Key) returns (r: Option<E>)
      requires Valid()
      ensures r == if |key| > MAX_KLEN then None else Lookup(home, cells, key)
    {
      if |key| > MAX_KLEN {
        return None;
      }
      r := Fetch(key);
    }

    /** Stores `elem` under `key`; every other key keeps its element. */
    method ItemSet(key: Key, elem: E) returns (r: int)
      requires Valid()
      modifies this, tbl, repr
      ensures Valid() && fresh(repr - old(repr))
      ensures |key| > MAX_KLEN ==> r == FAILED && cells == old(cells) && elemNum == old(elemNum)
      ensures |key| <= MAX_KLEN ==>
        && r == 0
        && (forall k :: Lookup(home, cells, k) == if k == key then Some(elem) else Lookup(home, old(cells), k))
        && elemNum == old(elemNum) + if Lookup(home, old(cells), key).None? then 1 else 0
    {
      hide Lookup, Chained, StoreIn;
      if |key| > MAX_KLEN {
        return FAILED;
      }
      StoreInUpdates(home, cells, key, elem);
      Store(key, elem);
      r := 0;
    }

    /** Removes `key`; every other key keeps its element. */
    method ItemRemove(key: Key) returns (r: Option<E>)
      requires Valid()
      modifies this, tbl, repr
      ensures Valid() && repr == old(repr)
      ensures r == if |key| > MAX_KLEN then None else Lookup(home, old(cells), key)
      ensures cells == if |key| > MAX_KLEN then old(cells) else DropFrom(home, old(cells), key)
      ensures |key| <= MAX_KLEN ==>
        forall k :: Lookup(home, cells, k) == if k == key then None else Lookup(home, old(cells), k)
      ensures elemNum == old(elemNum) - if r.Some? then 1 else 0
    {
      hide Lookup, Chained, DropFrom;
      if |key| > MAX_KLEN {
        return None;
      }
      DropFromUpdates(home, cells, key);
      r := Unlink(key);
    }

    /** The cells of one bucket, counted along the chain. */
    method Count(i: nat) returns (count: nat)
      requires Valid() && i < tbl.Length && tbl[i] != null
      ensures count == |cells[i]| > 0
    {
      hide Chained;
      assert Bucket(i);
      count := 1;
      var cp := tbl[i];
      while cp.next != null
        invariant 0 < count <= |cells[i]| && cp == paths[i][count - 1]
        decreases |cells[i]| - count
      {
        cp := cp.next;
        count := count + 1;
      }
    }

    /** `cef_lhash_tbl_elem_get`: the next non-empty bucket at or after `index`, cyclically, and
        how many cells it has. */
    method ElemGet(index: nat) returns (next: nat, count: nat)
      requires Valid() && index <= tbl.Length
      ensures if exists i :: 0 <= i < |cells| && cells[i] != []
              then First(cells, index, next) && count == |cells[next]|
              else next == 0 && count == 0
    {
      hide Chained, Holds, Bucket;
      Heads();
      var i := index;
      while i < tbl.Length
        invariant index <= i <= tbl.Length
        invariant forall j | index <= j < i :: cells[j] == []
      {
        if tbl[i] != null {
          count := Count(i);
          return i, count;
        }
        i := i + 1;
      }
      i := 0;
      while i < index
        invariant 0 <= i <= index
        invariant forall j | 0 <= j < i :: cells[j] == []
      {
        if tbl[i] != null {
          count := Count(i);
          return i, count;
        }
        i := i + 1;
      }
      return 0, 0;
    }

    /** `cef_lhash_tbl_item_get_from_index`: the element at position `lindex` of a chain, unless the
        chain begins with an empty key. */
    method ItemGetFromIndex(index: nat, lindex: nat) returns (r: Option<E>)
      requires Valid() && index != tbl.Length
      ensures r == if index < tbl.Length && lindex < |cells[index]| && cells[index][0].key != []
                   then Some(cells[index][lindex].elem) else None
    {
      hide Chained;
      if index > tbl.Length {
        return None;
      }
      assert Bucket(index);
      var cp := tbl[index];
      if cp == null || |cp.key| == 0 {
        return None;
      }
      var cnt := 0;
      while cp != null
        invariant 0 <= cnt <= |cells[index]| && cnt <= lindex && cp == At(paths[index], cnt)
        decreases |cells[index]| - cnt
      {
        if cnt == lindex {
          return Some(cp.elem);
        }
        cp := cp.next;
        cnt := cnt + 1;
      }
      r := None;
    }

    /** Empties every chain. */
    method Clear()
      requires Valid()
      modifies this, tbl
      ensures Valid() && repr == old(repr) && elemNum == 0
      ensures |cells| == tbl.Length && forall i | 0 <= i < |cells| :: cells[i] == []
    {
      for i := 0 to tbl.Length
        invariant forall j | 0 <= j < i :: tbl[j] == null
        modifies tbl
      {
        tbl[i] := null;
      }
      elemNum := 0;
      cells := seq(tbl.Length, _ => []);
      paths := seq(tbl.Length, _ => []);
      forall i: nat | i < |cells| ensures Bucket(i) {
      }
      FlatEmpty(cells);
    }

    lemma Heads()
      requires Laid()
      ensures |cells| == tbl.Length && forall i | 0 <= i < |cells| :: tbl[i] == null <==> cells[i] == []
    {
      forall i | 0 <= i < |cells| ensures tbl[i] == null <==> cells[i] == [] {
        assert Bucket(i);
      }
    }

    lemma BucketHead(b: nat)
      requires Laid() && b < |cells|
      ensures |paths| == |cells| == tbl.Length && |paths[b]| == |cells[b]| && tbl[b] == At(paths[b], 0)
      ensures cells[b] != [] ==> tbl[b].key == cells[b][0].key && tbl[b].elem == cells[b][0].elem
    {
      assert Bucket(b);
      assert cells[b] != [] ==> paths[b][0].key == cells[b][0].key;
    }

    lemma BucketNode(b: nat, i: nat)
      requires Laid() && b < |cells| && i < |cells[b]|
      ensures |paths[b]| == |cells[b]|
      ensures var p := paths[b][i];
              && p in repr && p.next == At(paths[b], i + 1)
              && p.key == cells[b][i].key && p.elem == cells[b][i].elem
    {
      assert Bucket(b);
    }
  }

  lemma Shifted<E>(p: seq<Node<E>>, c: Chain<E>)
    requires p != [] && Holds(p[0], p, c)
    ensures Holds(At(p, 1), p[1..], c[1..])
  {
    assert forall j | 0 <= j < |p| - 1 :: p[1..][j] == p[j + 1] && c[1..][j] == c[j + 1];
  }

  lemma {:induction false} FlatEmpty<T>(b: seq<seq<T>>)
    requires forall i | 0 <= i < |b| :: b[i] == []
    ensures Flat(b) == []
  {
    if b != [] {
      FlatEmpty(b[1..]);
    }
  }

  lemma FlatUpdate<T>(b: seq<seq<T>>, i: nat, c: seq<T>)
    requires i < |b|
    ensures |Flat(b[i := c])| == |Flat(b)| - |b[i]| + |c|
  {
    FlatAppend(b[..i], [b[i]] + b[i + 1..]);
    FlatAppend(b[..i], [c] + b[i + 1..]);
    assert ([b[i]] + b[i + 1..])[1..] == b[i + 1..] == ([c] + b[i + 1..])[1..];
    assert b == b[..i] + ([b[i]] + b[i + 1..]);
    assert b[i := c] == b[..i] + ([c] + b[i + 1..]);
  }

  lemma StoredLooks<E>(c: Chain<E>, key: Key, elem: E)
    requires Distinct(c)
    ensures var r := Stored(c, key, elem);
            && Distinct(r)
            && (forall k :: Index(r, k).Some? <==> k == key || Index(c, k).Some?)
            && (forall k | Index(r, k).Some? ::
                  r[Index(r, k).value].elem == if k == key then elem else c[Index(c, k).value].elem)
  {
    var r := Stored(c, key, elem);
    forall k
      ensures Index(r, k).Some? <==> k == key || Index(c, k).Some?
      ensures Index(r, k).Some? ==>
                r[Index(r, k).value].elem == if k == key then elem else c[Index(c, k).value].elem
    {
      if Index(c, key).None? {
        assert r[1..] == c;
      } else if Index(c, k).Some? {
        assert r[Index(c, k).value].key == k;
        IndexUnique(r, Index(c, k).value);
      }
    }
  }
}
