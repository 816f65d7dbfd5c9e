/** Enumerating the records of matching contents, one call a record:
    `csmgr_stat_content_salvage` of src/lib/cef_csmgr_stat.c.  Between calls it keeps a bucket
    number and a position in that bucket's chain. */
module StatSalvage {
  import opened Bytes
  import opened ChainTable
  import opened StatTable

  /** The test of the walk: no name, or the bytes at the front are those of the name. */
  predicate Starts(key: Key, name: Key) {
    |name| == 0 || (|name| <= |key| && key[..|name|] == name)
  }

  /** The matching records of a chain from position `p` on, and of all buckets from `i` on. */
  function InChain(c: Chain<Stat>, name: Key, p: nat): (r: seq<Cell<Stat>>)
    decreases |c| - p
  {
    if p >= |c| then [] else (if Starts(c[p].key, name) then [c[p]] else []) + InChain(c, name, p + 1)
  }

  lemma InChainStep(c: Chain<Stat>, name: Key, p: nat)
    requires p <= |c|
    ensures var m := InChain(c, name, p);
            if p == |c| then m == []
            else if Starts(c[p].key, name) then m != [] && m[0] == c[p] && m[1..] == InChain(c, name, p + 1)
            else m == InChain(c, name, p + 1)
  {
  }

  function InBuckets(b: Records, name: Key, i: nat): (r: seq<Cell<Stat>>)
    decreases |b| - i
  {
    if i >= |b| then [] else InChain(b[i], name, 0) + InBuckets(b, name, i + 1)
  }

  /** A saved position: in bucket `start`, behind cell `proc`; -1 stands for its beginning. */
  ghost predicate Cursor(b: Records, start: nat, proc: int) {
    -1 <= proc && start <= |b| && (proc != -1 ==> start < |b| && proc + 1 < |b[start]|)
  }

  /** The records still to be returned from a saved position. */
  function Remaining(b: Records, name: Key, start: nat, proc: int): (r: seq<Cell<Stat>>)
    requires Cursor(b, start, proc)
  {
    if start == |b| then [] else InChain(b[start], name, proc + 1) + InBuckets(b, name, start + 1)
  }

  lemma Behind(b: Records, name: Key, i: nat)
    requires i < |b|
    ensures Remaining(b, name, i + 1, -1) == InBuckets(b, name, i + 1)
    ensures InChain(b[i], name, |b[i]|) == [] && [] + InBuckets(b, name, i + 1) == InBuckets(b, name, i + 1)
  {
  }

  /** The remaining records from a position are those of its bucket, then those behind it. */
  lemma RemainingHere(b: Records, name: Key, i: nat, proc: int)
    requires i < |b| && Cursor(b, i, proc)
    ensures Remaining(b, name, i, proc) == InChain(b[i], name, proc + 1) + InBuckets(b, name, i + 1)
  {
  }

  lemma RemainingSteps(b: Records, name: Key, i: nat, proc: int)
    requires i <= |b| && Cursor(b, i, proc)
    ensures var left := Remaining(b, name, i, proc);
            if i == |b| then left == [] else
            var m := InChain(b[i], name, proc + 1);
            if m == [] then left == Remaining(b, name, i + 1, -1)
            else left != [] && left[0] == m[0] && left[1..] == m[1..] + InBuckets(b, name, i + 1)
  {
    hide InChain, InBuckets;
    if i < |b| {
      Behind(b, name, i);
    }
  }

  class Salvager {
    const tbl: Records    // the table, which does not change between the calls
    var start: nat        // *start_index
    var proc: int         // procelnum

    ghost predicate Valid()
      reads this
    {
      Cursor(tbl, start, proc)
    }

    constructor (tbl: Records)
      ensures Valid() && this.tbl == tbl && start == 0 && proc == -1
    {
      this.tbl := tbl;
      start, proc := 0, -1;
    }

    /** The walk along one chain; in the bucket of the saved position it first skips to behind it. */
    method Walk(i: nat, name: Key) returns (r: Option<Cell<Stat>>)
      requires Valid() && start <= i < |tbl| && (i > start ==> proc == -1)
      modifies this
      ensures Valid()
      ensures var m := InChain(tbl[i], name, old(proc) + 1);
              if m == [] then r == None && start == old(start) && proc == -1
              else r == Some(m[0]) && Remaining(tbl, name, start, proc) == m[1..] + InBuckets(tbl, name, i + 1)
    {
      hide InBuckets, Remaining, InChain, Starts;
      ghost var m := InChain(tbl[i], name, proc + 1);
      var p, lnum := 0, 0;
      while p < |tbl[i]|
        invariant 0 <= p == lnum <= |tbl[i]| && start == old(start) && Cursor(tbl, start, proc)
        invariant proc != -1 ==> i == start && p == 0 && proc == old(proc)
        invariant proc == -1 ==> m == InChain(tbl[i], name, p)
        decreases proc != -1, |tbl[i]| - p
      {
        if i == start && proc != -1 {
          p := p + proc + 1;
          lnum := lnum + proc + 1;
          proc := -1;
          continue;
        }
        var cp := tbl[i][p];
        InChainStep(tbl[i], name, p);
        if Starts(cp.key, name) {
          if p + 1 == |tbl[i]| {
            proc := -1;
            start := i + 1;
            Behind(tbl, name, i);
          } else {
            RemainingHere(tbl, name, i, lnum);
            proc := lnum;
            start := i;
          }
          return Some(cp);
        }
        lnum := lnum + 1;
        p := p + 1;
      }
      InChainStep(tbl[i], name, p);
      return None;
    }

    /** One call.  It returns the first of the remaining records and moves behind it, or nothing
        when none remains. */
    method Next(name: Key) returns (r: Option<Cell<Stat>>)
      requires Valid()
      modifies this
      ensures Valid()
      ensures var left := Remaining(tbl, name, old(start), old(proc));
              if left == [] then r == None
              else r == Some(left[0]) && Remaining(tbl, name, start, proc) == left[1..]
    {
      hide InChain, InBuckets, Remaining;
      ghost var left := Remaining(tbl, name, start, proc);
      var i := start;
      while i < |tbl|
        invariant Valid() && start <= i <= |tbl| && start == old(start)
        invariant i == start || proc == -1
        invariant left == Remaining(tbl, name, i, proc)
      {
        RemainingSteps(tbl, name, i, proc);
        r := Walk(i, name);
        if r.Some? {
          return;
        }
        i := i + 1;
      }
      RemainingSteps(tbl, name, i, proc);
      return None;
    }

    /** Calling until nothing is returned: on an unchanged table this yields every matching record
        exactly once, in table order. */
    method Salvage(name: Key) returns (found: seq<Cell<Stat>>)
      requires Valid() && start == 0 && proc == -1
      modifies this
      ensures found == InBuckets(tbl, name, 0)
    {
      found := [];
      ghost var all := InBuckets(tbl, name, 0);
      var more := true;
      while more
        invariant Valid()
        invariant more ==> found + Remaining(tbl, name, start, proc) == all
        invariant !more ==> found == all
        decreases more, |Remaining(tbl, name, start, proc)|
      {
        var r := Next(name);
        if r.Some? {
          found := found + [r.value];
        } else {
          more := false;
        }
      }
    }
  }

  /** What a chain contributes: exactly its matching cells, none twice. */
  lemma {:induction false} InChainAll(c: Chain<Stat>, name: Key, p: nat)
    requires Distinct(c)
    ensures forall i | p <= i < |c| && Starts(c[i].key, name) :: c[i] in InChain(c, name, p)
    ensures forall e <- InChain(c, name, p) :: Starts(e.key, name) && exists i :: p <= i < |c| && c[i] == e
    ensures Distinct(InChain(c, name, p))
    decreases |c| - p
  {
    if p < |c| {
      InChainAll(c, name, p + 1);
    }
  }

  lemma Stored(home: Key -> nat, b: Records, i: nat, j: nat)
    requires Chained(home, b) && i < |b| && j < |b[i]|
    ensures home(b[i][j].key) == i && Lookup(home, b, b[i][j].key) == Some(b[i][j].elem)
  {
  }

  lemma Homes(home: Key -> nat, b: Records, key: Key) returns (j: nat)
    requires Chained(home, b) && Lookup(home, b, key).Some?
    ensures home(key) < |b| && j < |b[home(key)]|
    ensures b[home(key)][j] == Cell(key, Lookup(home, b, key).value)
  {
    j := Index(b[home(key)], key).value;
  }

  /** What is enumerated is exactly the stored records whose names start with `name`, none twice. */
  lemma {:induction false} InBucketsAll(home: Key -> nat, b: Records, name: Key, i: nat)
    requires Chained(home, b)
    ensures forall e <- InBuckets(b, name, i) ::
              Starts(e.key, name) && home(e.key) >= i && Lookup(home, b, e.key) == Some(e.elem)
    ensures forall k | Starts(k, name) && home(k) >= i && Lookup(home, b, k).Some? ::
              Cell(k, Lookup(home, b, k).value) in InBuckets(b, name, i)
    ensures Distinct(InBuckets(b, name, i))
    decreases |b| - i
  {
    assert forall k :: home(k) < |b|;
    if i < |b| {
      var here, later := InChain(b[i], name, 0), InBuckets(b, name, i + 1);
      assert InBuckets(b, name, i) == here + later;
      assert Distinct(b[i]);
      hide Chained, Lookup, InBuckets, InChain;
      InBucketsAll(home, b, name, i + 1);
      InChainAll(b[i], name, 0);
      forall e <- here
        ensures Starts(e.key, name) && home(e.key) == i && Lookup(home, b, e.key) == Some(e.elem)
      {
        var j :| 0 <= j < |b[i]| && b[i][j] == e;
        Stored(home, b, i, j);
      }
      forall k | Starts(k, name) && home(k) >= i && Lookup(home, b, k).Some?
        ensures Cell(k, Lookup(home, b, k).value) in InBuckets(b, name, i)
      {
        var j := Homes(home, b, k);
        if home(k) == i {
          assert b[i][j] in here;
        }
      }
    }
  }
  lemma StartsPrefix(key: Key, name: Key)
    ensures Starts(key, name) <==> name <= key
  {
  }

  /** The whole enumeration: a stored record is in it exactly if the name is a prefix of its name,
      and it is in it once. */
  lemma SalvageAll(home: Key -> nat, b: Records, name: Key)
    requires Chained(home, b)
    ensures forall e: Cell<Stat> :: e in InBuckets(b, name, 0) <==>
              name <= e.key && Lookup(home, b, e.key) == Some(e.elem)
    ensures Distinct(InBuckets(b, name, 0))
  {
    assert forall k :: home(k) < |b|;
    hide Chained, Lookup, InBuckets, Starts, Distinct;
    InBucketsAll(home, b, name, 0);
    forall e: Cell<Stat>
      ensures e in InBuckets(b, name, 0) <==> name <= e.key && Lookup(home, b, e.key) == Some(e.elem)
    {
      StartsPrefix(e.key, name);
    }
  }
}
