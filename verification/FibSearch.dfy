/** FIB search by longest prefix: `cef_fib_entry_search` of src/lib/cef_fib.c, on names made of
    the type-length-value segments of section 3.6.1 of RFC 8609. */
module FibSearch {
  import opened Bytes
  import opened OpenTable
  import opened HashTable

  const S_TL: nat := 4   // CefC_S_Type + CefC_S_Length

  ghost predicate Segment(s: seq<byte>) {
    |s| >= S_TL && U16(s[2], s[3]) == |s| - S_TL
  }

  ghost predicate Name(segs: seq<seq<byte>>) {
    forall i | 0 <= i < |segs| :: Segment(segs[i])
  }

  /** The first `j` segments of a name, as bytes. */
  function Prefix(segs: seq<seq<byte>>, j: nat): (r: seq<byte>)
    requires j <= |segs|
  {
    Flat(segs[..j])
  }

  lemma PrefixOf(segs: seq<seq<byte>>, j: nat)
    requires j <= |segs|
    ensures Prefix(segs, j) <= Flat(segs)
  {
    assert segs == segs[..j] + segs[j..];
    FlatAppend(segs[..j], segs[j..]);
  }

  /** Segment `i` lies right behind the first `i` segments. */
  lemma SegmentAt(segs: seq<seq<byte>>, i: nat)
    requires i < |segs|
    ensures Prefix(segs, i + 1) == Prefix(segs, i) + segs[i] <= Flat(segs)
  {
    hide Flat;
    Snoc(segs, i);
    FlatSnoc(segs[..i], segs[i]);
    PrefixOf(segs, i + 1);
  }

  lemma {:induction false} PrefixGrows(segs: seq<seq<byte>>, i: nat, j: nat)
    requires Name(segs) && i <= j <= |segs|
    ensures |Prefix(segs, j)| >= |Prefix(segs, i)| + S_TL * (j - i)
    decreases j
  {
    if i < j {
      PrefixGrows(segs, i, j - 1);
      SegmentAt(segs, j - 1);
    }
  }

  /** The walk over the segments of the first `len` bytes: it stops at the start of the last one. */
  method PeelLast(name: seq<byte>, len: nat, ghost segs: seq<seq<byte>>, ghost j: nat) returns (msp: nat)
    requires Name(segs) && name == Flat(segs) && 0 < j <= |segs| && len == |Prefix(segs, j)|
    ensures msp == |Prefix(segs, j - 1)| < len
  {
    PrefixGrows(segs, 0, j);
    PrefixOf(segs, j);
    msp := 0;
    var mep := len - 1;
    ghost var i: nat := 0;
    while msp < mep
      invariant i < j && msp == |Prefix(segs, i)| && msp + S_TL <= len
      decreases j - i
    {
      SegmentAt(segs, i);
      PrefixGrows(segs, i + 1, j);
      assert Segment(segs[i]) && name[msp..msp + |segs[i]|] == segs[i];
      var length := U16(name[msp + 2], name[msp + 3]);
      if msp + S_TL + length < mep {
        msp := msp + S_TL + length;
        i := i + 1;
      } else {
        assert i == j - 1;
        break;
      }
    }
  }

  /** The longest prefix of at least one and at most `j` whole segments that is in the FIB. */
  ghost function Longest<E>(m: map<Key, E>, segs: seq<seq<byte>>, j: nat): (r: Option<nat>)
    requires j <= |segs|
    ensures match r
            case Some(i) => 0 < i <= j && Prefix(segs, i) in m && forall k | i < k <= j :: Prefix(segs, k) !in m
            case None => forall k | 0 < k <= j :: Prefix(segs, k) !in m
  {
    if j == 0 then None
    else if Prefix(segs, j) in m then Some(j)
    else Longest(m, segs, j - 1)
  }

  /** The search: tries the whole name, then peels one segment a time. */
  method EntrySearch<E>(fib: OpenHash<E>, name: seq<byte>, defaultRoute: Option<E>, ghost segs: seq<seq<byte>>)
    returns (r: Option<E>)
    requires fib.Valid() && Name(segs) && name == Flat(segs)
    ensures match Longest(fib.Map(), segs, |segs|)
            case Some(i) => r == Some(fib.Map()[Prefix(segs, i)])
            case None => r == defaultRoute
  {
    hide Table, Contents, Segment;
    var len := |name|;
    ghost var j: nat := |segs|;
    assert segs[..j] == segs;
    while len > 0
      invariant j <= |segs| && len == |Prefix(segs, j)|
      invariant Longest(fib.Map(), segs, j) == Longest(fib.Map(), segs, |segs|)
      decreases len
    {
      PrefixOf(segs, j);
      assert name[..len] == Prefix(segs, j);
      var entry := fib.ItemGet(name[..len]);
      if entry.Some? {
        return entry;
      }
      len := PeelLast(name, len, segs, j);
      j := j - 1;
    }
    PrefixGrows(segs, 0, j);
    return defaultRoute;
  }
}
