/** The face allocator of src/lib/cef_face.c for local faces.

    A face id indexes `face_tbl`; an open face names a slot of the socket table by its index, and
    the socket in that slot names the face back.  Runs are local face creations and closes. */
module FaceTable {
  import opened Bytes
  import opened Constants
  import opened Counting
  import opened OpenTable
  import opened HashTable

  const RESERVED: nat := 32           // CefC_Face_Reserved
  const FD_INVALID: int := -1         // CefC_Fd_Invalid
  const FD_LIMIT: nat := 0x8000_0000  // a descriptor is a non-negative int

  datatype Sock = Sock(faceid: nat, skfd: int)
  datatype Face = Face(index: nat, fd: int, local: bool)

  // ---------------------------------------------------------------- socket names

  function Digits(n: nat): (r: seq<byte>)
    ensures r != []
  {
    if n < 10 then [48 + n] else Digits(n / 10) + [48 + n % 10]
  }

  /** "app-face-" and the descriptor in decimal. */
  function Name(fd: nat): Key {
    [97, 112, 112, 45, 102, 97, 99, 101, 45] + Digits(fd)
  }

  lemma {:induction false} DigitsDiffer(a: nat, b: nat)
    requires a != b
    ensures Digits(a) != Digits(b)
  {
    var s, t := Digits(a), Digits(b);
    if a % 10 != b % 10 {
      assert s[|s| - 1] == 48 + a % 10 && t[|t| - 1] == 48 + b % 10;
    } else if a >= 10 && b >= 10 {
      DigitsDiffer(a / 10, b / 10);
      assert s[..|s| - 1] == Digits(a / 10) && t[..|t| - 1] == Digits(b / 10);
    } else {
      assert |s| != |t|;
    }
  }

  /** The number that some decimal digits write. */
  function Decimal(s: seq<byte>): int {
    if s == [] then 0 else 10 * Decimal(s[..|s| - 1]) + s[|s| - 1] - 48
  }

  /** The digits write the number, without a leading zero. */
  lemma {:induction false} DigitsValue(n: nat)
    ensures Decimal(Digits(n)) == n
    ensures forall i | 0 <= i < |Digits(n)| :: 48 <= Digits(n)[i] <= 57
    ensures |Digits(n)| > 1 ==> Digits(n)[0] != 48
  {
    var s := Digits(n);
    if n < 10 {
      assert s[..0] == [];
    } else {
      DigitsValue(n / 10);
      assert s[..|s| - 1] == Digits(n / 10);
    }
  }

  function Power(k: nat): nat {
    if k == 0 then 1 else 10 * Power(k - 1)
  }

  lemma {:induction false} DigitsLength(n: nat, k: nat)
    requires 0 < k && n < Power(k)
    ensures |Digits(n)| <= k
  {
    if n >= 10 {
      DigitsLength(n / 10, k - 1);
    }
  }

  /** Names of different descriptors differ, and a name fits a table key. */
  lemma NameFits(fd: nat)
    requires fd < FD_LIMIT
    ensures 0 < |Name(fd)| <= MAX_KLEN
    ensures forall other: nat :: Name(other) == Name(fd) ==> other == fd
    ensures 9 < |Name(fd)| && Decimal(Name(fd)[9..]) == fd
    ensures forall i | 0 <= i < 9 :: Name(fd)[i] == "app-face-"[i] as int
  {
    DigitsValue(fd);
    assert Name(fd)[9..] == Digits(fd);
    assert Power(10) == 10_000_000_000;
    DigitsLength(fd, 10);
    forall other: nat | Name(other) == Name(fd) ensures other == fd {
      assert Name(other)[9..] == Digits(other) && Name(fd)[9..] == Digits(fd);
      if other != fd {
        DigitsDiffer(other, fd);
      }
    }
  }

  // ---------------------------------------------------------------- the two tables

  /** Every open face names its own socket, and every socket names its own open face. */
  ghost predicate Agree(faces: seq<Face>, t: seq<Slot<Sock>>) {
    && (forall f | 0 <= f < |faces| && 0 < faces[f].fd ::
          && RESERVED <= f && faces[f].index < |t|
          && t[faces[f].index].Live?
          && t[faces[f].index].key == Name(faces[f].fd)
          && t[faces[f].index].elem == Sock(f, faces[f].fd))
    && (forall p | 0 <= p < |t| && t[p].Live? ::
          && RESERVED <= t[p].elem.faceid < |faces|
          && faces[t[p].elem.faceid].index == p
          && 0 < faces[t[p].elem.faceid].fd == t[p].elem.skfd)
  }

  /** The open faces, each with its descriptor. */
  ghost function Open(faces: seq<Face>): map<nat, int> {
    map f: nat | f < |faces| && 0 < faces[f].fd :: faces[f].fd
  }

  lemma AgreeOpen(faces: seq<Face>, t: seq<Slot<Sock>>, f: nat, fd: nat, i: nat, hash: nat)
    requires Agree(faces, t) && RESERVED <= f < |faces| && faces[f].fd <= 0
    requires i < |t| && !t[i].Live? && 0 < fd
    ensures var faces' := faces[f := Face(i, fd, true)];
            && Agree(faces', t[i := Live(hash, Name(fd), Sock(f, fd))])
            && Open(faces') == Open(faces)[f := fd]
  {
  }

  /** The two tables after face `f` is closed: whatever socket is in the slot it points to goes. */
  function AfterClose(faces: seq<Face>, t: seq<Slot<Sock>>, f: nat): (r: (seq<Face>, seq<Slot<Sock>>))
    requires f < |faces| && faces[f].index < |t|
    requires t[faces[f].index].Live? ==> t[faces[f].index].elem.faceid < |faces|
  {
    var p := faces[f].index;
    if !t[p].Live? then (faces, t) else
    var owner := t[p].elem.faceid;
    (faces[owner := faces[owner].(fd := FD_INVALID)][f := Face(0, FD_INVALID, false)], t[p := Tomb])
  }

  /** Closing face 33, which is not open, closes face 32, whose socket is in slot 0. */
  lemma CloseOther(hash: nat)
    ensures var faces := seq(34, i => if i == 32 then Face(0, 5, true) else Face(0, FD_INVALID, false));
            var t := [Live(hash, Name(5), Sock(32, 5))] + seq(36, _ => Empty);
            && Agree(faces, t) && Open(faces) == map[32 := 5]
            && Open(AfterClose(faces, t, 33).0) == map[]
  {
    var faces := seq(34, i => if i == 32 then Face(0, 5, true) else Face(0, FD_INVALID, false));
    assert faces[33] == Face(0, FD_INVALID, false) && faces[32] == Face(0, 5, true);
  }

  lemma AgreeClose(faces: seq<Face>, t: seq<Slot<Sock>>, p: nat, f: nat)
    requires Agree(faces, t) && p < |t| && t[p].Live? && f < |faces| && faces[f].index == p
    ensures var owner := t[p].elem.faceid;
            && owner < |faces| && 0 < t[p].elem.skfd
            && var (faces', t') := AfterClose(faces, t, f);
            && Agree(faces', t')
            && Open(faces') == Open(faces) - {owner}
            && (f in Open(faces) ==> owner == f)
  {
  }

  /** Nothing else changes: a face keeps what it has unless it is closed or owns the socket, and the
      closed face starts afresh. */
  lemma CloseOnly(faces: seq<Face>, t: seq<Slot<Sock>>, f: nat)
    requires Agree(faces, t) && f < |faces| && faces[f].index < |t|
    ensures var p, (faces', t') := faces[f].index, AfterClose(faces, t, f);
            if t[p].Live? then
              && |faces'| == |faces| && faces'[f] == Face(0, FD_INVALID, false)
              && (forall g | 0 <= g < |faces| && g != f && g != t[p].elem.faceid :: faces'[g] == faces[g])
              && |t'| == |t| && t'[p].Tomb? && forall q | 0 <= q < |t| && q != p :: t'[q] == t[q]
            else faces' == faces && t' == t
  {
  }

  lemma OpenLive(faces: seq<Face>, t: seq<Slot<Sock>>, f: nat)
    requires Agree(faces, t) && f in Open(faces)
    ensures f < |faces| && faces[f].index < |t| && t[faces[f].index].Live?
  {
  }

  /** Only the descriptor and the index of a face matter to the socket table. */
  lemma AgreeUnmark(faces: seq<Face>, t: seq<Slot<Sock>>, f: nat)
    requires Agree(faces, t) && f < |faces|
    ensures var faces' := faces[f := faces[f].(local := false)];
            Agree(faces', t) && Open(faces') == Open(faces)
  {
  }

  /** The slot a new key went to was not live before. */
  lemma SlotWasFree<E>(h: Key -> nat, t: seq<Slot<E>>, at: map<Key, nat>, key: Key, elem: E, i: nat)
    requires Table(h, t, at) && key !in at && i < |t|
    requires Table(h, t[i := Live(h(key), key, elem)], at[key := i])
    ensures !t[i].Live?
  {
    assert t[i].Live? ==> t[i].key in at && at[t[i].key] == i;
    var t', at' := t[i := Live(h(key), key, elem)], at[key := i];
    assert forall k <- at :: k in at' && t'[at'[k]].key == k;
  }

  /** There are fewer sockets than would fill the table, so an unused face always finds a slot. */
  lemma RoomLeft(h: Key -> nat, faces: seq<Face>, t: seq<Slot<Sock>>, at: map<Key, nat>, key: Key)
    requires Table(h, t, at) && Agree(faces, t)
    requires RESERVED <= |faces| <= |t|
    ensures !NoRoom(h, t, key)
  {
    if NoRoom(h, t, key) {
      NoRoomSize(h, t, at, key);
      var ids := map k | k in at :: t[at[k]].elem.faceid;
      assert ids.Keys == at.Keys;
      RangeSize(RESERVED, |faces|);
      Pigeonhole(ids, Range(RESERVED, |faces|));
    }
  }

  class Faces {
    const faceTbl: array<Face>
    const sockTbl: OpenHash<Sock>
    var nextId: nat                 // assigned_faceid

    ghost predicate Valid()
      reads this, faceTbl, sockTbl, sockTbl.tbl
    {
      && sockTbl.Valid()
      && RESERVED <= nextId <= faceTbl.Length <= sockTbl.tbl.Length
      && (forall f | 0 <= f < faceTbl.Length :: faceTbl[f].index < sockTbl.tbl.Length)
      && Agree(faceTbl[..], sockTbl.tbl[..])
    }

    /** No face is open at first.  `size` is the prime that sizes the socket table. */
    constructor (h: Key -> nat, max: nat, size: nat)
      requires RESERVED <= max <= size
      ensures Valid() && fresh(faceTbl) && fresh(sockTbl) && fresh(sockTbl.tbl)
      ensures faceTbl.Length == max && Open(faceTbl[..]) == map[]
    {
      faceTbl := new Face[max](_ => Face(0, FD_INVALID, false));
      sockTbl := new OpenHash(h, size, max);
      nextId := RESERVED;
    }

    /** The first unused face id from where the last search stopped, else from the first id that is
        not reserved; -1 only if every one of those is in use. */
    method UnusedFaceid() returns (r: int)
      requires Valid()
      modifies this`nextId, faceTbl
      ensures Valid() && Open(faceTbl[..]) == old(Open(faceTbl[..]))
      ensures r == -1 ==>
        && nextId == RESERVED && faceTbl[..] == old(faceTbl[..])
        && forall f | RESERVED <= f < faceTbl.Length :: 0 < faceTbl[f].fd
      ensures r != -1 ==>
        && RESERVED <= r < faceTbl.Length && nextId == r + 1
        && old(faceTbl[r]).fd <= 0
        && faceTbl[..] == old(faceTbl[..])[r := old(faceTbl[r]).(local := false)]
        && (forall f | old(nextId) <= f < faceTbl.Length && (f < r || r < old(nextId)) :: 0 < faceTbl[f].fd)
        && (r < old(nextId) ==> forall f | RESERVED <= f < r :: 0 < faceTbl[f].fd)
    {
      hide Agree, Open, Table, Contents, NoRoom;
      ghost var faces, t := faceTbl[..], sockTbl.tbl[..];
      var i := nextId;
      while i < faceTbl.Length
        invariant nextId <= i <= faceTbl.Length
        invariant forall f | nextId <= f < i :: 0 < faceTbl[f].fd
      {
        if faceTbl[i].fd <= 0 {
          nextId := i + 1;
          faceTbl[i] := faceTbl[i].(local := false);
          AgreeUnmark(faces, t, i);
          return i;
        }
        i := i + 1;
      }
      i := RESERVED;
      while i < nextId
        invariant RESERVED <= i <= nextId
        invariant forall f | RESERVED <= f < i :: 0 < faceTbl[f].fd
      {
        if faceTbl[i].fd <= 0 {
          nextId := i + 1;
          faceTbl[i] := faceTbl[i].(local := false);
          AgreeUnmark(faces, t, i);
          return i;
        }
        i := i + 1;
      }
      nextId := RESERVED;
      return -1;
    }

    /** What an entry of the socket table says about the face table. */
    lemma SocketFacts(key: Key)
      requires Valid() && key in sockTbl.Map()
      ensures var e := sockTbl.Map()[key];
              && e.faceid in Open(faceTbl[..]) && Open(faceTbl[..])[e.faceid] == e.skfd
              && 0 < e.skfd && key == Name(e.skfd)
    {
      var p := sockTbl.at[key];
      assert sockTbl.tbl[..][p].Live?;
    }

    /** What an open face says about the socket table. */
    lemma FaceFacts(f: nat)
      requires Valid() && f in Open(faceTbl[..])
      ensures Name(Open(faceTbl[..])[f]) in sockTbl.Map()
      ensures sockTbl.Map()[Name(Open(faceTbl[..])[f])] == Sock(f, Open(faceTbl[..])[f])
    {
      assert sockTbl.tbl[..][faceTbl[..][f].index].Live?;
    }

    /** No descriptor is open on two faces. */
    lemma OpenDistinct(f: nat, g: nat)
      requires Valid() && f in Open(faceTbl[..]) && g in Open(faceTbl[..]) && f != g
      ensures Open(faceTbl[..])[f] != Open(faceTbl[..])[g]
    {
      FaceFacts(f);
      FaceFacts(g);
    }

    lemma NotOpen(fd: nat)
      requires Valid() && Name(fd) !in sockTbl.Map()
      ensures fd !in Open(faceTbl[..]).Values
    {
    }

    /** Stores the socket of a new local face and links the face to its slot. */
    method Register(faceid: nat, fd: nat) returns (done: bool)
      requires Valid() && RESERVED <= faceid < faceTbl.Length && faceTbl[faceid].fd <= 0
      requires 0 < fd < FD_LIMIT && Name(fd) !in sockTbl.Map()
      modifies faceTbl, sockTbl, sockTbl.tbl
      ensures Valid() && done
      ensures Open(faceTbl[..]) == old(Open(faceTbl[..]))[faceid := fd] && faceTbl[faceid].local
    {
      hide Agree, Open, Table, Contents, NoRoom, AtHome, TidyExcept, Name;
      NameFits(fd);
      ghost var faces, t, at := faceTbl[..], sockTbl.tbl[..], sockTbl.at;
      RoomLeft(sockTbl.h, faces, t, at, Name(fd));
      var index := sockTbl.ItemSet(Name(fd), Sock(faceid, fd));
      if index < 0 {
        return false;
      }
      SlotWasFree(sockTbl.h, t, at, Name(fd), Sock(faceid, fd), index);
      AgreeOpen(faces, t, faceid, fd, index, sockTbl.h(Name(fd)));
      faceTbl[faceid] := Face(index, fd, true);
      done := true;
    }

    /** The face of a local descriptor, opened if there is none.  It fails exactly when every face
        id that is not reserved is in use. */
    method LookupLocalFaceid(fd: nat) returns (faceid: int)
      requires Valid() && 0 < fd < FD_LIMIT
      modifies this, faceTbl, sockTbl, sockTbl.tbl
      ensures Valid()
      ensures fd in old(Open(faceTbl[..])).Values ==>
        && faceid in old(Open(faceTbl[..])) && old(Open(faceTbl[..]))[faceid] == fd
        && Open(faceTbl[..]) == old(Open(faceTbl[..]))
      ensures fd !in old(Open(faceTbl[..])).Values ==>
        && (faceid == -1 <==> forall f | RESERVED <= f < faceTbl.Length :: f in old(Open(faceTbl[..])))
        && (faceid == -1 ==> Open(faceTbl[..]) == old(Open(faceTbl[..])))
        && (faceid != -1 ==>
              && RESERVED <= faceid < faceTbl.Length
              && faceid !in old(Open(faceTbl[..]))
              && Open(faceTbl[..]) == old(Open(faceTbl[..]))[faceid := fd] && faceTbl[faceid].local)
    {
      hide Agree, Table, Contents, Name;
      NameFits(fd);
      var entry := sockTbl.ItemGet(Name(fd));
      if entry.Some? {
        SocketFacts(Name(fd));
        return entry.value.faceid;
      }
      NotOpen(fd);
      faceid := UnusedFaceid();
      if faceid < 0 {
        return -1;
      }
      assert faceid !in Open(faceTbl[..]);
      var done := Register(faceid, fd);
      if !done {
        return -1;
      }
    }

    /** Closes a face: exactly that face when it is open.  Closing a face that is not open closes
        whichever open face has its socket in the slot that the closed face still points to. */
    method Close(faceid: nat)
      requires Valid() && faceid < faceTbl.Length
      modifies faceTbl, sockTbl, sockTbl.tbl
      ensures Valid()
      ensures (faceTbl[..], sockTbl.tbl[..]) == AfterClose(old(faceTbl[..]), old(sockTbl.tbl[..]), faceid)
      ensures faceid in old(Open(faceTbl[..])) ==>
        Open(faceTbl[..]) == old(Open(faceTbl[..])) - {faceid}
      ensures var slot := old(sockTbl.tbl[faceTbl[faceid].index]);
        Open(faceTbl[..]) ==
          if slot.Live? then old(Open(faceTbl[..])) - {slot.elem.faceid} else old(Open(faceTbl[..]))
    {
      hide Agree, Open, Table, Contents, Name;
      ghost var faces, t := faceTbl[..], sockTbl.tbl[..];
      var index := faceTbl[faceid].index;
      if t[index].Live? {
        AgreeClose(faces, t, index, faceid);
      }
      if faceid in Open(faces) {
        OpenLive(faces, t, faceid);
      }
      var entry := sockTbl.ItemRemoveFromIndex(index);
      if entry.Some? {
        if FD_INVALID < entry.value.skfd {
          faceTbl[entry.value.faceid] := faceTbl[entry.value.faceid].(fd := FD_INVALID);
        }
        faceTbl[faceid] := Face(0, FD_INVALID, false);
        ghost var owner := t[index].elem.faceid;
        assert faceTbl[..] == faces[owner := faces[owner].(fd := FD_INVALID)][faceid := Face(0, FD_INVALID, false)];
      }
    }
  }
}
