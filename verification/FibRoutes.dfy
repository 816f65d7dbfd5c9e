/** Routes in the FIB: adding and deleting faces of an entry and the clean-up of closed faces, in
    src/lib/cef_fib.c.  An entry is its face list, kept in a slot of the open-addressing table. */
module FibRoutes {
  import opened Bytes
  import opened OpenTable
  import opened HashTable
  import opened PrimeSize

  const NAME_MAXLEN: nat := 1024   // CefC_NAME_MAXLEN

  datatype Face = Face(id: int, kind: bv8)   // kind: CefC_Fib_Entry_Dynamic, _Static, _Ctrl bits

  ghost predicate NoRepeat(fs: seq<Face>) {
    forall i, j | 0 <= i < j < |fs| :: fs[i].id != fs[j].id
  }

  /** The position of a face id. */
  function At(fs: seq<Face>, id: int): (r: nat)
    ensures r <= |fs| && (r < |fs| ==> fs[r].id == id) && forall i | 0 <= i < r :: fs[i].id != id
  {
    if fs == [] || fs[0].id == id then 0 else 1 + At(fs[1..], id)
  }

  /** The face list after a route is added: its type bits are merged, or it is appended. */
  function Added(fs: seq<Face>, id: int, kind: bv8): (r: seq<Face>) {
    var i := At(fs, id);
    if i < |fs| then fs[i := Face(id, fs[i].kind | kind)] else fs + [Face(id, kind)]
  }

  /** After a route is deleted: the type bits are cleared, and the face goes unless a bit of at
      least the deleted value is left. */
  function Deleted(fs: seq<Face>, id: int, kind: bv8): (r: seq<Face>) {
    var i := At(fs, id);
    if i == |fs| then fs
    else if kind > fs[i].kind & !kind then fs[..i] + fs[i + 1..]
    else fs[i := Face(id, fs[i].kind & !kind)]
  }

  /** The position of the first closed face. */
  function FirstClosed(fs: seq<Face>, closed: int -> bool): (r: nat)
    ensures r <= |fs| && (r < |fs| ==> closed(fs[r].id)) && forall i | 0 <= i < r :: !closed(fs[i].id)
  {
    if fs == [] || closed(fs[0].id) then 0 else 1 + FirstClosed(fs[1..], closed)
  }

  /** After one clean-up visit: at most the first closed face is gone. */
  function Cleaned(fs: seq<Face>, closed: int -> bool): (r: seq<Face>) {
    var i := FirstClosed(fs, closed);
    if i < |fs| then fs[..i] + fs[i + 1..] else fs
  }

  // ---------------------------------------------------------------- what the lists become

  /** Bit `b` of the type of a face. */
  predicate HasBit(kind: bv8, b: nat)
    requires b < 8
  {
    (kind >> b) & 1 == 1
  }

  lemma Bits(k: bv8, m: bv8, b: nat)
    requires b < 8
    ensures HasBit(k | m, b) <==> HasBit(k, b) || HasBit(m, b)
    ensures HasBit(k & !m, b) <==> HasBit(k, b) && !HasBit(m, b)
  {
    if b == 0 { } else if b == 1 { } else if b == 2 { } else if b == 3 { }
    else if b == 4 { } else if b == 5 { } else if b == 6 { }
  }

  /** A route of type `kind` to face `id` came in: a face that was listed keeps its place and has
      the bits of both types, one that was not comes last, and no other face changes. */
  ghost predicate Gained(before: seq<Face>, after: seq<Face>, id: int, kind: bv8) {
    && ((forall j | 0 <= j < |before| :: before[j].id != id) ==> after == before + [Face(id, kind)])
    && forall i | 0 <= i < |before| && before[i].id == id ::
         && |after| == |before| && after == before[i := Face(id, after[i].kind)]
         && forall b: nat | b < 8 :: HasBit(after[i].kind, b) <==> HasBit(before[i].kind, b) || HasBit(kind, b)
  }

  /** A route of type `kind` to face `id` went: the face loses the bits of the type, and goes if what
      is left is less than the type; no other face changes. */
  ghost predicate Withdrawn(before: seq<Face>, after: seq<Face>, id: int, kind: bv8) {
    && ((forall j | 0 <= j < |before| :: before[j].id != id) ==> after == before)
    && forall i | 0 <= i < |before| && before[i].id == id ::
         if kind > before[i].kind & !kind then after == before[..i] + before[i + 1..] else
         && |after| == |before| && after == before[i := Face(id, after[i].kind)]
         && forall b: nat | b < 8 :: HasBit(after[i].kind, b) <==> HasBit(before[i].kind, b) && !HasBit(kind, b)
  }

  /** Exactly the first closed face went, if there was one. */
  ghost predicate FirstGone(before: seq<Face>, after: seq<Face>, closed: int -> bool) {
    && ((forall j | 0 <= j < |before| :: !closed(before[j].id)) ==> after == before)
    && forall i | 0 <= i < |before| && closed(before[i].id) && (forall j | 0 <= j < i :: !closed(before[j].id)) ::
         after == before[..i] + before[i + 1..]
  }

  lemma GainedAt(fs: seq<Face>, i: nat, id: int, kind: bv8)
    requires i < |fs| && forall j | 0 <= j < |fs| :: fs[j].id == id <==> j == i
    ensures Gained(fs, fs[i := Face(id, fs[i].kind | kind)], id, kind)
  {
    hide HasBit;
    forall b: nat | b < 8 ensures HasBit(fs[i].kind | kind, b) <==> HasBit(fs[i].kind, b) || HasBit(kind, b) {
      Bits(fs[i].kind, kind, b);
    }
  }

  lemma WithdrawnAt(fs: seq<Face>, i: nat, id: int, kind: bv8)
    requires i < |fs| && forall j | 0 <= j < |fs| :: fs[j].id == id <==> j == i
    ensures var left := fs[i].kind & !kind;
            Withdrawn(fs, if kind > left then fs[..i] + fs[i + 1..] else fs[i := Face(id, left)], id, kind)
  {
    hide HasBit;
    forall b: nat | b < 8 ensures HasBit(fs[i].kind & !kind, b) <==> HasBit(fs[i].kind, b) && !HasBit(kind, b) {
      Bits(fs[i].kind, kind, b);
    }
  }

  /** Adding a route is what it should be, and so is deleting one. */
  lemma AddedGains(fs: seq<Face>, id: int, kind: bv8)
    requires NoRepeat(fs)
    ensures Gained(fs, Added(fs, id, kind), id, kind)
  {
    hide HasBit;
    var i := At(fs, id);
    if i < |fs| {
      GainedAt(fs, i, id, kind);
    }
  }

  lemma DeletedWithdraws(fs: seq<Face>, id: int, kind: bv8)
    requires NoRepeat(fs)
    ensures Withdrawn(fs, Deleted(fs, id, kind), id, kind)
  {
    hide HasBit;
    var i := At(fs, id);
    if i < |fs| {
      WithdrawnAt(fs, i, id, kind);
    }
  }

  lemma CleanedFirst(fs: seq<Face>, closed: int -> bool)
    ensures FirstGone(fs, Cleaned(fs, closed), closed)
  {
    hide FirstClosed;
    var f := FirstClosed(fs, closed);
    assert forall j | 0 <= j < f :: !closed(fs[j].id);
  }

  /** How many faces of a list are closed, and the faces that are not, in order. */
  function ClosedCount(fs: seq<Face>, closed: int -> bool): nat {
    if fs == [] then 0 else (if closed(fs[0].id) then 1 else 0) + ClosedCount(fs[1..], closed)
  }

  function OpenOnly(fs: seq<Face>, closed: int -> bool): seq<Face> {
    if fs == [] then [] else (if closed(fs[0].id) then [] else [fs[0]]) + OpenOnly(fs[1..], closed)
  }

  lemma DropInTail(fs: seq<Face>, i: nat)
    requires 0 < i < |fs|
    ensures fs[..i] + fs[i + 1..] == [fs[0]] + (fs[1..][..i - 1] + fs[1..][i..])
  {
  }

  lemma CleanedStep(fs: seq<Face>, closed: int -> bool)
    requires fs != []
    ensures Cleaned(fs, closed) == if closed(fs[0].id) then fs[1..] else [fs[0]] + Cleaned(fs[1..], closed)
  {
    var i := FirstClosed(fs, closed);
    assert !closed(fs[0].id) ==> i == 1 + FirstClosed(fs[1..], closed);
    hide FirstClosed;
    if closed(fs[0].id) {
      assert i == 0 && fs[..0] + fs[1..] == fs[1..];
    } else if i < |fs| {
      DropInTail(fs, i);
    } else {
      assert fs == [fs[0]] + fs[1..];
    }
  }

  lemma CountCons(f: Face, fs: seq<Face>, closed: int -> bool)
    ensures ClosedCount([f] + fs, closed) == (if closed(f.id) then 1 else 0) + ClosedCount(fs, closed)
    ensures OpenOnly([f] + fs, closed) == (if closed(f.id) then [] else [f]) + OpenOnly(fs, closed)
  {
    assert ([f] + fs)[1..] == fs;
  }

  /** A visit takes one from the number of closed faces, if it was positive, and no open face. */
  lemma {:induction false} CleanedCount(fs: seq<Face>, closed: int -> bool)
    ensures ClosedCount(Cleaned(fs, closed), closed) ==
              if ClosedCount(fs, closed) > 0 then ClosedCount(fs, closed) - 1 else 0
    ensures OpenOnly(Cleaned(fs, closed), closed) == OpenOnly(fs, closed)
  {
    if fs == [] {
      assert Cleaned(fs, closed) == [];
    } else {
      hide Cleaned, ClosedCount, OpenOnly;
      var tail := fs[1..];
      assert fs == [fs[0]] + tail;
      CleanedStep(fs, closed);
      CountCons(fs[0], tail, closed);
      if !closed(fs[0].id) {
        CleanedCount(tail, closed);
        CountCons(fs[0], Cleaned(tail, closed), closed);
      }
    }
  }

  lemma {:induction false} NoneClosed(fs: seq<Face>, closed: int -> bool)
    requires ClosedCount(fs, closed) == 0
    ensures OpenOnly(fs, closed) == fs
  {
    if fs != [] {
      NoneClosed(fs[1..], closed);
      assert fs == [fs[0]] + fs[1..];
    }
  }

  /** A list after some visits. */
  function Visits(fs: seq<Face>, closed: int -> bool, n: nat): seq<Face> {
    if n == 0 then fs else Cleaned(Visits(fs, closed, n - 1), closed)
  }

  lemma {:induction false} VisitsCount(fs: seq<Face>, closed: int -> bool, n: nat)
    ensures ClosedCount(Visits(fs, closed, n), closed) ==
              if ClosedCount(fs, closed) > n then ClosedCount(fs, closed) - n else 0
    ensures OpenOnly(Visits(fs, closed, n), closed) == OpenOnly(fs, closed)
    ensures fs == [] ==> Visits(fs, closed, n) == []
  {
    CleanedEmpty([], closed);
    hide Cleaned, ClosedCount, OpenOnly;
    if n > 0 {
      VisitsCount(fs, closed, n - 1);
      CleanedCount(Visits(fs, closed, n - 1), closed);
    }
  }

  ghost predicate Sound(fs: seq<Face>) {
    fs != [] && NoRepeat(fs)
  }

  lemma HasFaces(fs: seq<Face>)
    requires Sound(fs)
    ensures fs != []
  {
  }

  lemma ListsKept(fs: seq<Face>, id: int, kind: bv8)
    requires fs == [] || Sound(fs)
    ensures Sound(Added(fs, id, kind))
    ensures Deleted(fs, id, kind) == [] || Sound(Deleted(fs, id, kind))
  {
    var i := At(fs, id);
    if i < |fs| {
      RepeatNone(fs, i, Face(id, fs[i].kind | kind));
      RepeatNone(fs, i, Face(id, fs[i].kind & !kind));
    }
  }

  /** Changing the type of a face, or dropping it, leaves a list without repeats. */
  lemma RepeatNone(fs: seq<Face>, i: nat, f: Face)
    requires NoRepeat(fs) && i < |fs| && f.id == fs[i].id
    ensures NoRepeat(fs[i := f])
    ensures var r := fs[..i] + fs[i + 1..];
            NoRepeat(r) && At(r, f.id) == |r|
  {
    var r := fs[..i] + fs[i + 1..];
    assert forall j | 0 <= j < |r| :: r[j] == fs[if j < i then j else j + 1];
  }

  /** Deleting a route of an earlier type right after adding one of a later type leaves the face, with
      the later type. */
  lemma LaterSurvives(fs: seq<Face>, id: int, kind: bv8, earlier: bv8)
    requires NoRepeat(fs) && RouteType(kind) && RouteType(earlier) && earlier < kind
    requires forall f <- fs :: f.kind < 8
    ensures exists f <- Deleted(Added(fs, id, kind), id, earlier) :: f.id == id && f.kind & kind == kind
  {
    var added := Added(fs, id, kind);
    var i := At(fs, id);
    assert added[i].id == id && At(added, id) == i && added[i].kind & kind == kind;
    LaterBits(added[i].kind, kind, earlier);
    var r := Deleted(added, id, earlier);
    assert r[i].id == id && r[i].kind & kind == kind;
  }

  lemma LaterBits(k: bv8, kind: bv8, earlier: bv8)
    requires RouteType(kind) && RouteType(earlier) && earlier < kind && k & kind == kind
    ensures earlier <= k & !earlier && (k & !earlier) & kind == kind
  {
  }

  /** A face with routes of types 1 and 2 goes when the route of type 2 is deleted. */
  lemma DeleteExample()
    ensures Deleted([Face(7, 3)], 7, 2) == []
  {
    assert At([Face(7, 3)], 7) == 0;
  }

  /** The types of a route: CefC_Fib_Entry_Dynamic, _Static and _Ctrl. */
  predicate RouteType(kind: bv8) {
    kind == 1 || kind == 2 || kind == 4
  }

  /** Deleting a route of one type drops the face from the entry exactly when the face has no
      route of a later type: one of an earlier type does not save it. */
  lemma DeleteDrops(fs: seq<Face>, id: int, kind: bv8)
    requires NoRepeat(fs) && At(fs, id) < |fs| && RouteType(kind)
    requires fs[At(fs, id)].kind < 8
    ensures At(Deleted(fs, id, kind), id) == |Deleted(fs, id, kind)| <==>
              forall other | RouteType(other) && other > kind :: fs[At(fs, id)].kind & other == 0
  {
    var i := At(fs, id);
    var k := fs[i].kind;
    LastType(k, kind);
    var r := Deleted(fs, id, kind);
    if kind > k & !kind {
      RepeatNone(fs, i, fs[i]);
    } else {
      assert r[i].id == id;
    }
  }

  lemma AtUpdated(fs: seq<Face>, id: int, m: bv8)
    requires At(fs, id) < |fs|
    ensures At(fs[At(fs, id) := Face(id, m)], id) == At(fs, id)
  {
    var i := At(fs, id);
    var f := fs[i := Face(id, m)];
    assert f[i].id == id && forall j | 0 <= j < i :: f[j] == fs[j];
  }

  /** Deleting from a list whose face `id` was given the type bits `m`. */
  lemma DeletedAfter(fs: seq<Face>, id: int, m: bv8, kind: bv8)
    requires At(fs, id) < |fs|
    ensures Deleted(fs[At(fs, id) := Face(id, m)], id, kind) == fs <==>
              kind <= m & !kind == fs[At(fs, id)].kind
  {
    hide At;
    AtUpdated(fs, id, m);
    var i, left := At(fs, id), m & !kind;
    var f := fs[i := Face(id, m)];
    DeletedIs(f, id, kind);
    hide Deleted;
    assert f[i := Face(id, left)] == fs[i := Face(id, left)];
    assert fs[i := Face(id, left)][i] == Face(id, left);
    assert fs[i].id == id;
    assert left == fs[i].kind ==> fs[i := Face(id, left)] == fs;
  }

  lemma DeletedIs(f: seq<Face>, id: int, kind: bv8)
    requires At(f, id) < |f|
    ensures var i, r := At(f, id), Deleted(f, id, kind);
            if kind > f[i].kind & !kind then |r| == |f| - 1 else r == f[i := Face(id, f[i].kind & !kind)]
  {
  }

  /** Deleting the route just added gives the old list back exactly when the face was not listed, or
      had no route of that type and has one of a later type. */
  lemma AddThenDelete(fs: seq<Face>, id: int, kind: bv8)
    requires NoRepeat(fs) && RouteType(kind) && forall f <- fs :: f.kind < 8
    ensures Deleted(Added(fs, id, kind), id, kind) == fs <==>
              var i := At(fs, id);
              i == |fs| ||
              (fs[i].kind & kind == 0 && exists other :: RouteType(other) && other > kind && fs[i].kind & other != 0)
  {
    var i := At(fs, id);
    if i == |fs| {
      var added := Added(fs, id, kind);
      assert added[i].id == id && At(added, id) == i;
      assert kind > kind & !kind;
      assert added[..i] + added[i + 1..] == fs;
    } else {
      var k := fs[i].kind;
      assert Added(fs, id, kind) == fs[i := Face(id, k | kind)];
      hide Deleted, Added, At, RouteType, NoRepeat;
      DeletedAfter(fs, id, k | kind, kind);
      LastType(k | kind, kind);
      OtherBits(k, kind);
    }
  }

  lemma OtherBits(k: bv8, kind: bv8)
    requires k < 8 && RouteType(kind)
    ensures (k | kind) & !kind == k <==> k & kind == 0
    ensures k | kind < 8
    ensures forall other | RouteType(other) && other > kind :: (k | kind) & other == k & other
  {
  }

  lemma LastType(k: bv8, kind: bv8)
    requires k < 8 && RouteType(kind)
    ensures kind > k & !kind <==> forall other | RouteType(other) && other > kind :: k & other == 0
  {
    assert RouteType(2) && RouteType(4);
    assert kind == 1 ==> (1 > k & !1 <==> k & 2 == 0 && k & 4 == 0);
    assert kind == 2 ==> (2 > k & !2 <==> k & 4 == 0);
    assert kind == 4 ==> 4 > k & !4;
  }

  /** What a clean-up pass makes of a slot: an entry left without faces is removed. */
  function Visited(s: Slot<seq<Face>>, closed: int -> bool): Slot<seq<Face>> {
    if !s.Live? then s
    else if Cleaned(s.elem, closed) == [] then Tomb
    else s.(elem := Cleaned(s.elem, closed))
  }

  /** The live slots from `i` on, in order. */
  function LiveFrom<E>(t: seq<Slot<E>>, i: nat): (r: seq<nat>)
    requires i <= |t|
    decreases |t| - i
  {
    if i == |t| then [] else if t[i].Live? then [i] + LiveFrom(t, i + 1) else LiveFrom(t, i + 1)
  }

  lemma {:induction false} LiveSkip<E>(t: seq<Slot<E>>, i: nat, j: nat)
    requires i <= j <= |t| && forall q | i <= q < j :: !t[q].Live?
    ensures LiveFrom(t, i) == LiveFrom(t, j)
    decreases j - i
  {
    if i < j {
      LiveSkip(t, i + 1, j);
    }
  }

  /** The next live slot, and the end, of a list of live slots that was begun. */
  lemma LiveNext<E>(t: seq<Slot<E>>, before: seq<nat>, i: nat, next: nat)
    requires i <= next < |t| && t[next].Live? && forall q | i <= q < next :: !t[q].Live?
    ensures before + LiveFrom(t, i) == (before + [next]) + LiveFrom(t, next + 1)
  {
    LiveSkip(t, i, next);
    Assoc(before, [next], LiveFrom(t, next + 1));
  }

  lemma LiveNone<E>(t: seq<Slot<E>>, before: seq<nat>, i: nat)
    requires i <= |t| && forall q | i <= q < |t| :: !t[q].Live?
    ensures before + LiveFrom(t, i) == before
  {
    LiveSkip(t, i, |t|);
    assert before + [] == before;
  }

  /** The list of live slots holds each live slot once, in order, and nothing else. */
  lemma {:induction false} LiveFromAll<E>(t: seq<Slot<E>>, i: nat)
    requires i <= |t|
    ensures forall q :: q in LiveFrom(t, i) <==> i <= q < |t| && t[q].Live?
    ensures Increasing(LiveFrom(t, i))
    decreases |t| - i
  {
    hide Increasing;
    if i == |t| {
      IncreasingNone();
    } else {
      LiveFromAll(t, i + 1);
      IncreasingCons(i, LiveFrom(t, i + 1));
    }
  }

  lemma IncreasingNone()
    ensures Increasing([])
  {
  }

  lemma IncreasingCons(q: nat, s: seq<nat>)
    requires Increasing(s) && forall p <- s :: q < p
    ensures Increasing([q] + s)
  {
    var r := [q] + s;
    forall i, j | 0 <= i < j < |r| ensures r[i] < r[j] {
      assert r[j] == s[j - 1] && s[j - 1] in s;
    }
  }

  ghost predicate Increasing(s: seq<nat>) {
    forall i, j | 0 <= i < j < |s| :: s[i] < s[j]
  }

  /** The FIB after a clean-up: every face list is cleaned, and entries left without faces are gone. */
  ghost function CleanedMap(m: map<Key, seq<Face>>, closed: int -> bool): map<Key, seq<Face>> {
    map k | k in m && Cleaned(m[k], closed) != [] :: Cleaned(m[k], closed)
  }

  /** The FIB after some clean-up passes. */
  ghost function Passes(m: map<Key, seq<Face>>, closed: int -> bool, n: nat): map<Key, seq<Face>> {
    if n == 0 then m else CleanedMap(Passes(m, closed, n - 1), closed)
  }

  lemma {:induction false} PassesVisit(m: map<Key, seq<Face>>, closed: int -> bool, n: nat)
    requires forall k <- m :: m[k] != []
    ensures forall k :: k in Passes(m, closed, n) <==> k in m && Visits(m[k], closed, n) != []
    ensures forall k <- Passes(m, closed, n) :: k in m && Passes(m, closed, n)[k] == Visits(m[k], closed, n)
  {
    if n > 0 {
      PassesVisit(m, closed, n - 1);
      CleanedEmpty([], closed);
      var before, after := Passes(m, closed, n - 1), Passes(m, closed, n);
      assert after == CleanedMap(before, closed);
      hide Cleaned, Passes;
      forall k <- m
        ensures k in after <==> Visits(m[k], closed, n) != []
        ensures k in after ==> after[k] == Visits(m[k], closed, n)
      {
        assert Visits(m[k], closed, n) == Cleaned(Visits(m[k], closed, n - 1), closed);
        hide Visits;
      }
    }
  }

  /** After as many passes as any entry has closed faces, every entry has exactly its open faces, in
      order, and the entries that had none are gone. */
  lemma PassesEnd(m: map<Key, seq<Face>>, closed: int -> bool, n: nat)
    requires forall k <- m :: m[k] != [] && ClosedCount(m[k], closed) <= n
    ensures forall k :: k in Passes(m, closed, n) <==> k in m && OpenOnly(m[k], closed) != []
    ensures forall k <- Passes(m, closed, n) :: k in m && Passes(m, closed, n)[k] == OpenOnly(m[k], closed)
  {
    PassesVisit(m, closed, n);
    forall k <- m ensures Visits(m[k], closed, n) == OpenOnly(m[k], closed) {
      VisitsCount(m[k], closed, n);
      NoneClosed(Visits(m[k], closed, n), closed);
    }
  }

  lemma VisitedContents(h: Key -> nat, t: seq<Slot<seq<Face>>>, at: map<Key, nat>, t': seq<Slot<seq<Face>>>,
                        at': map<Key, nat>, closed: int -> bool)
    requires Table(h, t, at) && Table(h, t', at') && |t'| == |t|
    requires forall q | 0 <= q < |t| :: t'[q] == Visited(t[q], closed)
    ensures Contents(h, t', at') == CleanedMap(Contents(h, t, at), closed)
  {
    hide Cleaned;
    var m, m' := Contents(h, t, at), Contents(h, t', at');
    forall k ensures k in m' <==> k in m && Cleaned(m[k], closed) != [] {
      if k in at' {
        assert t[at'[k]].Live? && t[at'[k]].key == k;
      }
      if k in at && Cleaned(m[k], closed) != [] {
        assert t'[at[k]].Live? && t'[at[k]].key == k;
      }
    }
  }

  lemma CleanedSound(fs: seq<Face>, closed: int -> bool)
    requires Sound(fs)
    ensures Cleaned(fs, closed) == [] || Sound(Cleaned(fs, closed))
  {
  }

  /** A visit empties a list only if its single face is closed. */
  lemma CleanedEmpty(fs: seq<Face>, closed: int -> bool)
    ensures Cleaned(fs, closed) == [] <==> fs == [] || (|fs| == 1 && closed(fs[0].id))
    ensures forall f <- fs :: !closed(f.id) ==> f in Cleaned(fs, closed)
  {
  }

  /** `cef_fib_set_faceid_to_entry`. */
  method SetFace(faces: seq<Face>, id: int, kind: bv8) returns (r: seq<Face>)
    ensures r == Added(faces, id, kind)
  {
    var i := FindFace(faces, id);
    if i < |faces| {
      r := faces[i := Face(id, faces[i].kind | kind)];
    } else {
      r := faces + [Face(id, kind)];
    }
  }

  method FindFace(faces: seq<Face>, id: int) returns (i: nat)
    ensures i == At(faces, id)
  {
    i := 0;
    while i < |faces| && faces[i].id != id
      invariant i <= |faces| && At(faces, id) == i + At(faces[i..], id)
    {
      assert faces[i..][1..] == faces[i + 1..];
      i := i + 1;
    }
  }

  /** `cef_fib_remove_faceid_from_entry`. */
  method RemoveFace(faces: seq<Face>, id: int, kind: bv8) returns (r: seq<Face>)
    ensures r == Deleted(faces, id, kind)
  {
    var i := FindFace(faces, id);
    if i == |faces| {
      return faces;
    }
    var left := faces[i].kind & !kind;
    if kind > left {
      r := faces[..i] + faces[i + 1..];
    } else {
      r := faces[i := Face(id, left)];
    }
  }

  /** The loop of the clean-up over one face list: it stops at the first closed face. */
  method DropClosed(faces: seq<Face>, closed: int -> bool) returns (r: seq<Face>)
    ensures r == Cleaned(faces, closed)
  {
    var i := 0;
    while i < |faces| && !closed(faces[i].id)
      invariant i <= |faces| && FirstClosed(faces, closed) == i + FirstClosed(faces[i..], closed)
    {
      assert faces[i..][1..] == faces[i + 1..];
      i := i + 1;
    }
    r := if i < |faces| then faces[..i] + faces[i + 1..] else faces;
  }

  /** The face list of a name; it has none if it is not in the FIB. */
  function FacesOf(m: map<Key, seq<Face>>, name: Key): seq<Face> {
    if name in m then m[name] else []
  }

  /** A FIB with a route added, and with one deleted. */
  function AddedTo(m: map<Key, seq<Face>>, name: Key, id: int, kind: bv8): map<Key, seq<Face>> {
    m[name := Added(FacesOf(m, name), id, kind)]
  }

  function DeletedFrom(m: map<Key, seq<Face>>, name: Key, id: int, kind: bv8): map<Key, seq<Face>> {
    var left := Deleted(FacesOf(m, name), id, kind);
    if left == [] then m - {name} else m[name := left]
  }

  lemma AddedToGains(m: map<Key, seq<Face>>, name: Key, id: int, kind: bv8)
    requires NoRepeat(FacesOf(m, name))
    ensures var m' := AddedTo(m, name, id, kind);
            && name in m' && Gained(FacesOf(m, name), FacesOf(m', name), id, kind) && m' - {name} == m - {name}
  {
    hide Added, Gained, NoRepeat;
    AddedGains(FacesOf(m, name), id, kind);
  }

  lemma DeletedFromWithdraws(m: map<Key, seq<Face>>, name: Key, id: int, kind: bv8)
    requires NoRepeat(FacesOf(m, name))
    ensures var m' := DeletedFrom(m, name, id, kind);
            Withdrawn(FacesOf(m, name), FacesOf(m', name), id, kind) && m' - {name} == m - {name}
  {
    hide Deleted, Withdrawn, NoRepeat;
    DeletedWithdraws(FacesOf(m, name), id, kind);
  }

  class Fib {
    const table: OpenHash<seq<Face>>

    /** No entry is empty or repeats a face, and there are at most as many as the FIB was made for. */
    ghost predicate Valid()
      reads table, table.tbl
    {
      && table.Valid() && |table.at| <= table.defElemMax
      && forall k <- table.Map() :: Sound(table.Map()[k])
    }

    /** An empty FIB for `capacity` entries.  The table has more slots than that unless the capacity
        is a prime, or 1. */
    constructor (h: Key -> nat, capacity: nat)
      requires 0 < capacity
      ensures Valid() && fresh(table) && fresh(table.tbl) && table.Map() == map[]
      ensures table.h == h && table.defElemMax == capacity <= table.tbl.Length
      ensures capacity < table.tbl.Length <==> capacity >= 2 && !Prime(capacity)
    {
      var size := TableSize(capacity);
      table := new OpenHash<seq<Face>>(h, size, capacity);
    }

    /** The table has a slot for a name that is not in it. */
    ghost predicate HasSlot(name: Key)
      reads table, table.tbl
    {
      0 < table.tbl.Length && !NoRoom(table.h, table.tbl[..], name)
    }

    /** While the FIB is not full, a table with more slots than entries always has one for a name. */
    lemma SlotLeft(name: Key)
      requires Valid() && table.defElemMax < table.tbl.Length && |table.at| != table.defElemMax
      ensures HasSlot(name)
    {
      if NoRoom(table.h, table.tbl[..], name) {
        NoRoomSize(table.h, table.tbl[..], table.at, name);
      }
    }

    /** A FIB with as many slots as entries, one of them a tombstone, and room for one more entry:
        it has no slot for a name whose home is the tombstone. */
    lemma SlotRefused(y: Key, z: Key, faces: seq<Face>)
      requires Valid() && table.defElemMax == 2
      requires table.tbl[..] == [Tomb, Live(1, y, faces)] && table.h(z) == 2
      ensures |table.at| < table.defElemMax && z !in table.Map() && !HasSlot(z)
    {
      assert table.tbl[..][1] == Live(1, y, faces);
      assert forall k <- table.at :: table.at[k] == 1 && k == y;
      assert table.at.Keys == {y} && table.h(y) == 1;
    }

    /** Adds a route.  A new entry is refused when the FIB holds as many as it was made for; an
        entry the table has no slot for is lost although the answer is still 1. */
    method RouteAdd(name: Key, faceid: int, kind: bv8) returns (r: int)
      requires Valid() && name != []
      modifies table, table.tbl
      ensures Valid()
      ensures r == if faceid >= 0 && |name| <= NAME_MAXLEN
                      && (name in old(table.Map()) || old(|table.at|) != table.defElemMax) then 1 else -1
      ensures r == 1 && (name in old(table.Map()) || old(HasSlot(name))) ==>
        && name in table.Map()
        && Gained(FacesOf(old(table.Map()), name), FacesOf(table.Map(), name), faceid, kind)
        && table.Map() - {name} == old(table.Map()) - {name}
      ensures table.defElemMax < table.tbl.Length ==>
        table.Map() == (if r == 1 then AddedTo(old(table.Map()), name, faceid, kind) else old(table.Map()))
      ensures var m := old(table.Map());
              table.Map() == if r == 1 && (name in m || old(HasSlot(name)))
                             then AddedTo(m, name, faceid, kind) else m
    {
      hide Table, Contents, NoRoom, Added, AtHome, Sound, Gained, NoRepeat;
      ListOnce(name);
      AddedToGains(table.Map(), name, faceid, kind);
      if faceid < 0 || |name| > NAME_MAXLEN {
        return -1;
      }
      var found := table.ItemGet(name);
      if found.Some? {
        ListsKept(found.value, faceid, kind);
        var faces := SetFace(found.value, faceid, kind);
        table.Modify(name, faces);
        return 1;
      }
      if table.elemNum == table.defElemMax {
        return -1;
      }
      if table.defElemMax < table.tbl.Length {
        SlotLeft(name);
      }
      ListsKept([], faceid, kind);
      var faces := SetFace([], faceid, kind);
      var index := table.ItemSet(name, faces);
      return 1;
    }

    lemma ListOnce(name: Key)
      requires Valid()
      ensures NoRepeat(FacesOf(table.Map(), name))
    {
    }

    /** Deletes a route: `found` is the id of its face, not positive if there is none.  An entry
        that loses its last face is removed. */
    method RouteDel(name: Key, found: int, kind: bv8) returns (r: int)
      requires Valid()
      modifies table, table.tbl
      ensures Valid()
      ensures r == if |name| <= NAME_MAXLEN && name in old(table.Map()) then 1 else -1
      ensures r == 1 && found > 0 ==>
        && Withdrawn(old(table.Map())[name], FacesOf(table.Map(), name), found, kind)
        && table.Map() - {name} == old(table.Map()) - {name}
      ensures var m := old(table.Map());
              table.Map() == if r == 1 && found > 0 then DeletedFrom(m, name, found, kind) else m
    {
      hide Table, Contents, Deleted, Tidy, Sound, Withdrawn, NoRepeat;
      ListOnce(name);
      DeletedFromWithdraws(table.Map(), name, found, kind);
      if |name| > NAME_MAXLEN {
        return -1;
      }
      var entry := table.ItemGet(name);
      if entry.None? {
        return -1;
      }
      var faces := entry.value;
      HasFaces(faces);
      if found > 0 {
        ListsKept(faces, found, kind);
        faces := RemoveFace(faces, found, kind);
      }
      if faces == [] {
        var gone := table.ItemRemove(name);
      } else if found > 0 {
        table.Modify(name, faces);
      }
      return 1;
    }

    lemma SlotFacts(q: nat)
      requires Valid() && q < table.tbl.Length && table.tbl[q].Live?
      ensures var s := table.tbl[q];
              && s.key in table.at && table.at[s.key] == q && s.key in table.Map() && table.Map()[s.key] == s.elem
              && s.hash == table.h(s.key) && Sound(s.elem)
    {
    }

    /** One visit of the clean-up to the entry in slot `q`. */
    method VisitSlot(q: nat, closed: int -> bool)
      requires Valid() && q < table.tbl.Length && table.tbl[q].Live?
      modifies table, table.tbl
      ensures Valid()
      ensures table.tbl[q] == Visited(old(table.tbl[q]), closed)
      ensures forall i | 0 <= i < table.tbl.Length && i != q :: table.tbl[i] == old(table.tbl[i])
    {
      hide Table, Contents, Tidy, Sound, Cleaned;
      SlotFacts(q);
      var key, entry := table.tbl[q].key, table.tbl[q].elem;
      CleanedSound(entry, closed);
      var faces := DropClosed(entry, closed);
      if faces == [] {
        var gone := table.ItemRemoveFromIndex(q);
      } else {
        table.Modify(key, faces);
      }
    }

    /** The scan of the clean-up over the slots, which removes slots while it runs. */
    method VisitAll(closed: int -> bool) returns (ghost visited: seq<nat>)
      requires Valid()
      modifies table, table.tbl
      ensures Valid()
      ensures visited == LiveFrom(old(table.tbl[..]), 0)
      ensures forall q | 0 <= q < table.tbl.Length :: table.tbl[q] == Visited(old(table.tbl[q]), closed)
    {
      hide Table, Contents, Sound, Cleaned, Valid, LiveFrom;
      ValidTable();
      visited := [];
      assert [] + LiveFrom(table.tbl[..], 0) == LiveFrom(table.tbl[..], 0);
      ghost var t := table.tbl[..];
      var index, more := 0, true;
      while more
        invariant Valid() && table.Valid() && (more ==> index <= |t|)
        invariant if more then visited + LiveFrom(t, index) == LiveFrom(t, 0) else visited == LiveFrom(t, 0)
        invariant forall q | 0 <= q < |t| :: table.tbl[q] == if !more || q < index then Visited(t[q], closed) else t[q]
        decreases more, |t| - index
      {
        var next, entry := table.ItemCheckFromIndex(index);
        if entry.Some? {
          LiveNext(t, visited, index, next);
          VisitSlot(next, closed);
          ValidTable();
          visited := visited + [next];
        } else {
          LiveNone(t, visited, index);
        }
        index := next + 1;
        more := entry.Some?;
      }
    }

    /** The clean-up pass.  It visits the slot of every entry exactly once, in slot order, and
        leaves every entry with its list cleaned, or gone if that left no face. */
    method FaceidCleanup(closed: int -> bool) returns (ghost visited: seq<nat>)
      requires Valid()
      modifies table, table.tbl
      ensures Valid()
      ensures Increasing(visited)
      ensures forall q :: q in visited <==> 0 <= q < table.tbl.Length && old(table.tbl[..])[q].Live?
      ensures table.Map() == CleanedMap(old(table.Map()), closed)
      ensures table.Map().Keys <= old(table.Map()).Keys
      ensures forall k <- old(table.Map()) ::
                var before, after := old(table.Map())[k], FacesOf(table.Map(), k);
                && FirstGone(before, after, closed)
                && ClosedCount(after, closed) ==
                      (if ClosedCount(before, closed) > 0 then ClosedCount(before, closed) - 1 else 0)
                && OpenOnly(after, closed) == OpenOnly(before, closed)
    {
      hide Table, Contents, Sound, Cleaned, Visited, LiveFrom, Increasing, FirstGone, ClosedCount, OpenOnly;
      ghost var t, at, m := table.tbl[..], table.at, table.Map();
      LiveFromAll(t, 0);
      visited := VisitAll(closed);
      VisitedContents(table.h, t, at, table.tbl[..], table.at, closed);
      forall k <- m
        ensures var before, after := m[k], FacesOf(table.Map(), k);
                && FirstGone(before, after, closed)
                && ClosedCount(after, closed) ==
                      (if ClosedCount(before, closed) > 0 then ClosedCount(before, closed) - 1 else 0)
                && OpenOnly(after, closed) == OpenOnly(before, closed)
      {
        assert FacesOf(table.Map(), k) == Cleaned(m[k], closed);
        CleanedFirst(m[k], closed);
        CleanedCount(m[k], closed);
      }
    }

    lemma ValidTable()
      requires Valid()
      ensures table.Valid()
    {
    }
  }
}
