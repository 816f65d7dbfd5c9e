/** Ageing the down-faces of one PIT entry: `cefnetd_pit_entry_clean` in src/cefnetd/cef_netd.c.

    An entry holds two linked lists of down-faces, each behind a head node: the active ones and
    the ones to clean.  Ageing relinks nodes from the first list to the end of the second. */
module PitEntry {

  import opened Constants

  class DownFace {
    const faceid: nat
    const lifetime: nat   // ageing only reads it
    var next: DownFace?

    constructor (faceid: nat, lifetime: nat)
      ensures this.faceid == faceid && this.lifetime == lifetime && next == null
    {
      this.faceid := faceid;
      this.lifetime := lifetime;
      this.next := null;
    }
  }

  /** The nodes of `path` are linked one to the next, and the last one ends the list. */
  ghost predicate Chain(path: seq<DownFace>)
    reads path`next
  {
    && path != []
    && (forall i | 0 <= i < |path| - 1 :: path[i].next == path[i + 1])
    && path[|path| - 1].next == null
  }

  /** Two chains that share no node. */
  ghost predicate Chains(p: seq<DownFace>, q: seq<DownFace>)
    reads p`next, q`next
  {
    && Chain(p)
    && Chain(q)
    && (forall i, j | 0 <= i < |p| && 0 <= j < |q| :: p[i] != q[j])
    && (forall i, j | 0 <= i < j < |p| :: p[i] != p[j])
    && (forall i, j | 0 <= i < j < |q| :: q[i] != q[j])
  }

  /** The nodes still alive at `now`, in order, and the expired ones, in order. */
  ghost function Unexpired(s: seq<DownFace>, now: nat): seq<DownFace>
  {
    if s == [] then []
    else if now > s[0].lifetime then Unexpired(s[1..], now)
    else [s[0]] + Unexpired(s[1..], now)
  }

  ghost function Expired(s: seq<DownFace>, now: nat): seq<DownFace>
  {
    if s == [] then []
    else if now > s[0].lifetime then [s[0]] + Expired(s[1..], now)
    else Expired(s[1..], now)
  }

  /** Splitting by expiry keeps every node exactly as often as it was there, each on its side. */
  lemma {:induction false} SplitKeeps(s: seq<DownFace>, now: nat)
    ensures forall n <- Unexpired(s, now) :: now <= n.lifetime
    ensures forall n <- Expired(s, now) :: n.lifetime < now
    ensures multiset(Unexpired(s, now)) + multiset(Expired(s, now)) == multiset(s)
  {
    if s != [] {
      SplitKeeps(s[1..], now);
      assert s == [s[0]] + s[1..];
    }
  }

  lemma SplitHead(s: seq<DownFace>, now: nat)
    requires s != []
    ensures Unexpired(s, now) == (if now <= s[0].lifetime then [s[0]] else []) + Unexpired(s[1..], now)
    ensures Expired(s, now) == (if s[0].lifetime < now then [s[0]] else []) + Expired(s[1..], now)
  {
  }

  /** The split treats every node on its own, and keeps the order on both sides. */
  lemma {:induction false} SplitAppend(s: seq<DownFace>, t: seq<DownFace>, now: nat)
    ensures Unexpired(s + t, now) == Unexpired(s, now) + Unexpired(t, now)
    ensures Expired(s + t, now) == Expired(s, now) + Expired(t, now)
  {
    if s == [] {
      assert s + t == t;
    } else {
      SplitAppend(s[1..], t, now);
      SplitAppendHead(s, t, now);
    }
  }

  lemma SplitAppendHead(s: seq<DownFace>, t: seq<DownFace>, now: nat)
    requires s != [] && Unexpired(s[1..] + t, now) == Unexpired(s[1..], now) + Unexpired(t, now)
    requires Expired(s[1..] + t, now) == Expired(s[1..], now) + Expired(t, now)
    ensures Unexpired(s + t, now) == Unexpired(s, now) + Unexpired(t, now)
    ensures Expired(s + t, now) == Expired(s, now) + Expired(t, now)
  {
    hide Unexpired, Expired;
    SplitHead(s, now);
    SplitHead(s + t, now);
    assert (s + t)[1..] == s[1..] + t;
  }

  /** One step along the active list. */
  lemma SplitStep(kept: seq<DownFace>, moved: seq<DownFace>, rest: seq<DownFace>, now: nat)
    requires rest != []
    ensures if now > rest[0].lifetime
            then && Unexpired(rest, now) == Unexpired(rest[1..], now)
                 && moved + Expired(rest, now) == (moved + [rest[0]]) + Expired(rest[1..], now)
            else && kept + Unexpired(rest, now) == (kept + [rest[0]]) + Unexpired(rest[1..], now)
                 && Expired(rest, now) == Expired(rest[1..], now)
  {
  }

  /** Dropping the node after `kept` from a chain and appending it to another, as sequences. */
  lemma Relinked(head: DownFace, kept: seq<DownFace>, rest: seq<DownFace>, clean: DownFace, done: seq<DownFace>)
    requires rest != []
    ensures var p := [head] + (kept + rest);
            p[..|kept| + 1] + p[|kept| + 2..] == [head] + (kept + rest[1..])
    ensures [clean] + done + [rest[0]] == [clean] + (done + [rest[0]])
    ensures kept + rest == (kept + [rest[0]]) + rest[1..]
  {
  }

  class Entry {
    const dnfaces: DownFace
    const cleanDnfaces: DownFace
    var dnfacenum: int
    var advLifetime: nat
    var cleanUs: nat
    ghost var active: seq<DownFace>
    ghost var cleaned: seq<DownFace>

    ghost predicate Valid()
      reads this, [dnfaces] + active, [cleanDnfaces] + cleaned
    {
      && Chains([dnfaces] + active, [cleanDnfaces] + cleaned)
      && dnfacenum == |active|
    }

    /** A new entry has no down-faces. */
    constructor (advLifetime: nat, cleanUs: nat)
      ensures Valid() && active == [] && cleaned == []
      ensures fresh(dnfaces) && fresh(cleanDnfaces)
    {
      var head := new DownFace(0, 0);
      var cleanHead := new DownFace(0, 0);
      dnfaces := head;
      cleanDnfaces := cleanHead;
      dnfacenum := 0;
      this.advLifetime := advLifetime;
      this.cleanUs := cleanUs;
      active := [];
      cleaned := [];
      new;
      assert [dnfaces] + active == [head] && [cleanDnfaces] + cleaned == [cleanHead];
    }

    /** Walks to the last node of the list of faces to clean. */
    method Tail(ghost q: seq<DownFace>) returns (last: DownFace)
      requires Chain(q) && q[0] == cleanDnfaces
      ensures last == q[|q| - 1]
    {
      ghost var i := 0;
      last := cleanDnfaces;
      while last.next != null
        invariant 0 <= i < |q| && last == q[i]
        invariant last.next == if i == |q| - 1 then null else q[i + 1]
        decreases |q| - i
      {
        last := last.next;
        i := i + 1;
      }
    }

    /** Unlinks the node after `prev` and appends it to the list of faces to clean. */
    method Move(prev: DownFace, node: DownFace, ghost p: seq<DownFace>, ghost i: nat, ghost q: seq<DownFace>)
      requires Chains(p, q) && i + 1 < |p| && prev == p[i] && node == p[i + 1] && q[0] == cleanDnfaces
      modifies p`next, q`next
      ensures Chains(p[..i + 1] + p[i + 2..], q + [node])
    {
      ghost var p', q' := p[..i + 1] + p[i + 2..], q + [node];
      assert prev in p && node in p;
      assert forall j | 0 <= j < |p'| :: p'[j] == p[if j <= i then j else j + 1];
      assert forall j | 0 <= j < |q'| :: q'[j] == if j < |q| then q[j] else node;
      prev.next := node.next;
      var last := Tail(q);
      assert last in q;
      last.next := node;
      node.next := null;
    }

    /** Links the whole active list behind the faces to clean, node by node. */
    method MoveAll(ghost p: seq<DownFace>, ghost q: seq<DownFace>)
      requires Chains(p, q) && p[0] == dnfaces && q[0] == cleanDnfaces
      modifies p`next, q`next
      ensures Chains([dnfaces], q + p[1..])
    {
      var clean := Tail(q);
      ghost var end := clean;
      var dnface := dnfaces;
      ghost var i := 0;
      while dnface.next != null
        invariant 0 <= i < |p| && dnface == p[i]
        invariant clean == if i == 0 then end else p[i]
        invariant forall j | 0 <= j < |p| :: p[j].next == old(p[j].next)
        invariant forall j | 0 <= j < |q| - 1 :: q[j].next == old(q[j].next)
        invariant end.next == if i == 0 then null else p[1]
        decreases |p| - i
      {
        dnface := dnface.next;
        clean.next := dnface;
        clean := dnface;
        i := i + 1;
      }
      dnfaces.next := null;
      ghost var q' := q + p[1..];
      assert forall j | 0 <= j < |q'| :: q'[j] == if j < |q| then q[j] else p[j - |q| + 1];
    }

    /** Moves the expired faces, one at a time, in one walk over the active list. */
    method MoveExpired(now: nat)
      requires Valid()
      modifies this`dnfacenum, this`active, this`cleaned
      modifies ([dnfaces] + active)`next, ([cleanDnfaces] + cleaned)`next
      ensures Valid()
      ensures active == Unexpired(old(active), now)
      ensures cleaned == old(cleaned) + Expired(old(active), now)
    {
      hide Chains, Unexpired, Expired;
      ghost var p, q := [dnfaces] + active, [cleanDnfaces] + cleaned;
      ghost var nodes := set n | n in p + q;
      ghost var kept: seq<DownFace>, rest: seq<DownFace>, moved: seq<DownFace> := [], active, [];
      var dnface: DownFace, prev: DownFace := dnfaces, dnfaces;
      while dnface.next != null
        invariant Chains(p, q)
        invariant p == [dnfaces] + (kept + rest) && q == [cleanDnfaces] + (cleaned + moved)
        invariant forall n <- p + q :: n in nodes
        invariant dnface == prev == p[|kept|] && dnfacenum == |kept| + |rest|
        invariant kept + Unexpired(rest, now) == Unexpired(active, now)
        invariant moved + Expired(rest, now) == Expired(active, now)
        decreases |rest|
        modifies this`dnfacenum, nodes`next
      {
        NextOf(p, q, |kept|);
        dnface := dnface.next;
        assert dnface == rest[0];
        SplitStep(kept, moved, rest, now);
        Relinked(dnfaces, kept, rest, cleanDnfaces, cleaned + moved);
        if now > dnface.lifetime {
          Move(prev, dnface, p, |kept|, q);
          p, q := [dnfaces] + (kept + rest[1..]), q + [dnface];
          assert (cleaned + moved) + [dnface] == cleaned + (moved + [dnface]);
          moved, rest := moved + [dnface], rest[1..];
          dnface := prev;
          dnfacenum := dnfacenum - 1;
        } else {
          kept, rest := kept + [dnface], rest[1..];
          prev := dnface;
        }
      }
      NextOf(p, q, |kept|);
      assert rest == [] && kept + [] == kept && moved + [] == moved;
      NoneLeft(now);
      active, cleaned := kept, cleaned + moved;
    }

    lemma NoneLeft(now: nat)
      ensures Unexpired([], now) == [] && Expired([], now) == []
    {
    }

    lemma NextOf(p: seq<DownFace>, q: seq<DownFace>, i: nat)
      requires Chains(p, q) && i < |p|
      ensures p[i].next == if i == |p| - 1 then null else p[i + 1]
      ensures q != []
    {
    }

    /** One ageing of the entry at time `now`.  Past the advertised lifetime every face goes to the
        faces to clean; otherwise, when a clean-up is due, exactly the expired ones do, in order. */
    method Clean(now: nat)
      requires Valid()
      modifies this, ([dnfaces] + active)`next, ([cleanDnfaces] + cleaned)`next
      ensures Valid()
      ensures multiset(active) + multiset(cleaned) == old(multiset(active) + multiset(cleaned))
      ensures advLifetime == old(advLifetime)
      ensures if now > advLifetime then
                active == [] && cleaned == old(cleaned) + old(active) && cleanUs == old(cleanUs)
              else if now < old(cleanUs) then
                active == old(active) && cleaned == old(cleaned) && cleanUs == old(cleanUs)
              else
                && active == Unexpired(old(active), now)
                && cleaned == old(cleaned) + Expired(old(active), now)
                && cleanUs == now + CLEANING_TIME
    {
      hide Chains, Unexpired, Expired;
      if now > advLifetime {
        MoveAll([dnfaces] + active, [cleanDnfaces] + cleaned);
        dnfacenum := 0;
        assert [cleanDnfaces] + cleaned + ([dnfaces] + active)[1..] == [cleanDnfaces] + (cleaned + active);
        assert [dnfaces] + [] == [dnfaces];
        active, cleaned := [], cleaned + active;
        return;
      }
      if now < cleanUs {
        return;
      }
      cleanUs := now + CLEANING_TIME;
      SplitKeeps(active, now);
      MoveExpired(now);
    }
  }
}
