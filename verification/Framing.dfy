/** Packet reassembly on a face: `cefnetd_messege_head_seek` and `cefnetd_input_message_process`
    of src/cefnetd/cef_netd.c.  Packets have the fixed header of section 3.2 of RFC 8609 and one
    top-level TLV. */
module Framing {
  import opened Bytes
  import opened Constants

  const MAX_LENGTH: nat := 65535      // CefC_Max_Length
  const HEADER_SIZE: nat := 8         // sizeof (struct cef_hdr)
  const PT_MAX: byte := 4             // CefC_PT_MAX
  const S_TLF: nat := 4               // CefC_S_TLF
  const T_INTEREST: nat := 1
  const T_TOP_TLV_NUM: nat := 6

  /** A packet: version, type, total length and header length agree with its one TLV. */
  ghost predicate Packet(p: seq<byte>) {
    && HEADER_SIZE + S_TLF <= |p| <= MAX_LENGTH
    && p[0] == VERSION && p[1] <= PT_MAX
    && U16(p[2], p[3]) == |p|
    && HEADER_SIZE <= p[7]
    && var hdr := p[7];
       && hdr + S_TLF <= |p|
       && T_INTEREST <= U16(p[hdr], p[hdr + 1]) < T_TOP_TLV_NUM
       && hdr + S_TLF + U16(p[hdr + 2], p[hdr + 3]) == |p|
  }

  /** `s` is the beginning of a concatenation of packets. */
  ghost predicate Stream(s: seq<byte>) {
    exists ps: seq<seq<byte>> :: (forall p <- ps :: Packet(p)) && s <= Flat(ps)
  }

  /** Cuts a stream at the lengths its packets announce: the complete packets, and the tail. */
  function Parse(s: seq<byte>): (r: (seq<seq<byte>>, seq<byte>)) {
    if |s| < 4 then ([], s) else
    var n := U16(s[2], s[3]);
    if n == 0 || |s| < n then ([], s) else
    var rest := Parse(s[n..]);
    ([s[..n]] + rest.0, rest.1)
  }

  // ---------------------------------------------------------------- streams

  /** A non-empty stream begins with a packet or with part of one. */
  lemma StreamHead(s: seq<byte>) returns (p: seq<byte>)
    requires Stream(s) && s != []
    ensures Packet(p) && (s <= p || p <= s)
    ensures p <= s ==> Stream(s[|p|..])
  {
    var ps: seq<seq<byte>> :| (forall p <- ps :: Packet(p)) && s <= Flat(ps);
    p := ps[0];
    if |p| <= |s| {
      assert s[|p|..] <= Flat(ps[1..]);
    } else {
      assert s == p[..|s|];
    }
  }

  lemma StreamPrefix(s: seq<byte>, t: seq<byte>)
    requires Stream(s + t)
    ensures Stream(s)
  {
  }

  lemma ParseCons(p: seq<byte>, rest: seq<byte>)
    requires Packet(p)
    ensures Parse(p + rest) == ([p] + Parse(rest).0, Parse(rest).1)
  {
  }

  lemma TypeKnown(p: seq<byte>)
    requires Packet(p)
    ensures 1 < |p| && p[1] <= PT_MAX
  {
  }

  lemma ParseEmpty()
    ensures Parse([]) == ([], [])
  {
  }

  lemma ParsePart(last: seq<byte>, tail: seq<byte>)
    requires Packet(last) && tail < last
    ensures Parse(tail) == ([], tail)
  {
  }

  /** Parsing inverts concatenation: it returns the packets, and what follows if that is only
      part of a packet. */
  lemma {:induction false} ParseFlat(ps: seq<seq<byte>>, last: seq<byte>, tail: seq<byte>)
    requires (forall p <- ps :: Packet(p)) && Packet(last) && tail < last
    ensures Parse(Flat(ps) + tail) == (ps, tail)
  {
    if ps == [] {
      ParsePart(last, tail);
      assert Flat(ps) + tail == tail;
    } else {
      ParseFlat(ps[1..], last, tail);
      ParseCons(ps[0], Flat(ps[1..]) + tail);
      assert Flat(ps) + tail == ps[0] + (Flat(ps[1..]) + tail);
      assert [ps[0]] + ps[1..] == ps;
    }
  }

  /** Cutting a stream anywhere does not change how it parses: the tail of the first piece goes
      in front of the second. */
  lemma {:induction false} ParseSplit(a: seq<byte>, b: seq<byte>)
    ensures var first := Parse(a);
            var second := Parse(first.1 + b);
            Parse(a + b) == (first.0 + second.0, second.1)
    decreases |a|
  {
    if |a| < 4 || U16(a[2], a[3]) == 0 || |a| < U16(a[2], a[3]) {
      assert [] + Parse(a + b).0 == Parse(a + b).0;
    } else {
      var n := U16(a[2], a[3]);
      var head, x := [a[..n]], a[n..];
      ParseSplit(x, b);
      assert (a + b)[..n] == a[..n] && (a + b)[n..] == x + b;
      assert Parse(a + b).0 == head + Parse(x + b).0;
      assert head + (Parse(x).0 + Parse(Parse(x).1 + b).0) == (head + Parse(x).0) + Parse(Parse(x).1 + b).0;
    }
  }

  lemma {:induction false} StreamTail(a: seq<byte>, b: seq<byte>)
    requires Stream(a + b)
    ensures Stream(Parse(a).1 + b)
    decreases |a|
  {
    if |a| < 4 || U16(a[2], a[3]) == 0 || |a| < U16(a[2], a[3]) {
    } else {
      var n := U16(a[2], a[3]);
      var p := StreamHead(a + b);
      assert p[2] == (a + b)[2] == a[2] && p[3] == (a + b)[3] == a[3];
      assert (a + b)[n..] == a[n..] + b;
      StreamTail(a[n..], b);
    }
  }

  /** A stream with no complete packet in it is shorter than any buffer. */
  lemma UnfinishedFits(s: seq<byte>)
    requires Stream(s) && Parse(s) == ([], s)
    ensures |s| < MAX_LENGTH
  {
    if s != [] {
      var p := StreamHead(s);
      var rest := if |p| <= |s| then s[|p|..] else [];
      assert p <= s ==> s == p + rest;
      ParseCons(p, rest);
    }
  }

  /** Taking in `now` and draining leaves the rest of the stream to be taken in. */
  lemma TakeIn(held: seq<byte>, now: seq<byte>, later: seq<byte>)
    requires Stream(held + (now + later))
    ensures Stream(held + now)
    ensures var first := Parse(held + now);
            && Stream(first.1 + later)
            && Parse(held + (now + later)) == (first.0 + Parse(first.1 + later).0, Parse(first.1 + later).1)
  {
    assert held + (now + later) == (held + now) + later;
    StreamPrefix(held + now, later);
    StreamTail(held + now, later);
    ParseSplit(held + now, later);
  }

  // ---------------------------------------------------------------- the receive buffer

  datatype Seek =
    | NeedMore                                  // -1: wait for more bytes
    | Ready(payloadLen: nat, headerLen: nat)    // 1: a whole packet is at the front
    | Garbage                                   // not a packet: the code resynchronises, or its index wraps

  class Receiver {
    const buf: array<byte>
    var len: nat
    ghost var dispatched: seq<seq<byte>>        // the packets handed on, in order

    ghost predicate Valid()
      reads this
    {
      buf.Length == MAX_LENGTH && len <= MAX_LENGTH
    }

    ghost function Held(): seq<byte>
      reads this, buf
      requires Valid()
    {
      buf[..len]
    }

    constructor ()
      ensures Valid() && fresh(buf) && Held() == [] && dispatched == []
    {
      buf := new byte[MAX_LENGTH](_ => 0);
      len := 0;
      dispatched := [];
    }

    /** Looks at the front of the buffer.  Lengths are 16-bit and wrap.  Whatever packet `p` the
        buffer begins with, or begins, the answer is whether all of it is there. */
    method HeadSeek(ghost p: seq<byte>) returns (r: Seek)
      requires Valid()
      ensures Packet(p) && (Held() <= p || p <= Held()) ==>
                r == if |p| <= len then Ready(|p| - p[7], p[7]) else NeedMore
    {
      if len <= HEADER_SIZE {
        return NeedMore;
      }
      var pktLen := U16(buf[2], buf[3]);
      var hdrLen := buf[7];
      if buf[0] != VERSION || buf[1] > PT_MAX || pktLen < HEADER_SIZE || hdrLen < HEADER_SIZE || pktLen < hdrLen {
        return Garbage;
      }
      if len < hdrLen + S_TLF {
        return NeedMore;
      }
      var payloadLen := 0;
      var ix := hdrLen;
      while ix < len
        invariant hdrLen <= ix
        invariant Packet(p) && (Held() <= p || p <= Held()) ==> ix == hdrLen && payloadLen == 0
        decreases len - ix
      {
        if ix + 3 >= MAX_LENGTH {
          return Garbage;
        }
        var tlvType := U16(buf[ix], buf[ix + 1]);
        var tlvLen := (U16(buf[ix + 2], buf[ix + 3]) + S_TLF) % 0x1_0000;
        if !(T_INTEREST <= tlvType < T_TOP_TLV_NUM) || tlvLen == 0 {
          return Garbage;
        }
        payloadLen := (payloadLen + tlvLen) % 0x1_0000;
        ix := ix + tlvLen;
        if hdrLen + payloadLen == pktLen {
          break;
        }
        if ix >= 0x1_0000 {
          return Garbage;
        }
      }
      if len < pktLen {
        return NeedMore;
      }
      if hdrLen + payloadLen != pktLen {
        return Garbage;
      }
      return Ready(payloadLen, hdrLen);
    }

    /** Drops the first `n` bytes by moving the rest to the front. */
    method Shift(n: nat)
      requires Valid() && n <= len
      modifies this`len, buf
      ensures Valid() && Held() == old(Held())[n..]
    {
      var rest := buf[n..len];
      forall i | 0 <= i < |rest| {
        buf[i] := rest[i];
      }
      len := len - n;
    }

    method Append(msg: seq<byte>)
      requires Valid() && len + |msg| <= MAX_LENGTH
      modifies this`len, buf
      ensures Valid() && Held() == old(Held()) + msg
    {
      forall i | 0 <= i < |msg| {
        buf[len + i] := msg[i];
      }
      len := len + |msg|;
    }

    /** The inner loop: hands on every complete packet at the front of the buffer. */
    method Drain()
      requires Valid() && Stream(Held())
      modifies this, buf
      ensures Valid() && Stream(Held())
      ensures Held() == Parse(old(Held())).1 && dispatched == old(dispatched) + Parse(old(Held())).0
      ensures len < MAX_LENGTH && Parse(Held()) == ([], Held())
    {
      hide Packet, Parse;
      ParseEmpty();
      ghost var todo := Parse(Held()).0;
      while len > 0
        invariant Valid() && Stream(Held())
        invariant Parse(Held()) == (todo, Parse(old(Held())).1)
        invariant dispatched + todo == old(dispatched) + Parse(old(Held())).0
        decreases len
      {
        ghost var held := Held();
        ghost var p := StreamHead(held);
        var r := HeadSeek(p);
        if r.NeedMore? {
          ParsePart(p, held);
          break;
        }
        var moveLen := r.payloadLen + r.headerLen;
        assert buf[..moveLen] == held[..moveLen] == p && held == p + held[moveLen..];
        ParseCons(p, held[moveLen..]);
        assert todo == [p] + todo[1..];
        assert dispatched + todo == (dispatched + [p]) + todo[1..];
        TypeKnown(p);
        assert buf[1] <= PT_MAX;   // so the arm for an unknown packet type is never taken
        dispatched := dispatched + [buf[..moveLen]];
        Shift(moveLen);
        todo := todo[1..];
      }
      UnfinishedFits(Held());
    }

    /** Takes in one chunk, as much at a time as the buffer has room for.  Whatever its size, the
        outer loop makes progress, because a full buffer holds a complete packet. */
    method Receive(msg: seq<byte>)
      requires Valid() && Stream(Held() + msg) && Parse(Held()) == ([], Held())
      modifies this, buf
      ensures Valid() && Parse(Held()) == ([], Held())
      ensures var all := Parse(old(Held()) + msg);
              Held() == all.1 && dispatched == old(dispatched) + all.0
    {
      hide Packet, Parse, Stream;
      ghost var all := Parse(Held() + msg);
      ghost var todo := all.0;
      var pos := 0;
      StreamPrefix(Held(), msg);
      UnfinishedFits(Held());
      assert msg[0..] == msg;
      while pos < |msg|
        invariant Valid() && 0 <= pos <= |msg| && len < MAX_LENGTH
        invariant Stream(Held() + msg[pos..]) && Parse(Held()) == ([], Held())
        invariant Parse(Held() + msg[pos..]) == (todo, all.1)
        invariant dispatched + todo == old(dispatched) + all.0
      {
        var moveLen := if |msg| - pos > MAX_LENGTH - len then MAX_LENGTH - len else |msg| - pos;
        ghost var now, later := msg[pos..pos + moveLen], msg[pos + moveLen..];
        assert msg[pos..] == now + later;
        TakeIn(Held(), now, later);
        ghost var first := Parse(Held() + now).0;
        assert forall rest :: dispatched + (first + rest) == (dispatched + first) + rest;
        Append(msg[pos..pos + moveLen]);
        pos := pos + moveLen;
        Drain();
        todo := Parse(Held() + later).0;
      }
      assert Held() + msg[pos..] == Held();
    }

    /** Fragmentation does not matter: however the bytes of a stream are cut, the packets handed on
        are the complete packets of what arrived, and the buffer holds only the unfinished tail. */
    method ReceiveAll(chunks: seq<seq<byte>>)
      requires Valid() && Stream(Held() + Flat(chunks)) && Parse(Held()) == ([], Held())
      modifies this, buf
      ensures Valid() && Parse(Held()) == ([], Held())
      ensures var all := Parse(old(Held()) + Flat(chunks));
              Held() == all.1 && dispatched == old(dispatched) + all.0
    {
      hide Packet, Parse, Stream;
      ghost var all := Parse(Held() + Flat(chunks));
      ghost var todo := all.0;
      var i := 0;
      assert chunks[0..] == chunks;
      while i < |chunks|
        invariant Valid() && 0 <= i <= |chunks| && Parse(Held()) == ([], Held())
        invariant Stream(Held() + Flat(chunks[i..]))
        invariant Parse(Held() + Flat(chunks[i..])) == (todo, all.1)
        invariant dispatched + todo == old(dispatched) + all.0
      {
        ghost var later := Flat(chunks[i + 1..]);
        assert Flat(chunks[i..]) == chunks[i] + later;
        TakeIn(Held(), chunks[i], later);
        ghost var first := Parse(Held() + chunks[i]).0;
        assert forall rest :: dispatched + (first + rest) == (dispatched + first) + rest;
        Receive(chunks[i]);
        todo := Parse(Held() + later).0;
        i := i + 1;
      }
      assert Held() + Flat(chunks[i..]) == Held();
    }
  }
}
