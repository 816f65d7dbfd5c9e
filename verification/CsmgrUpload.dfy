/** Upload requests of src/lib/cef_csmgr.c: the bytes of one request, and the batching of
    requests into writes to csmgrd. */
module CsmgrUpload {
  import opened Bytes
  import opened Constants
  import opened CsmgrFrames

  const MAX_FRAME: nat := 0xFFFF                  // a frame length is a 16-bit field
  const OVERHEAD: nat := 37                       // every field but the message and the name
  const MAGIC: seq<byte> := [0x63, 0x6f, 0x62]

  datatype Upload = Upload(payloadLen: nat, msg: seq<byte>, name: seq<byte>, chunk: nat,
                           cacheTime: nat, expiry: nat, node: seq<byte>)

  /** The request fits its fields: in particular its length fits in 16 bits. */
  ghost predicate Fits(u: Upload) {
    && u.payloadLen <= 0xFFFF && |u.node| == 4
    && u.chunk < Pow(4) && u.cacheTime < Pow(8) && u.expiry < Pow(8)
    && OVERHEAD + |u.msg| + |u.name| <= MAX_FRAME
  }

  /** The low `k` bytes of `v`, most significant first. */
  function BigEndian(v: nat, k: nat): (r: seq<byte>)
    ensures |r| == k
  {
    if k == 0 then [] else BigEndian(v / 256, k - 1) + [v % 256]
  }

  lemma TwoBytes(v: nat)
    requires v <= 0xFFFF
    ensures BigEndian(v, 2) == [v / 256, v % 256]
    ensures U16(BigEndian(v, 2)[0], BigEndian(v, 2)[1]) == v
  {
    assert v / 256 < 256 && v == v / 256 * 256 + v % 256;
    assert BigEndian(v / 256, 1) == [] + [v / 256 % 256] == [v / 256];
    hide BigEndian;
  }

  /** A field that is wide enough is read back. */
  lemma {:induction false} BigEndianValue(v: nat, k: nat)
    requires v < Pow(k)
    ensures Value(BigEndian(v, k)) == v
  {
    if k > 0 {
      BigEndianValue(v / 256, k - 1);
      assert BigEndian(v, k)[..k - 1] == BigEndian(v / 256, k - 1);
    }
  }

  /** The message goes behind two length fields, the name behind one; the rest has fixed size. */
  function Encode(u: Upload): (r: seq<byte>)
    requires |u.node| == 4
    ensures |r| == OVERHEAD + |u.msg| + |u.name|
  {
    Head(u) + (u.msg + (BigEndian(|u.name|, 2) + (u.name + (Fixed(u) + MAGIC))))
  }

  function Head(u: Upload): (r: seq<byte>)
    ensures |r| == 8
  {
    [VERSION, TYPE_UPREQ] + BigEndian(OVERHEAD + |u.msg| + |u.name|, 2)
    + BigEndian(u.payloadLen, 2) + BigEndian(|u.msg|, 2)
  }

  function Fixed(u: Upload): (r: seq<byte>)
    requires |u.node| == 4
    ensures |r| == 24
  {
    BigEndian(u.chunk, 4) + BigEndian(u.cacheTime, 8) + BigEndian(u.expiry, 8) + u.node
  }

  lemma FixedLayout(u: Upload)
    requires Fits(u)
    ensures var x := Fixed(u);
            && Value(x[..4]) == u.chunk && Value(x[4..12]) == u.cacheTime && Value(x[12..20]) == u.expiry
            && x[20..] == u.node
  {
    BigEndianValue(u.chunk, 4);
    BigEndianValue(u.cacheTime, 8);
    BigEndianValue(u.expiry, 8);
    hide BigEndian, Value, Pow;
    var x := Fixed(u);
    assert x[..4] == BigEndian(u.chunk, 4) && x[4..12] == BigEndian(u.cacheTime, 8);
    assert x[12..20] == BigEndian(u.expiry, 8);
  }

  lemma HeadLayout(u: Upload)
    requires Fits(u)
    ensures var f := Head(u);
            && f[0] == VERSION && f[1] == TYPE_UPREQ && U16(f[2], f[3]) == OVERHEAD + |u.msg| + |u.name|
            && U16(f[4], f[5]) == u.payloadLen && U16(f[6], f[7]) == |u.msg|
  {
    hide BigEndian;
    var total := BigEndian(OVERHEAD + |u.msg| + |u.name|, 2);
    var pay, len := BigEndian(u.payloadLen, 2), BigEndian(|u.msg|, 2);
    TwoBytes(OVERHEAD + |u.msg| + |u.name|);
    TwoBytes(u.payloadLen);
    TwoBytes(|u.msg|);
    assert Head(u) == [VERSION, TYPE_UPREQ, total[0], total[1], pay[0], pay[1], len[0], len[1]];
  }

  /** Where each field of a request is found. */
  lemma EncodeSlices(u: Upload)
    requires Fits(u)
    ensures var f, m, n := Encode(u), |u.msg|, |u.name|;
            && f[..8] == Head(u) && f[8..8 + m] == u.msg && f[8 + m..10 + m] == BigEndian(n, 2)
            && f[10 + m..10 + m + n] == u.name && f[10 + m + n..34 + m + n] == Fixed(u) && f[|f| - 3..] == MAGIC
  {
  }

  /** The fields up to the name, and the magic number, are read back from their places. */
  lemma EncodeLayout(u: Upload)
    requires Fits(u)
    ensures var f, m, n := Encode(u), |u.msg|, |u.name|;
            && WellFormed(f) && f[1] == TYPE_UPREQ
            && U16(f[4], f[5]) == u.payloadLen && U16(f[6], f[7]) == m && f[8..8 + m] == u.msg
            && U16(f[8 + m], f[9 + m]) == n && f[10 + m..10 + m + n] == u.name
            && f[|f| - 3..] == MAGIC
  {
    EncodeSlices(u);
    HeadLayout(u);
    TwoBytes(|u.name|);
    hide Encode, Head, BigEndian, Fixed;
    var f, m := Encode(u), |u.msg|;
    assert forall i | 0 <= i < 8 :: f[i] == f[..8][i];
    assert f[8 + m] == f[8 + m..10 + m][0] && f[9 + m] == f[8 + m..10 + m][1];
  }

  /** So are the fields behind the name. */
  lemma EncodeTail(u: Upload)
    requires Fits(u)
    ensures var f, p := Encode(u), 10 + |u.msg| + |u.name|;
            && |f| == p + 27
            && Value(f[p..p + 4]) == u.chunk && Value(f[p + 4..p + 12]) == u.cacheTime
            && Value(f[p + 12..p + 20]) == u.expiry && f[p + 20..p + 24] == u.node
  {
    EncodeSlices(u);
    FixedLayout(u);
    hide *;
    var f, p := Encode(u), 10 + |u.msg| + |u.name|;
    var x := f[p..p + 24];
    assert x == Fixed(u);
    assert x[..4] == f[p..p + 4] && x[4..12] == f[p + 4..p + 12] && x[12..20] == f[p + 12..p + 20];
    assert x[20..] == f[p + 20..p + 24];
  }

  /** `cef_csmgr_frame_check` of src/csmgrd/csmgrd/csmgrd.c: what csmgrd demands of a request.
      Where the code would read behind the bytes it was given, the answer is negative too. */
  function Check(b: seq<byte>): (r: int)
    ensures -9 <= r <= 0
    ensures r == 0 <==>
              && |b| >= 12 && b[0] == 1 && 0 < b[1] < 0x17
              && var len, pay, msg := U16(b[2], b[3]), U16(b[4], b[5]), U16(b[6], b[7]);
                 && 4 < len <= |b| && b[len - 3..len] == [0x63, 0x6f, 0x62]
                 && pay <= len && pay <= msg <= len && 12 + msg <= |b|
                 && U16(b[8 + msg], b[9 + msg]) <= msg && b[10 + msg] == 0 && b[11 + msg] == 1
  {
    if |b| <= HEADER_LEN then -1
    else if !GoodHead(b) then -2
    else
      var len := U16(b[2], b[3]);
      if len < 3 || len > |b| || b[len - 3..len] != MAGIC then -3
      else if len <= HEADER_LEN || |b| < 12 then -4
      else
        var payLen, msgLen := U16(b[4], b[5]), U16(b[6], b[7]);
        if payLen > len then -5
        else if payLen > msgLen then -6
        else if msgLen > len || 12 + msgLen > |b| then -7
        else if U16(b[8 + msgLen], b[9 + msgLen]) > msgLen then -8
        else if b[10 + msgLen] == 0 && b[11 + msgLen] == 1 then 0 else -9
  }

  /** csmgrd accepts a request exactly when its payload and its name are no longer than its
      message and its name starts with a name segment.  Of a name shorter than two bytes it reads
      on into the chunk number behind it. */
  lemma PutAccepted(u: Upload)
    requires Fits(u)
    ensures Check(Encode(u)) == 0 <==>
              u.payloadLen <= |u.msg| && |u.name| <= |u.msg| && (u.name + Fixed(u))[..2] == [0, 1]
  {
    EncodeLayout(u);
    EncodeSlices(u);
    var f, m, n := Encode(u), |u.msg|, |u.name|;
    hide Encode, Fixed;
    var read := u.name + Fixed(u);
    Slices(f, 10 + m, 10 + m + n, 34 + m + n);
    assert f[10 + m..34 + m + n] == read;
    assert f[10 + m] == read[0] && f[11 + m] == read[1];
    assert read[..2] == [read[0], read[1]];
  }

  /** So every request whose name and payload were read out of its message is accepted, if the
      name starts with a name segment. */
  lemma ReadOutAccepted(u: Upload, namePos: nat, payloadPos: nat)
    requires Fits(u) && payloadPos + u.payloadLen <= |u.msg|
    requires namePos + |u.name| <= |u.msg| && u.name == u.msg[namePos..namePos + |u.name|]
    requires |u.name| >= 2 && u.name[..2] == [0, 1]
    ensures Check(Encode(u)) == 0
  {
    PutAccepted(u);
    assert (u.name + Fixed(u))[..2] == u.name[..2];
  }

  // ---------------------------------------------------------------- batches

  ghost predicate AllFit(us: seq<Upload>) {
    forall i | 0 <= i < |us| :: Fits(us[i])
  }

  function EncodeAll(us: seq<Upload>): (r: seq<seq<byte>>)
    requires AllFit(us)
    ensures |r| == |us| && forall i | 0 <= i < |us| :: r[i] == Encode(us[i])
  {
    if us == [] then [] else EncodeAll(us[..|us| - 1]) + [Encode(us[|us| - 1])]
  }

  lemma {:induction false} EncodeAllFrames(us: seq<Upload>)
    requires AllFit(us)
    ensures Frames(EncodeAll(us))
  {
    if us != [] {
      EncodeAllFrames(us[..|us| - 1]);
      EncodeLayout(us[|us| - 1]);
    }
  }

  lemma {:induction false} FlatFlat<T>(groups: seq<seq<seq<T>>>, flats: seq<seq<T>>)
    requires |flats| == |groups| && forall i | 0 <= i < |groups| :: flats[i] == Flat(groups[i])
    ensures Flat(flats) == Flat(Flat(groups))
  {
    if groups != [] {
      FlatFlat(groups[1..], flats[1..]);
      FlatAppend(groups[0], Flat(groups[1..]));
    }
  }

  /** Batching loses, repeats and reorders nothing: the bytes written and the bytes pending split
      into exactly the requests put, and no write cuts a request. */
  lemma BatchesSplit(groups: seq<seq<seq<byte>>>, sent: seq<seq<byte>>, pending: seq<seq<byte>>, puts: seq<Upload>)
    requires |sent| == |groups| && forall i | 0 <= i < |groups| :: sent[i] == Flat(groups[i])
    requires AllFit(puts) && Flat(groups) + pending == EncodeAll(puts)
    ensures Frames(EncodeAll(puts))
    ensures Split(Flat(sent) + Flat(pending)) == (Decoded(EncodeAll(puts)), [])
    ensures forall i | 0 <= i < |sent| :: Frames(groups[i]) && Split(sent[i]) == (Decoded(groups[i]), [])
  {
    EncodeAllFrames(puts);
    FlatFlat(groups, sent);
    FlatAppend(Flat(groups), pending);
    SplitAll(EncodeAll(puts));
    forall i | 0 <= i < |sent|
      ensures Frames(groups[i]) && Split(sent[i]) == (Decoded(groups[i]), [])
    {
      FramesOfGroup(groups, pending, i);
      SplitAll(groups[i]);
    }
  }

  lemma SplitAll(fs: seq<seq<byte>>)
    requires Frames(fs)
    ensures Split(Flat(fs)) == (Decoded(fs), [])
  {
  }

  lemma {:induction false} FramesOfGroup(groups: seq<seq<seq<byte>>>, rest: seq<seq<byte>>, i: nat)
    requires Frames(Flat(groups) + rest) && i < |groups|
    ensures Frames(groups[i])
  {
    var all := Flat(groups) + rest;
    var later := Flat(groups[1..]) + rest;
    assert all == groups[0] + later;
    assert Frames(groups[0]) by {
      assert forall k | 0 <= k < |groups[0]| :: groups[0][k] == all[k];
    }
    assert Frames(later) by {
      assert forall k | 0 <= k < |later| :: later[k] == all[|groups[0]| + k];
    }
    if i > 0 {
      FramesOfGroup(groups[1..], rest, i - 1);
    }
  }

  class Uploader {
    const buff: array<byte>                       // cefnetd_msg_buff
    var index: nat                                // cefnetd_msg_buff_index
    ghost var sent: seq<seq<byte>>                // the writes made, in order
    ghost var groups: seq<seq<seq<byte>>>         // the frames in each write
    ghost var pending: seq<seq<byte>>             // the frames in the buffer
    ghost var puts: seq<Upload>                   // the requests put

    ghost predicate Valid()
      reads this, buff
    {
      && buff.Length == PIPE_SIZE && index <= PIPE_SIZE
      && buff[..index] == Flat(pending)
      && |sent| == |groups| && (forall i | 0 <= i < |sent| :: sent[i] == Flat(groups[i]) && groups[i] != [])
      && AllFit(puts)
      && Flat(groups) + pending == EncodeAll(puts)
    }

    constructor ()
      ensures Valid() && fresh(buff) && sent == [] && puts == []
    {
      buff := new byte[PIPE_SIZE](_ => 0);
      index := 0;
      sent, groups, pending, puts := [], [], [], [];
    }

    /** One write of everything pending. */
    method Send()
      requires Valid() && pending != []
      modifies this
      ensures Valid() && puts == old(puts)
      ensures sent == old(sent) + [old(buff[..index])] && index == 0 && pending == []
    {
      sent := sent + [buff[..index]];
      FlatSnoc(groups, pending);
      groups := groups + [pending];
      pending := [];
      index := 0;
    }

    /** Puts one request.  A write is made first if the buffer would fill up, and afterwards if
        this is the last chunk.  A request without a chunk number is not sent at all. */
    method ItemPut(u: Upload, chunked: bool, endChunk: Option<nat>)
      requires Valid() && Fits(u)
      modifies this, buff
      ensures Valid() && puts == old(puts) + if chunked then [u] else []
      ensures old(sent) <= sent
      ensures !chunked ==> sent == old(sent) && buff[..index] == old(buff[..index])
      ensures chunked ==>
        var waiting, frame := old(buff[..index]), Encode(u);
        var full := PIPE_SIZE <= |waiting| + |frame|;
        var written, left := old(sent) + (if full then [waiting] else []), (if full then [] else waiting) + frame;
        if endChunk.Some? && endChunk.value <= u.chunk then sent == written + [left] && index == 0
        else sent == written && buff[..index] == left
    {
      if !chunked {
        return;
      }
      var frame := Encode(u);
      if PIPE_SIZE <= index + |frame| {
        Send();
      }
      Enqueue(u, frame);
      if endChunk.Some? && endChunk.value <= u.chunk {
        Send();
      }
    }

    method Enqueue(u: Upload, frame: seq<byte>)
      requires Valid() && Fits(u) && frame == Encode(u) && index + |frame| < PIPE_SIZE
      modifies this, buff
      ensures Valid() && puts == old(puts) + [u] && sent == old(sent)
      ensures pending == old(pending) + [frame] && buff[..index] == old(buff[..index]) + frame
    {
      ghost var before := buff[..index];
      forall i | 0 <= i < |frame| {
        buff[index + i] := frame[i];
      }
      index := index + |frame|;
      assert buff[..index] == before + frame;
      FlatSnoc(pending, frame);
      assert Flat(groups) + (pending + [frame]) == (Flat(groups) + pending) + [frame];
      pending := pending + [frame];
      puts := puts + [u];
      assert puts[..|puts| - 1] == old(puts);
    }

    /** Writes whatever is pending. */
    method ItemPush()
      requires Valid()
      modifies this
      ensures Valid() && puts == old(puts) && index == 0
      ensures sent == old(sent) + if old(index) > 0 then [old(buff[..index])] else []
    {
      if index > 0 {
        Send();
      }
    }
  }
}
