/** The cefnetd side of the csmgr protocol in src/lib/cef_csmgr.c: splitting a byte buffer into
    frames, and batching upload requests into writes. */
module CsmgrFrames {
  import opened Bytes
  import opened Constants

  const TYPE_UPREQ: byte := 3      // CefC_Csmgr_Msg_Type_UpReq
  const TYPE_NUM: byte := 0x17     // CefC_Csmgr_Msg_Type_Num
  const HEADER_LEN: nat := 4       // CefC_Csmgr_Msg_HeaderLen
  const PIPE_SIZE: nat := 0x10000  // CefC_CsPipeBuffSize

  datatype Frame = Frame(kind: byte, body: seq<byte>)
  datatype Got = Got(rest: seq<byte>, frame: Option<Frame>)

  /** The bytes begin with a header the reader accepts, and more. */
  predicate GoodHead(b: seq<byte>) {
    |b| > HEADER_LEN && b[0] == VERSION && 0 < b[1] < TYPE_NUM
  }

  /** From the first acceptable header on; too few bytes are left over if there is none. */
  function Resync(b: seq<byte>): (r: seq<byte>)
    ensures |r| <= |b|
    ensures |r| > HEADER_LEN ==> GoodHead(r)
  {
    if |b| <= HEADER_LEN || GoodHead(b) then b else Resync(b[1..])
  }

  /** One call of the reader.  A bad length zeroes the version byte and tries again on as many
      bytes as before, so the version byte is part of the termination measure. */
  function Get(b: seq<byte>): (g: Got)
    ensures |g.rest| <= |b|
    ensures g.frame.Some? ==> |g.rest| + HEADER_LEN + |g.frame.value.body| <= |b| && g.frame.value.body != []
    decreases |b|, if |b| > 0 && b[0] == VERSION then 1 else 0
  {
    if |b| <= HEADER_LEN then Got(b, None)
    else if !GoodHead(b) then
      var r := Resync(b[1..]);
      if |r| <= HEADER_LEN then Got([], None) else Get(r)
    else
      var len := U16(b[2], b[3]);
      if len <= HEADER_LEN then Get(b[0 := 0])
      else if len > |b| then Got(b, None)
      else Got(b[len..], Some(Frame(b[1], b[HEADER_LEN..len])))
  }

  /** Calling the reader until it finds no frame. */
  function Split(b: seq<byte>): (r: (seq<Frame>, seq<byte>))
    decreases |b|
  {
    var g := Get(b);
    if g.frame.None? then ([], g.rest) else
    var r := Split(g.rest);
    ([g.frame.value] + r.0, r.1)
  }

  /** The reader works in place: the unread bytes are moved to the front of the buffer. */
  method FrameGet(buff: array<byte>, buffLen: nat) returns (newLen: nat, frame: Option<Frame>)
    requires buffLen <= buff.Length
    modifies buff
    ensures newLen <= buffLen
    ensures var g := Get(old(buff[..buffLen]));
            buff[..newLen] == g.rest && frame == g.frame
    decreases buffLen, if buffLen > 0 && buff[0] == VERSION then 1 else 0
  {
    ghost var b := buff[..buffLen];
    assert buffLen > 0 ==> b[1..] == buff[1..buffLen];
    if buffLen <= HEADER_LEN {
      return buffLen, None;
    }
    if buff[0] != VERSION || buff[1] >= TYPE_NUM || buff[1] == 0 {
      hide Resync;
      newLen := SkipInvalid(buff, buffLen);
      if newLen <= HEADER_LEN {
        return 0, None;
      }
      MoveToFront(buff, buffLen - newLen, newLen);
      newLen, frame := FrameGet(buff, newLen);
      return;
    }
    var len := U16(buff[2], buff[3]);
    if len <= HEADER_LEN {
      buff[0] := 0;
      assert buff[..buffLen] == b[0 := 0];
      newLen, frame := FrameGet(buff, buffLen);
      return;
    }
    if len > buffLen {
      return buffLen, None;
    }
    newLen, frame := TakeFrame(buff, buffLen, len);
  }

  /** Copies out the frame at the front and moves the bytes after it to the front. */
  method TakeFrame(buff: array<byte>, buffLen: nat, len: nat) returns (newLen: nat, frame: Option<Frame>)
    requires HEADER_LEN < len <= buffLen <= buff.Length
    modifies buff
    ensures newLen == buffLen - len
    ensures var b := old(buff[..buffLen]);
            buff[..newLen] == b[len..] && frame == Some(Frame(b[1], b[HEADER_LEN..len]))
  {
    ghost var b := buff[..buffLen];
    frame := Some(Frame(buff[1], buff[HEADER_LEN..len]));
    newLen := buffLen - len;
    assert buff[len..buffLen] == b[len..] && buff[HEADER_LEN..len] == b[HEADER_LEN..len];
    MoveToFront(buff, len, newLen);
  }

  /** The loop over invalid bytes: how many bytes are left from the next acceptable header on. */
  method SkipInvalid(buff: array<byte>, buffLen: nat) returns (newLen: nat)
    requires HEADER_LEN < buffLen <= buff.Length
    ensures newLen < buffLen && Resync(buff[1..buffLen]) == buff[buffLen - newLen..buffLen]
  {
    newLen := buffLen - 1;
    while newLen > HEADER_LEN
      invariant newLen < buffLen
      invariant Resync(buff[1..buffLen]) == Resync(buff[buffLen - newLen..buffLen])
    {
      var at := buffLen - newLen;
      ghost var b := buff[at..buffLen];
      if buff[at] != VERSION || buff[at + 1] >= TYPE_NUM || buff[at + 1] == 0 {
        assert !GoodHead(b) && b[1..] == buff[at + 1..buffLen];
        newLen := newLen - 1;
      } else {
        assert GoodHead(b);
        return;
      }
    }
  }

  method MoveToFront(buff: array<byte>, at: nat, n: nat)
    requires at + n <= buff.Length
    modifies buff
    ensures buff[..n] == old(buff[at..at + n])
  {
    var work := buff[at..at + n];
    forall i | 0 <= i < n {
      buff[i] := work[i];
    }
  }

  // ---------------------------------------------------------------- what the splitter recovers

  /** A well-formed frame: acceptable header, and its length field is its length. */
  predicate WellFormed(f: seq<byte>) {
    GoodHead(f) && U16(f[2], f[3]) == |f|
  }

  ghost predicate Frames(fs: seq<seq<byte>>) {
    forall i | 0 <= i < |fs| :: WellFormed(fs[i])
  }

  /** The types and bodies of some frames. */
  function Decoded(fs: seq<seq<byte>>): (r: seq<Frame>)
    requires Frames(fs)
    ensures |r| == |fs| && forall i | 0 <= i < |fs| :: r[i] == Frame(fs[i][1], fs[i][4..])
  {
    if fs == [] then [] else
    assert WellFormed(fs[0]);
    [Frame(fs[0][1], fs[0][HEADER_LEN..])] + Decoded(fs[1..])
  }

  lemma GetFrame(f: seq<byte>, rest: seq<byte>)
    requires WellFormed(f)
    ensures Get(f + rest) == Got(rest, Some(Frame(f[1], f[HEADER_LEN..])))
  {
  }

  lemma SplitCons(f: seq<byte>, rest: seq<byte>)
    requires WellFormed(f)
    ensures Split(f + rest) == ([Frame(f[1], f[HEADER_LEN..])] + Split(rest).0, Split(rest).1)
  {
  }

  lemma GetPart(last: seq<byte>, tail: seq<byte>)
    requires WellFormed(last) && tail < last
    ensures Split(tail) == ([], tail)
  {
  }

  /** On whole frames followed by part of another, repeated calls return the frames in order and
      leave the part. */
  lemma {:induction false} SplitFrames(fs: seq<seq<byte>>, last: seq<byte>, tail: seq<byte>)
    requires Frames(fs) && WellFormed(last) && tail < last
    ensures Split(Flat(fs) + tail) == (Decoded(fs), tail)
  {
    hide Split, WellFormed;
    if fs == [] {
      assert Flat(fs) + tail == tail;
      GetPart(last, tail);
    } else {
      SplitFrames(fs[1..], last, tail);
      SplitCons(fs[0], Flat(fs[1..]) + tail);
      assert Flat(fs) + tail == fs[0] + (Flat(fs[1..]) + tail);
    }
  }

  // ---------------------------------------------------------------- bytes that are no frame

  /** The bytes begin with an acceptable header whose length leaves room for a body. */
  predicate Usable(b: seq<byte>) {
    GoodHead(b) && U16(b[2], b[3]) > HEADER_LEN
  }

  /** Where no usable header begins the reader goes on with the next byte; it gives up, and drops
      everything, when too few bytes for a header would be left. */
  lemma GetStep(b: seq<byte>)
    requires |b| > HEADER_LEN && !Usable(b)
    ensures Get(b) == if |b| == HEADER_LEN + 1 then Got([], None) else Get(b[1..])
  {
    var c := b[0 := 0];
    assert c[1..] == b[1..] && Get(b) == Get(c);
    if |b| > HEADER_LEN + 1 && !GoodHead(b[1..]) {
      assert Resync(b[1..]) == Resync(b[1..][1..]);
      var d := b[1..];
      assert Get(d) == if |Resync(d[1..])| <= HEADER_LEN then Got([], None) else Get(Resync(d[1..]));
    }
  }

  /** Bytes before the first usable header are skipped, whatever they are: also an acceptable header
      with a length that leaves no room for a body. */
  lemma {:induction false} GetSkips(b: seq<byte>, o: nat)
    requires o < |b| && Usable(b[o..])
    requires forall i | 0 <= i < o :: !Usable(b[i..])
    ensures Get(b) == Get(b[o..])
    decreases o
  {
    assert b[0..] == b;
    if o > 0 {
      var c := b[1..];
      assert forall i | 0 <= i < o - 1 :: c[i..] == b[i + 1..];
      assert c[o - 1..] == b[o..];
      GetStep(b);
      GetSkips(c, o - 1);
    }
  }

  /** Without a usable header no frame is found, and nothing is kept of five bytes or more. */
  lemma {:induction false} GetNothing(b: seq<byte>)
    requires forall i | 0 <= i < |b| :: !Usable(b[i..])
    ensures Get(b) == Got(if |b| <= HEADER_LEN then b else [], None)
  {
    if |b| > HEADER_LEN {
      var c := b[1..];
      assert b[0..] == b;
      assert forall i | 0 <= i < |c| :: c[i..] == b[i + 1..];
      GetStep(b);
      if |c| > HEADER_LEN {
        GetNothing(c);
      }
    }
  }

  /** At a usable header the reader takes the frame if all of it is there, and else waits. */
  lemma GetUsable(b: seq<byte>)
    requires Usable(b)
    ensures var len := U16(b[2], b[3]);
            Get(b) == if len > |b| then Got(b, None) else Got(b[len..], Some(Frame(b[1], b[HEADER_LEN..len])))
  {
  }
}
