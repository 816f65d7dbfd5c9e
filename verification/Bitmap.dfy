/** The chunk bitmaps of src/lib/cef_csmgr_stat.c.  A 64-bit word is the sequence of its bits, so
    testing, setting and clearing under the mask `1 << n` is reading and writing entry `n`. */
module Bitmap {

  const ADD_MAPS: nat := 1000   // CsmgrT_Add_Maps

  type Word = w: seq<bool> | |w| == 64 witness seq(64, _ => false)

  function Zero(): (w: Word)
    ensures forall n | 0 <= n < 64 :: !w[n]
  {
    seq(64, _ => false)
  }

  predicate Bit(words: seq<Word>, s: nat) {
    s / 64 < |words| && words[s / 64][s % 64]
  }

  /** The chunk numbers a bitmap holds. */
  function Chunks(words: seq<Word>): (r: set<nat>)
    ensures forall s: nat :: s in r <==> Bit(words, s)
  {
    set s: nat | 0 <= s < 64 * |words| && Bit(words, s)
  }

  function Put(words: seq<Word>, s: nat, on: bool): (r: seq<Word>)
    requires s / 64 < |words|
    ensures |r| == |words|
  {
    words[s / 64 := words[s / 64][s % 64 := on]]
  }

  lemma PutChunks(words: seq<Word>, s: nat, on: bool)
    requires s / 64 < |words|
    ensures Chunks(Put(words, s, on)) == if on then Chunks(words) + {s} else Chunks(words) - {s}
  {
  }

  /** How many words a map grown for word `x` has. */
  function GrownSize(x: nat): (r: nat)
    ensures r % 1000 == 0 && x + 1000 <= r < x + 2000
  {
    var rounded := if x % ADD_MAPS != 0 then x / ADD_MAPS + 1 else x / ADD_MAPS;
    ADD_MAPS + rounded * ADD_MAPS
  }

  function Grown(words: seq<Word>, size: nat): (r: seq<Word>)
    requires |words| <= size
    ensures |r| == size
  {
    words + seq(size - |words|, _ => Zero())
  }

  lemma GrownChunks(words: seq<Word>, size: nat)
    requires |words| <= size
    ensures Chunks(Grown(words, size)) == Chunks(words)
  {
  }

  // ---------------------------------------------------------------- the min/max scan

  /** The lowest and the highest set bit of a word. */
  method LowBit(w: Word) returns (n: nat)
    requires exists k :: 0 <= k < 64 && w[k]
    ensures n < 64 && w[n] && forall k | 0 <= k < n :: !w[k]
  {
    n := 0;
    while n < 64 && !w[n]
      invariant n <= 64 && forall k | 0 <= k < n :: !w[k]
    {
      n := n + 1;
    }
  }

  method HighBit(w: Word) returns (n: nat)
    requires exists k :: 0 <= k < 64 && w[k]
    ensures n < 64 && w[n] && forall k | n < k < 64 :: !w[k]
  {
    n := 0;
    while n < 64 && !w[63 - n]
      invariant n <= 64 && forall k | 63 - n < k < 64 :: !w[k]
    {
      n := n + 1;
    }
    n := 63 - n;
  }

  /** The loops of `csmgr_stat_content_info_get`.  The downward one runs on an unsigned index and
      its guard is always true: it stops because some bit is set. */
  method Extremes(words: seq<Word>) returns (minSeq: nat, maxSeq: nat)
    requires Chunks(words) != {} && |words| <= 0xFFFF_FFFF
    ensures minSeq in Chunks(words) && maxSeq in Chunks(words)
    ensures forall s <- Chunks(words) :: minSeq <= s <= maxSeq
  {
    ghost var some :| some in Chunks(words);
    minSeq, maxSeq := 0, 0;
    var i := 0;
    while i < |words|
      invariant 0 <= i <= some / 64
      invariant forall s <- Chunks(words) :: i <= s / 64
    {
      if words[i] != Zero() {
        var n := LowBit(words[i]);
        minSeq := i * 64 + n;
        assert Bit(words, minSeq);
        break;
      }
      i := i + 1;
    }
    i := |words| - 1;
    while i >= 0
      invariant some / 64 <= i < |words|
      invariant forall s <- Chunks(words) :: s / 64 <= i
      decreases i
    {
      if words[i] != Zero() {
        var n := HighBit(words[i]);
        maxSeq := i * 64 + n;
        assert Bit(words, maxSeq);
        break;
      }
      assert i > 0;
      i := (i + 0xFFFF_FFFF) % 0x1_0000_0000;
    }
  }
}
