/** How a content record of src/lib/cef_csmgr_stat.c infers the size of a chunk that is removed
    without its size being given. */
module CobSizes {

  /** cob_size, last_cob_size, last_chunk_num and con_size. */
  datatype Sizes = Sizes(cob: nat, last: nat, lastChunk: nat, total: int)

  const FRESH := Sizes(0, 0, 0, 0)

  /** What an update notes about a chunk of the given size: the largest size so far, and the last
      smaller size with its chunk, or a higher chunk. */
  function Note(z: Sizes, chunk: nat, size: nat): (r: Sizes)
    ensures r.total == z.total
  {
    if z.cob == 0 || size < z.cob then
      Sizes(if z.cob == 0 then size else z.cob, size, chunk, z.total)
    else
      Sizes(size, z.last, if z.lastChunk < chunk then chunk else z.lastChunk, z.total)
  }

  /** The steps of an update that note the size. */
  method NoteSize(z: Sizes, chunk: nat, size: nat) returns (r: Sizes)
    ensures r == Note(z, chunk, size)
  {
    r := z;
    if r.cob == 0 {
      r := r.(cob := size, last := size, lastChunk := chunk);
    }
    if r.cob > size {
      r := r.(last := size, lastChunk := chunk);
    } else {
      if r.cob < size {
        r := r.(cob := size);
      }
    }
    if r.lastChunk < chunk {
      r := r.(lastChunk := chunk);
    }
  }

  /** The size a removal takes off: the one it is given, or what it infers if that is zero. */
  function Inferred(z: Sizes, chunk: nat, size: nat): nat {
    if size != 0 then size else if chunk == z.lastChunk then z.last else z.cob
  }

  /** A content cut into chunks of one size, except that the final one may be shorter. */
  datatype Content = Content(size: nat, final: nat, finalSize: nat)

  predicate Regular(c: Content) {
    0 < c.finalSize <= c.size
  }

  function SizeOf(c: Content, chunk: nat): nat {
    if chunk == c.final then c.finalSize else c.size
  }

  /** The bytes of the chunks in a set. */
  function TotalSize(c: Content, chunks: set<nat>): nat {
    |chunks - {c.final}| * c.size + if c.final in chunks then c.finalSize else 0
  }

  /** What the record knows: nothing, or chunks before the final one only, or the final one too. */
  ghost predicate Knows(z: Sizes, c: Content, chunks: set<nat>) {
    && (forall q <- chunks :: q <= c.final)
    && z.total == TotalSize(c, chunks)
    && if z.cob == 0 then chunks == {}
       else if z.lastChunk == c.final then
         z.last == c.finalSize && (z.cob == c.size || (z.cob == c.finalSize && chunks <= {c.final}))
       else z.lastChunk < c.final && c.final !in chunks && z.cob == c.size && z.last == c.size
  }

  /** Whatever chunks came and went before, the size inferred for a cached chunk is its size. */
  lemma InferredRight(z: Sizes, c: Content, chunks: set<nat>, chunk: nat)
    requires Regular(c) && Knows(z, c, chunks) && chunk in chunks
    ensures Inferred(z, chunk, 0) == SizeOf(c, chunk)
  {
  }

  /** It is not if a chunk before the final one is smaller: of chunks of sizes 100, 50 and 100, cached
      in order, the last is taken for 50 bytes, and the one of 50 for 100. */
  lemma MiddleSmaller()
    ensures var z := Note(Note(Note(FRESH, 0, 100), 1, 50), 2, 100);
            Inferred(z, 2, 0) == 50 && Inferred(z, 1, 0) == 100
  {
  }

  lemma TotalSizePut(c: Content, chunks: set<nat>, chunk: nat)
    requires chunk !in chunks
    ensures TotalSize(c, chunks + {chunk}) == TotalSize(c, chunks) + SizeOf(c, chunk)
  {
    if chunk == c.final {
      assert chunks + {chunk} - {c.final} == chunks - {c.final};
    } else {
      assert chunks + {chunk} - {c.final} == (chunks - {c.final}) + {chunk};
      var n := |chunks - {c.final}|;
      assert (n + 1) * c.size == n * c.size + c.size;
    }
  }

  /** An update with a chunk's true size, and a removal without one, keep the record right: the
      content size is the exact sum over the cached chunks, so it never falls below zero. */
  lemma UpdateKnows(z: Sizes, c: Content, chunks: set<nat>, chunk: nat)
    requires Regular(c) && Knows(z, c, chunks) && chunk <= c.final
    ensures var size := SizeOf(c, chunk);
            var total := if chunk in chunks then z.total else z.total + size;
            Knows(Note(z, chunk, size).(total := total), c, chunks + {chunk})
  {
    hide TotalSize;
    if chunk in chunks {
      assert chunks + {chunk} == chunks;
    } else {
      TotalSizePut(c, chunks, chunk);
    }
  }

  lemma RemoveKnows(z: Sizes, c: Content, chunks: set<nat>, chunk: nat, size: nat)
    requires Regular(c) && Knows(z, c, chunks) && (size == 0 || size == SizeOf(c, chunk))
    ensures chunk in chunks ==> Inferred(z, chunk, size) == SizeOf(c, chunk)
    ensures Knows(if chunk in chunks then z.(total := z.total - Inferred(z, chunk, size)) else z, c, chunks - {chunk})
  {
    hide TotalSize;
    if chunk in chunks {
      InferredRight(z, c, chunks, chunk);
      TotalSizePut(c, chunks - {chunk}, chunk);
      assert chunks - {chunk} + {chunk} == chunks;
    } else {
      assert chunks - {chunk} == chunks;
    }
  }

  // ---------------------------------------------------------------- the sum over the cached chunks

  /** The sizes of the chunks below `n`, added up. */
  function SizeSum(m: map<nat, nat>, n: nat): nat {
    if n == 0 then 0 else SizeSum(m, n - 1) + if n - 1 in m then m[n - 1] else 0
  }

  lemma {:induction false} SizeSumPut(m: map<nat, nat>, q: nat, size: nat, n: nat)
    requires q !in m
    ensures SizeSum(m[q := size], n) == SizeSum(m, n) + if q < n then size else 0
  {
    if n > 0 {
      SizeSumPut(m, q, size, n - 1);
    }
  }

  lemma SizeSumDrop(m: map<nat, nat>, q: nat, n: nat)
    requires q in m
    ensures SizeSum(m, n) == SizeSum(m - {q}, n) + if q < n then m[q] else 0
  {
    assert (m - {q})[q := m[q]] == m;
    SizeSumPut(m - {q}, q, m[q], n);
  }

  lemma {:induction false} SizeSumNone(n: nat)
    ensures SizeSum(map[], n) == 0
  {
    if n > 0 {
      SizeSumNone(n - 1);
    }
  }
}
