/** `LzChunk` of the heatmap viewer: the items of one dictionary phrase of the
    global-stack decoder, kept as a linked list of arrays so that extending a
    long phrase shares all its full arrays. */
module LzChunks {
  import opened Common

  /** Chunk capacity at which `copyWithNext` starts a new chunk. */
  const CHUNK_ITEMS: int := 64

  /** A chunk: its `data` array and `nextChunk`. */
  datatype Chunk = Chunk(data: seq<int>, next: Option<Chunk>)

  /** The items of a chain, from this chunk on. */
  function Items(c: Chunk): seq<int>
    decreases c
  {
    if c.next.None? then c.data else c.data + Items(c.next.value)
  }

  /** The number of chunks of a chain. */
  function Length(c: Chunk): nat
    decreases c
  {
    if c.next.None? then 1 else 1 + Length(c.next.value)
  }

  /** The `data` of the last chunk. */
  function LastData(c: Chunk): seq<int>
    decreases c
  {
    if c.next.None? then c.data else LastData(c.next.value)
  }

  /** The chains the decoder builds: every chunk holds (method, frame size)
      pairs and at most 64 items, every chunk but the last is full, and only
      a one-chunk chain, the empty phrase, can have an empty chunk. */
  predicate Wf(c: Chunk)
    decreases c
  {
    |c.data| % 2 == 0 && |c.data| <= CHUNK_ITEMS
    && (c.next.Some? ==> |c.data| == CHUNK_ITEMS && |c.next.value.data| > 0 && Wf(c.next.value))
  }

  /** No chunk of the chain is empty, so reading it never yields `undefined`. */
  predicate NoEmptyChunk(c: Chunk)
    decreases c
  {
    |c.data| > 0 && (c.next.Some? ==> NoEmptyChunk(c.next.value))
  }

  /** `copyWithNext(method, frameSize)`: a new chain with the data of every
      chunk but the last; the last chunk's data is kept too when it holds 64
      or more items and a chunk [method, frameSize] follows it, and otherwise
      a copy of it with the pair pushed takes its place. */
  function CopyWithNext(c: Chunk, m: int, s: int): (r: Chunk)
    decreases c
  {
    if c.next.Some? then Chunk(c.data, Some(CopyWithNext(c.next.value, m, s)))
    else if |c.data| >= CHUNK_ITEMS then Chunk(c.data, Some(Chunk([m, s], None)))
    else Chunk(c.data + [m, s], None)
  }

  /** The new chain holds the old phrase followed by the pair. */
  lemma {:induction false} CopyFlattens(c: Chunk, m: int, s: int)
    ensures Items(CopyWithNext(c, m, s)) == Items(c) + [m, s]
    decreases c
  {
    if c.next.Some? {
      CopyFlattens(c.next.value, m, s);
    }
  }

  /** A new chunk starts exactly when the last chunk holds 64 items or more,
      and the new chain ends with the pair. */
  lemma {:induction false} CopyLength(c: Chunk, m: int, s: int)
    ensures Length(CopyWithNext(c, m, s)) == Length(c) + (if |LastData(c)| >= CHUNK_ITEMS then 1 else 0)
    ensures LastData(CopyWithNext(c, m, s))
         == (if |LastData(c)| >= CHUNK_ITEMS then [m, s] else LastData(c) + [m, s])
    decreases c
  {
    if c.next.Some? {
      CopyLength(c.next.value, m, s);
    }
  }

  /** Copying keeps the chain shape, and the copy never has an empty chunk. */
  lemma {:induction false} CopyKeepsWf(c: Chunk, m: int, s: int)
    requires Wf(c)
    ensures Wf(CopyWithNext(c, m, s)) && NoEmptyChunk(CopyWithNext(c, m, s))
    decreases c
  {
    if c.next.Some? {
      CopyKeepsWf(c.next.value, m, s);
    }
  }

  /** A chain of the right shape whose items are not all gone has no empty
      chunk. */
  lemma {:induction false} NonEmptyChain(c: Chunk)
    requires Wf(c) && |Items(c)| > 0
    ensures NoEmptyChunk(c)
    decreases c
  {
    if c.next.Some? {
      NonEmptyChain(c.next.value);
    }
  }
}
