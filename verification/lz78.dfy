/** The LZ78 coding of the global frame tree. `Heatmap.globalStacks` turns
    the tree into a stream of (method, child count) tokens and writes it as
    LZ78 phrases: it walks a trie of `MethodTree` nodes keyed by the token
    and, at the first token the trie has no edge for, writes the node index,
    the token, adds the edge and restarts at the root. The viewer's
    `Lz78Data` rebuilds every phrase as an `LzChunk` chain and hands out its
    items, method and child count alternately, one per `nextVarInt` call.
    Both sides are modelled on the stream of values the underlying buffer
    holds (`Tok`). */
module Lz78 {
  import opened Common
  import opened DataBuffer
  import LzChunks

  /** A frame of the walk: its method index and its number of children. */
  datatype Token = Token(methodId: nat, size: nat)

  /** Both halves fit the Java `int` they come from. */
  predicate TokenOk(t: Token)
  {
    t.methodId < TWO_31 && t.size < TWO_31
  }

  predicate AllOk(ts: seq<Token>)
  {
    forall i :: 0 <= i < |ts| ==> TokenOk(ts[i])
  }

  /** The trie key `((long) method << 32) | size`; with a nonnegative size
      below 2^32 the or is an addition. */
  function Key(t: Token): int
  {
    t.methodId * TWO_32 + t.size
  }

  /** Distinct tokens never share a trie key. */
  lemma {:induction false} KeyInjective(a: Token, b: Token)
    requires TokenOk(a) && TokenOk(b) && Key(a) == Key(b)
    ensures a == b
  {
    DivModUnique(Key(a), TWO_32, a.methodId, a.size);
    DivModUnique(Key(b), TWO_32, b.methodId, b.size);
  }

  /** The items of a token stream as the decoder hands them out. */
  function Pairs(ts: seq<Token>): (r: seq<int>)
    ensures |r| == 2 * |ts|
  {
    if |ts| == 0 then [] else [ts[0].methodId, ts[0].size] + Pairs(ts[1..])
  }

  lemma {:induction false} PairsAppend(a: seq<Token>, b: seq<Token>)
    ensures Pairs(a + b) == Pairs(a) + Pairs(b)
    decreases |a|
  {
    if |a| == 0 {
      assert a + b == b;
    } else {
      assert (a + b)[0] == a[0] && (a + b)[1..] == a[1..] + b;
      PairsAppend(a[1..], b);
    }
  }

  /** The `MethodTree` trie: an edge from node `p` labelled with a token key
      leads to a node; `last` is the counter `index`, the highest node index
      handed out, the root being node 0. */
  datatype Trie = Trie(edges: map<(nat, int), nat>, last: nat)

  /** The writer's loop from the trie node `cur` on: follow the edge of the
      next token if there is one; otherwise write `cur`, the token's method
      and size, add the edge to node `++index` and go back to the root. At
      the end the node reached is written. The output is whole phrases,
      three values each, and the final node. */
  function LzLoop(ts: seq<Token>, t: Trie, cur: nat): (out: seq<nat>)
    ensures |out| % 3 == 1
    decreases |ts|
  {
    if |ts| == 0 then [cur]
    else
      var k := (cur, Key(ts[0]));
      if k in t.edges then LzLoop(ts[1..], t, t.edges[k])
      else [cur, ts[0].methodId, ts[0].size] + LzLoop(ts[1..], Trie(t.edges[k := t.last + 1], t.last + 1), 0)
  }

  /** The coding of a whole stream from a fresh trie. */
  function LzEncode(ts: seq<Token>): seq<nat>
  {
    LzLoop(ts, Trie(map[], 0), 0)
  }

  function Last(s: seq<Token>): Token
    requires |s| > 0
  {
    s[|s| - 1]
  }

  /** The edge k leads from its node's phrase to that phrase extended by a
      token with k's key. */
  predicate EdgeOk(t: Trie, phr: seq<seq<Token>>, k: (nat, int))
    requires k in t.edges
  {
    var j := t.edges[k];
    k.0 < |phr| && 0 < j < |phr| && |phr[j]| > 0
    && phr[j] == phr[k.0] + [Last(phr[j])] && Key(Last(phr[j])) == k.1
  }

  /** phr[i] is the token string trie node i stands for: the root the empty
      string, every other node a nonempty one, each edge one token longer. */
  predicate Phrases(t: Trie, phr: seq<seq<Token>>)
  {
    |phr| == t.last + 1 && phr[0] == []
    && (forall i :: 0 <= i < |phr| ==> AllOk(phr[i]))
    && (forall i :: 0 < i < |phr| ==> |phr[i]| > 0)
    && forall k :: k in t.edges ==> EdgeOk(t, phr, k)
  }

  lemma {:induction false} PhrasesStart()
    ensures Phrases(Trie(map[], 0), [[]])
  {
  }

  /** Following an edge extends the phrase by exactly the token followed. */
  lemma {:induction false} HitStep(t: Trie, phr: seq<seq<Token>>, cur: nat, tk: Token)
    requires Phrases(t, phr) && cur < |phr| && TokenOk(tk) && (cur, Key(tk)) in t.edges
    ensures t.edges[(cur, Key(tk))] < |phr|
    ensures phr[t.edges[(cur, Key(tk))]] == phr[cur] + [tk]
  {
    var k := (cur, Key(tk));
    assert EdgeOk(t, phr, k);
    var j := t.edges[k];
    assert TokenOk(Last(phr[j])) by {
      assert AllOk(phr[j]);
    }
    KeyInjective(Last(phr[j]), tk);
  }

  /** A new edge adds the node for the current phrase extended by the token. */
  lemma {:induction false} MissStep(t: Trie, phr: seq<seq<Token>>, cur: nat, tk: Token)
    requires Phrases(t, phr) && cur < |phr| && TokenOk(tk) && (cur, Key(tk)) !in t.edges
    ensures Phrases(Trie(t.edges[(cur, Key(tk)) := t.last + 1], t.last + 1), phr + [phr[cur] + [tk]])
  {
    var k := (cur, Key(tk));
    var t' := Trie(t.edges[k := t.last + 1], t.last + 1);
    var phr' := phr + [phr[cur] + [tk]];
    assert AllOk(phr[cur]);
    assert Last(phr'[t.last + 1]) == tk;
    forall k' | k' in t'.edges
      ensures EdgeOk(t', phr', k')
    {
      if k' != k {
        assert EdgeOk(t, phr, k');
      }
    }
  }

  /** Every value written is a trie node, a method or a size, all below
      2^31 while the trie stays below 2^31 nodes. */
  lemma {:induction false} LzLoopBounded(ts: seq<Token>, t: Trie, phr: seq<seq<Token>>, cur: nat)
    requires Phrases(t, phr) && cur < |phr| && AllOk(ts) && t.last + |ts| < TWO_31
    ensures forall i :: 0 <= i < |LzLoop(ts, t, cur)| ==> LzLoop(ts, t, cur)[i] < TWO_31
    decreases |ts|
  {
    if |ts| > 0 {
      var tk := ts[0];
      var k := (cur, Key(tk));
      assert TokenOk(tk);
      if k in t.edges {
        HitStep(t, phr, cur, tk);
        LzLoopBounded(ts[1..], t, phr, t.edges[k]);
      } else {
        MissStep(t, phr, cur, tk);
        LzLoopBounded(ts[1..], Trie(t.edges[k := t.last + 1], t.last + 1), phr + [phr[cur] + [tk]], 0);
      }
    }
  }

  // ---------------------------------------------------------------- reader

  /** The current chunk and the position in it. */
  datatype Cursor = Cursor(chunk: LzChunks.Chunk, pos: nat)

  /** An `Lz78Data`: the position of the next value in the underlying
      buffer, the dictionary `lz78` of phrase chains, and `currentChunk`
      with `pos`, absent between phrases. */
  datatype Reader = Reader(at: int, table: seq<LzChunks.Chunk>, cur: Option<Cursor>)

  /** `new Lz78Data(data)` on a buffer at value position `at`: the
      dictionary holds the chain of one empty chunk. */
  function Start(at: int): (r: Reader)
    ensures r.cur == None && |r.table| == 1 && LzChunks.Items(r.table[0]) == []
  {
    Reader(at, [LzChunks.Chunk([], None)], None)
  }

  /** The part of `nextVarInt` that opens a phrase when none is current: read
      the phrase index; if the buffer has more, read method and size, extend
      the indexed phrase by them and add it to the dictionary; otherwise take
      the indexed phrase as it is. An index outside the dictionary reads
      `undefined`, on which the property access raises a TypeError. */
  function Open(toks: seq<int>, r: Reader): (o: Result<Reader>)
    ensures o.Success? ==> o.value.cur.Some?
    ensures r.cur.Some? ==> o == Success(r)
    ensures r.cur.None? ==> (o.Failure? <==> !(0 <= Tok(toks, r.at) < |r.table|))
  {
    if r.cur.Some? then Success(r)
    else
      var index := Tok(toks, r.at);
      if !(0 <= index < |r.table|) then Failure(TypeError)
      else if r.at + 1 < |toks| then
        var c := LzChunks.CopyWithNext(r.table[index], Tok(toks, r.at + 1), Tok(toks, r.at + 2));
        Success(Reader(r.at + 3, r.table + [c], Some(Cursor(c, 0))))
      else Success(Reader(r.at + 1, r.table, Some(Cursor(r.table[index], 0))))
  }

  /** The rest of `nextVarInt`: return the item at `pos` and advance, moving
      to the next chunk, or to none after the last, at the end of this one.
      A read past the data of an empty chunk yields `undefined`. */
  function Step(r: Reader): (x: Result<(int, Reader)>)
    requires r.cur.Some?
    ensures x.Success? <==> r.cur.value.pos < |r.cur.value.chunk.data|
    ensures x.Success? ==> x.value.0 == r.cur.value.chunk.data[r.cur.value.pos]
    ensures x.Success? ==> x.value.1.at == r.at && x.value.1.table == r.table
  {
    var c := r.cur.value;
    if c.pos >= |c.chunk.data| then Failure(Undefined)
    else
      var next :=
        if c.pos + 1 < |c.chunk.data| then Some(Cursor(c.chunk, c.pos + 1))
        else if c.chunk.next.Some? then Some(Cursor(c.chunk.next.value, 0))
        else None;
      Success((c.chunk.data[c.pos], r.(cur := next)))
  }

  /** `Lz78Data.nextVarInt()`. */
  function Next(toks: seq<int>, r: Reader): Result<(int, Reader)>
  {
    var o := Open(toks, r);
    if o.Failure? then Failure(o.error) else Step(o.value)
  }

  /** n successive reads. */
  function Read(toks: seq<int>, r: Reader, n: nat): (x: Result<(seq<int>, Reader)>)
    ensures x.Success? ==> |x.value.0| == n
    decreases n
  {
    if n == 0 then Success(([], r))
    else
      var a := Next(toks, r);
      if a.Failure? then Failure(a.error)
      else
        var b := Read(toks, a.value.1, n - 1);
        if b.Failure? then Failure(b.error)
        else Success(([a.value.0] + b.value.0, b.value.1))
  }

  /** Reading a + b items is reading a, then b from where that left off. */
  lemma {:induction false} ReadSplit(toks: seq<int>, r: Reader, a: nat, b: nat,
                                     u: seq<int>, r1: Reader, v: seq<int>, r2: Reader)
    requires Read(toks, r, a) == Success((u, r1)) && Read(toks, r1, b) == Success((v, r2))
    ensures Read(toks, r, a + b) == Success((u + v, r2))
    decreases a
  {
    if a == 0 {
      assert u == [] && r1 == r;
      assert u + v == v;
    } else {
      var x := Next(toks, r).value;
      var ra := Read(toks, x.1, a - 1).value;
      assert u == [x.0] + ra.0 && r1 == ra.1;
      ReadSplit(toks, x.1, a - 1, b, ra.0, r1, v, r2);
      assert [x.0] + (ra.0 + v) == u + v;
    }
  }

  /** Reading as many items as `items` holds succeeds and returns them. */
  predicate ReadsAs(toks: seq<int>, r: Reader, items: seq<int>)
  {
    Read(toks, r, |items|).Success? && Read(toks, r, |items|).value.0 == items
  }

  /** Reading u exactly, then v, is reading u + v. */
  lemma {:induction false} ReadsThen(toks: seq<int>, r: Reader, u: seq<int>, r1: Reader, v: seq<int>)
    requires Read(toks, r, |u|) == Success((u, r1)) && ReadsAs(toks, r1, v)
    ensures ReadsAs(toks, r, u + v)
  {
    var y := Read(toks, r1, |v|).value;
    ReadSplit(toks, r, |u|, |v|, u, r1, y.0, y.1);
  }

  /** A reader between phrases reads what it reads once the phrase is open. */
  lemma {:induction false} OpenRead(toks: seq<int>, r: Reader, o: Reader, n: nat)
    requires Open(toks, r) == Success(o) && n > 0
    ensures Read(toks, r, n) == Read(toks, o, n)
  {
    assert Next(toks, r) == Next(toks, o);
  }

  /** The items after the chunk of a chain. */
  function Later(c: LzChunks.Chunk): seq<int>
  {
    if c.next.None? then [] else LzChunks.Items(c.next.value)
  }

  /** With a phrase open, reading n + 1 items is one step and n reads more. */
  lemma {:induction false} StepRead(toks: seq<int>, r: Reader, n: nat, x: int, r1: Reader, v: seq<int>, r2: Reader)
    requires r.cur.Some? && Step(r) == Success((x, r1)) && Read(toks, r1, n) == Success((v, r2))
    ensures Read(toks, r, n + 1) == Success(([x] + v, r2))
  {
    assert Next(toks, r) == Success((x, r1));
  }

  /** From a position in a chain with no empty chunk, reading the rest of the
      chunk and all following chunks returns exactly them and leaves the
      reader between phrases. */
  lemma {:induction false} CursorRead(toks: seq<int>, r: Reader, ch: LzChunks.Chunk, p: nat)
    requires r.cur == Some(Cursor(ch, p)) && LzChunks.NoEmptyChunk(ch) && p < |ch.data|
    ensures Read(toks, r, |ch.data| - p + |Later(ch)|) == Success((ch.data[p..] + Later(ch), r.(cur := None)))
    decreases ch, |ch.data| - p
  {
    var n := |ch.data| - p + |Later(ch)| - 1;
    var x := Step(r).value;
    var done := r.(cur := None);
    assert x.1.(cur := None) == done;
    if p + 1 < |ch.data| {
      CursorRead(toks, x.1, ch, p + 1);
      StepRead(toks, r, n, x.0, x.1, ch.data[p + 1..] + Later(ch), done);
      assert ch.data[p..] == [x.0] + ch.data[p + 1..];
      assert ch.data[p..] + Later(ch) == [x.0] + (ch.data[p + 1..] + Later(ch));
    } else if ch.next.None? {
      assert n == 0 && x.1 == done;
      StepRead(toks, r, 0, x.0, x.1, [], done);
      assert ch.data[p..] + Later(ch) == [x.0] + [];
    } else {
      var c2 := ch.next.value;
      assert LzChunks.Items(c2) == c2.data + Later(c2);
      CursorRead(toks, x.1, c2, 0);
      assert c2.data[0..] == c2.data;
      StepRead(toks, r, n, x.0, x.1, LzChunks.Items(c2), done);
      assert ch.data[p..] == [x.0] && Later(ch) == LzChunks.Items(c2);
    }
  }

  /** A freshly opened chain reads back as its items. */
  lemma {:induction false} ChainRead(toks: seq<int>, r: Reader, ch: LzChunks.Chunk)
    requires r.cur == Some(Cursor(ch, 0)) && LzChunks.NoEmptyChunk(ch)
    ensures Read(toks, r, |LzChunks.Items(ch)|) == Success((LzChunks.Items(ch), r.(cur := None)))
  {
    assert LzChunks.Items(ch) == ch.data + Later(ch);
    CursorRead(toks, r, ch, 0);
    assert ch.data[0..] == ch.data;
  }

  predicate TableMatches(table: seq<LzChunks.Chunk>, phr: seq<seq<Token>>)
  {
    |table| == |phr|
    && (forall i :: 0 <= i < |table| ==> LzChunks.Wf(table[i]))
    && forall i :: 0 <= i < |table| ==> LzChunks.Items(table[i]) == Pairs(phr[i])
  }

  /** The reader's view of the writer's state: the trie's phrases and the
      dictionary agree, and the rest of the buffer from `at` is exactly the
      rest of the coding. */
  predicate InStep(toks: seq<int>, at: int, ts: seq<Token>, t: Trie, phr: seq<seq<Token>>,
                   table: seq<LzChunks.Chunk>, cur: nat)
  {
    Phrases(t, phr) && cur < |phr| && AllOk(ts) && TableMatches(table, phr)
    && at + |LzLoop(ts, t, cur)| == |toks| && HoldsAt(toks, at, LzLoop(ts, t, cur))
  }

  lemma {:induction false} HoldsAtFirst(toks: seq<int>, at: int, e: seq<int>)
    requires HoldsAt(toks, at, e) && |e| > 0
    ensures Tok(toks, at) == e[0]
  {
    assert toks[at + 0] == e[0];
  }

  /** A new phrase reads back as the phrase of its node followed by the new
      token, and leaves the dictionary one entry longer. */
  lemma {:induction false} MissReads(toks: seq<int>, at: int, table: seq<LzChunks.Chunk>, phr: seq<seq<Token>>, cur: nat,
                  tk: Token, rest: seq<int>)
    requires TableMatches(table, phr) && |table| >= 1 && cur < |phr|
    requires at + 3 + |rest| == |toks| && HoldsAt(toks, at, [cur as int, tk.methodId, tk.size] + rest) && |rest| > 0
    ensures var c := LzChunks.CopyWithNext(table[cur], tk.methodId, tk.size);
            Read(toks, Reader(at, table, None), |Pairs(phr[cur] + [tk])|)
              == Success((Pairs(phr[cur] + [tk]), Reader(at + 3, table + [c], None)))
            && LzChunks.Items(c) == Pairs(phr[cur] + [tk]) && LzChunks.Wf(c)
  {
    var e := [cur as int, tk.methodId, tk.size] + rest;
    assert toks[at + 0] == e[0] && toks[at + 1] == e[1] && toks[at + 2] == e[2];
    var r := Reader(at, table, None);
    var c := LzChunks.CopyWithNext(table[cur], tk.methodId, tk.size);
    var o := Reader(at + 3, table + [c], Some(Cursor(c, 0)));
    assert Open(toks, r) == Success(o);
    LzChunks.CopyKeepsWf(table[cur], tk.methodId, tk.size);
    LzChunks.CopyFlattens(table[cur], tk.methodId, tk.size);
    PairsAppend(phr[cur], [tk]);
    assert Pairs([tk]) == [tk.methodId, tk.size];
    ChainRead(toks, o, c);
    OpenRead(toks, r, o, |LzChunks.Items(c)|);
  }

  /** The final node reads back as its phrase: nothing for the root, the
      whole dictionary entry otherwise, the buffer being exhausted. */
  lemma {:induction false} FinalReads(toks: seq<int>, at: int, table: seq<LzChunks.Chunk>, phr: seq<seq<Token>>, cur: nat)
    requires TableMatches(table, phr) && |table| >= 1 && cur < |phr| && phr[0] == []
    requires cur > 0 ==> |phr[cur]| > 0
    requires at + 1 == |toks| && HoldsAt(toks, at, [cur as int])
    ensures ReadsAs(toks, Reader(at, table, None), Pairs(phr[cur]))
  {
    if cur == 0 {
      assert |Pairs(phr[cur])| == 0;
    } else {
      HoldsAtFirst(toks, at, [cur as int]);
      var r := Reader(at, table, None);
      var o := Reader(at + 1, table, Some(Cursor(table[cur], 0)));
      assert Open(toks, r) == Success(o);
      LzChunks.NonEmptyChain(table[cur]);
      ChainRead(toks, o, table[cur]);
      OpenRead(toks, r, o, |LzChunks.Items(table[cur])|);
    }
  }

  /** The reader hands out the items of the pending phrase followed by the
      items of the tokens still to come. */
  lemma {:induction false} LzLoopReads(toks: seq<int>, at: int, ts: seq<Token>, t: Trie,
                                       phr: seq<seq<Token>>, table: seq<LzChunks.Chunk>, cur: nat)
    requires InStep(toks, at, ts, t, phr, table, cur)
    ensures ReadsAs(toks, Reader(at, table, None), Pairs(phr[cur] + ts))
    decreases |ts|, 1
  {
    if |ts| == 0 {
      assert phr[cur] + ts == phr[cur];
      FinalReads(toks, at, table, phr, cur);
    } else {
      var tk := ts[0];
      var k := (cur, Key(tk));
      assert TokenOk(tk);
      if k in t.edges {
        HitStep(t, phr, cur, tk);
        assert phr[cur] + ts == (phr[cur] + [tk]) + ts[1..];
        LzLoopReads(toks, at, ts[1..], t, phr, table, t.edges[k]);
      } else {
        MissReadsOn(toks, at, ts, t, phr, table, cur);
      }
    }
  }

  /** The case of a token the trie has no edge for: the new phrase, then the
      rest from the root. */
  lemma {:induction false} MissReadsOn(toks: seq<int>, at: int, ts: seq<Token>, t: Trie,
                                       phr: seq<seq<Token>>, table: seq<LzChunks.Chunk>, cur: nat)
    requires InStep(toks, at, ts, t, phr, table, cur) && |ts| > 0 && (cur, Key(ts[0])) !in t.edges
    ensures ReadsAs(toks, Reader(at, table, None), Pairs(phr[cur] + ts))
    decreases |ts|, 0
  {
    var tk := ts[0];
    var c := LzChunks.CopyWithNext(table[cur], tk.methodId, tk.size);
    MissPrepare(toks, at, ts, t, phr, table, cur);
    LzLoopReads(toks, at + 3, ts[1..], Trie(t.edges[(cur, Key(tk)) := t.last + 1], t.last + 1),
                phr + [phr[cur] + [tk]], table + [c], 0);
    ReadsThen(toks, Reader(at, table, None), Pairs(phr[cur] + [tk]), Reader(at + 3, table + [c], None), Pairs(ts[1..]));
    PairsFront(phr[cur], ts);
  }

  /** Splitting off the first token still to come. */
  lemma {:induction false} PairsFront(a: seq<Token>, ts: seq<Token>)
    requires |ts| > 0
    ensures Pairs(a + ts) == Pairs(a + [ts[0]]) + Pairs(ts[1..])
  {
    assert a + ts == (a + [ts[0]]) + ts[1..];
    PairsAppend(a + [ts[0]], ts[1..]);
  }

  /** A new phrase reads back whole, after which the reader is again in step
      with the writer, now at the trie root with the rest of the tokens. */
  lemma {:induction false} MissPrepare(toks: seq<int>, at: int, ts: seq<Token>, t: Trie,
                                       phr: seq<seq<Token>>, table: seq<LzChunks.Chunk>, cur: nat)
    requires InStep(toks, at, ts, t, phr, table, cur) && |ts| > 0 && (cur, Key(ts[0])) !in t.edges
    ensures var tk := ts[0];
            var c := LzChunks.CopyWithNext(table[cur], tk.methodId, tk.size);
            Read(toks, Reader(at, table, None), |Pairs(phr[cur] + [tk])|)
              == Success((Pairs(phr[cur] + [tk]), Reader(at + 3, table + [c], None)))
            && InStep(toks, at + 3, ts[1..], Trie(t.edges[(cur, Key(tk)) := t.last + 1], t.last + 1),
                      phr + [phr[cur] + [tk]], table + [c], 0)
            && (phr + [phr[cur] + [tk]])[0] + ts[1..] == ts[1..]
  {
    var tk := ts[0];
    var t' := Trie(t.edges[(cur, Key(tk)) := t.last + 1], t.last + 1);
    var rest := LzLoop(ts[1..], t', 0);
    assert LzLoop(ts, t, cur) == [cur as int, tk.methodId, tk.size] + rest;
    MissReads(toks, at, table, phr, cur, tk, rest);
    var c := LzChunks.CopyWithNext(table[cur], tk.methodId, tk.size);
    MissInStep(toks, at, ts, t, phr, table, cur, c);
    assert (phr + [phr[cur] + [tk]])[0] == [];
  }

  /** After a new phrase the reader is again in step with the writer. */
  lemma {:induction false} MissInStep(toks: seq<int>, at: int, ts: seq<Token>, t: Trie, phr: seq<seq<Token>>,
                   table: seq<LzChunks.Chunk>, cur: nat, c: LzChunks.Chunk)
    requires InStep(toks, at, ts, t, phr, table, cur) && |ts| > 0 && (cur, Key(ts[0])) !in t.edges
    requires LzChunks.Wf(c) && LzChunks.Items(c) == Pairs(phr[cur] + [ts[0]])
    ensures InStep(toks, at + 3, ts[1..], Trie(t.edges[(cur, Key(ts[0])) := t.last + 1], t.last + 1),
                   phr + [phr[cur] + [ts[0]]], table + [c], 0)
  {
    var tk := ts[0];
    var t' := Trie(t.edges[(cur, Key(tk)) := t.last + 1], t.last + 1);
    var phr' := phr + [phr[cur] + [tk]];
    var rest := LzLoop(ts[1..], t', 0);
    assert TokenOk(tk);
    MissStep(t, phr, cur, tk);
    assert LzLoop(ts, t, cur) == [cur as int, tk.methodId, tk.size] + rest;
    HoldsAtSplit(toks, at, [cur as int, tk.methodId, tk.size], rest);
    assert AllOk(ts[1..]) by {
      assert forall i :: 0 <= i < |ts[1..]| ==> ts[1..][i] == ts[i + 1];
    }
    var table' := table + [c];
    assert forall i :: 0 <= i < |table| ==> table'[i] == table[i];
  }

  /** The coding of a token stream, read from the start of its phrases,
      hands out the items of the stream. */
  lemma {:induction false} LzRoundTrip(pre: seq<int>, ts: seq<Token>)
    requires AllOk(ts)
    ensures ReadsAs(pre + LzEncode(ts), Start(|pre|), Pairs(ts))
  {
    var toks := pre + LzEncode(ts);
    var table := Start(|pre|).table;
    PhrasesStart();
    assert TableMatches(table, [[]]);
    HoldsAtMiddle(pre, LzEncode(ts), []);
    assert toks == pre + LzEncode(ts) + [];
    assert [] + ts == ts;
    LzLoopReads(toks, |pre|, ts, Trie(map[], 0), [[]], table, 0);
  }
}
