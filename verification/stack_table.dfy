/** The stack table `Heatmap.stacks()` writes and `integralTraces` reads:
    a 30-bit word giving where the index of stack offsets starts, that index
    (one 30-bit word per stack), then every stack's record of child
    positions (`Rle.StackRecord`) in varints. */
module StackTable {
  import opened Common
  import opened Symbols
  import opened DataBuffer
  import Rle

  /** The records of all stacks, in order. */
  function Records(stacks: seq<seq<nat>>): (r: seq<nat>)
  {
    if |stacks| == 0 then []
    else Records(stacks[..|stacks| - 1]) + Rle.StackRecord(stacks[|stacks| - 1])
  }

  /** `stacks.offset()` before stack j is written: the symbols of the
      records before it. */
  function StackOffset(stacks: seq<seq<nat>>, j: nat): nat
    requires j <= |stacks|
  {
    |EncodeVars(Records(stacks[..j]))|
  }

  /** The index: the one global frame's index offset, 5, then for each stack
      its absolute offset, past the 5 + 5n symbols of the index. */
  function Words(stacks: seq<seq<nat>>): (r: seq<nat>)
    ensures |r| == |stacks| + 1
  {
    [5] + seq(|stacks|, j requires 0 <= j < |stacks| => 5 + 5 * |stacks| + StackOffset(stacks, j))
  }

  /** 30-bit words, five symbols each. */
  function FixedWords(ws: seq<nat>): (r: seq<int>)
    ensures |r| == 5 * |ws|
  {
    if |ws| == 0 then [] else FixedWords(ws[..|ws| - 1]) + EncodeFixed(ws[|ws| - 1], 5)
  }

  /** `SampleCollection.toString(offsets, stacks)`. */
  function TableText(stacks: seq<seq<nat>>): seq<int>
  {
    FixedWords(Words(stacks)) + EncodeVars(Records(stacks))
  }

  /** `integralTraces` for the stack of index i: `intAt(0)` gives the index
      offset, `intAt` of the index entry the stack's offset; the stack
      length and child positions are read there through `RleData`. */
  function StackAt(text: seq<int>, i: int): seq<int>
  {
    var indexesOffset := Int30(text, 0);
    var stackOffset := Int30(text, indexesOffset + i * 5);
    Rle.ReadStack(DecodeFrom(text, stackOffset), 0).0
  }

  // ---- Proof that every stack reads back ----

  /** Word k sits at symbol 5k. */
  lemma {:induction false} FixedWordAt(ws: seq<nat>, k: nat)
    requires k < |ws|
    ensures HoldsAt(FixedWords(ws), 5 * k, EncodeFixed(ws[k], 5))
    decreases |ws|
  {
    var front := ws[..|ws| - 1];
    if k < |ws| - 1 {
      FixedWordAt(front, k);
      assert front[k] == ws[k];
    }
  }

  /** The records of a split list are the records of its parts. */
  lemma {:induction false} RecordsSplit(stacks: seq<seq<nat>>, j: nat)
    requires j <= |stacks|
    ensures Records(stacks) == Records(stacks[..j]) + Records(stacks[j..])
    decreases |stacks|
  {
    if j < |stacks| {
      var front := stacks[..|stacks| - 1];
      RecordsSplit(front, j);
      assert front[..j] == stacks[..j];
      assert front[j..] == stacks[j..|stacks| - 1];
      assert stacks[j..][..|stacks[j..]| - 1] == stacks[j..|stacks| - 1];
    } else {
      assert stacks[..j] == stacks;
    }
  }

  /** The records from stack j on begin with stack j's. */
  lemma {:induction false} RecordsFrom(stacks: seq<seq<nat>>, j: nat)
    requires j < |stacks|
    ensures Records(stacks[j..]) == Rle.StackRecord(stacks[j]) + Records(stacks[j + 1..])
  {
    RecordsSplit(stacks[j..], 1);
    assert stacks[j..][..1] == [stacks[j]];
    assert Records([stacks[j]]) == Rle.StackRecord(stacks[j]) by {
      var one := [stacks[j]];
      assert one[..0] == [];
    }
    assert stacks[j..][1..] == stacks[j + 1..];
  }

  /** Stacks whose records the viewer's 32-bit reader gets back. */
  predicate AllReadable(stacks: seq<seq<nat>>)
  {
    forall j :: 0 <= j < |stacks| ==> |stacks[j]| < TWO_31 && Rle.Readable(stacks[j])
  }

  lemma {:induction false} RecordsReadable(stacks: seq<seq<nat>>)
    requires AllReadable(stacks)
    ensures Rle.Readable(Records(stacks))
    decreases |stacks|
  {
    if |stacks| > 0 {
      var front := stacks[..|stacks| - 1];
      assert AllReadable(front) by {
        assert forall j :: 0 <= j < |front| ==> front[j] == stacks[j];
      }
      RecordsReadable(front);
      Rle.RecordDecodes(stacks[|stacks| - 1]);
    }
  }

  /** The index words sit at the front of the table. */
  lemma {:induction false} WordHeld(stacks: seq<seq<nat>>, k: nat)
    requires k <= |stacks|
    ensures HoldsAt(TableText(stacks), 5 * k, EncodeFixed(Words(stacks)[k], 5))
  {
    var ws := Words(stacks);
    FixedWordAt(ws, k);
    var text := TableText(stacks);
    assert forall i :: 0 <= i < |FixedWords(ws)| ==> text[i] == FixedWords(ws)[i];
  }

  /** Each stack offset is at most the table's length. */
  lemma {:induction false} WordBound(stacks: seq<seq<nat>>, k: nat)
    requires k <= |stacks|
    ensures Words(stacks)[k] <= |TableText(stacks)|
  {
    if k > 0 {
      RecordsSplit(stacks, k - 1);
      EncodeVarsAppend(Records(stacks[..k - 1]), Records(stacks[k - 1..]));
    }
  }

  /** The index words read back. */
  lemma {:induction false} WordRead(stacks: seq<seq<nat>>, k: nat)
    requires k <= |stacks| && |TableText(stacks)| < Pow2(30)
    ensures Int30(TableText(stacks), 5 * k) == Words(stacks)[k]
  {
    WordHeld(stacks, k);
    WordBound(stacks, k);
    Int30At(TableText(stacks), 5 * k, Words(stacks)[k]);
  }

  /** Decoding from a stack's offset yields its record, then the later
      ones. */
  lemma {:induction false} RecordsAt(stacks: seq<seq<nat>>, j: nat, off: int)
    requires j < |stacks| && AllReadable(stacks) && off == 5 + 5 * |stacks| + StackOffset(stacks, j)
    ensures DecodeFrom(TableText(stacks), off) == Rle.StackRecord(stacks[j]) + Records(stacks[j + 1..])
  {
    var before, after := Records(stacks[..j]), Records(stacks[j..]);
    TableSplit(stacks, j);
    AfterReadable(stacks, j);
    RecordsFrom(stacks, j);
    DecodeAt(TableText(stacks), FixedWords(Words(stacks)) + EncodeVars(before), after, off);
  }

  /** The table cut at stack j's offset. */
  lemma {:induction false} TableSplit(stacks: seq<seq<nat>>, j: nat)
    requires j <= |stacks|
    ensures var pre := FixedWords(Words(stacks)) + EncodeVars(Records(stacks[..j]));
            TableText(stacks) == pre + EncodeVars(Records(stacks[j..]))
            && |pre| == 5 + 5 * |stacks| + StackOffset(stacks, j)
  {
    RecordsSplit(stacks, j);
    EncodeVarsAppend(Records(stacks[..j]), Records(stacks[j..]));
  }

  lemma {:induction false} AfterReadable(stacks: seq<seq<nat>>, j: nat)
    requires j <= |stacks| && AllReadable(stacks)
    ensures Rle.Readable(Records(stacks[j..]))
  {
    RecordsReadable(stacks);
    RecordsSplit(stacks, j);
    ReadableTail(Records(stacks[..j]), Records(stacks[j..]));
  }

  lemma {:induction false} ReadableTail(a: seq<nat>, b: seq<nat>)
    requires Rle.Readable(a + b)
    ensures Rle.Readable(b)
  {
    assert forall i :: 0 <= i < |b| ==> b[i] == (a + b)[|a| + i];
  }

  /** Varints decoded from where they start. */
  lemma {:induction false} DecodeAt(text: seq<int>, pre: seq<int>, vs: seq<nat>, off: int)
    requires text == pre + EncodeVars(vs) && off == |pre| && Rle.Readable(vs)
    ensures DecodeFrom(text, off) == vs
  {
    DecodeFromRoundTrip(pre, vs);
  }

  /** `integralTraces` reading the stack of index i at off. */
  lemma {:induction false} StackAtOffset(text: seq<int>, i: int, off: int, toks: seq<int>)
    requires Int30(text, 0) == 5 && Int30(text, 5 * (i + 1)) == off && DecodeFrom(text, off) == toks
    ensures StackAt(text, i) == Rle.ReadStack(toks, 0).0
  {
    assert 5 + i * 5 == 5 * (i + 1);
  }

  /** A record at the start of the values reads back. */
  lemma {:induction false} ReadStackAtStart(ids: seq<nat>, rest: seq<int>)
    ensures Rle.ReadStack(Rle.StackRecord(ids) + rest, 0).0 == ids
  {
    var none: seq<int> := [];
    Rle.StackRoundTrip(none, ids, rest);
    DropEmpty(Rle.StackRecord(ids), rest);
  }

  lemma {:induction false} DropEmpty(a: seq<int>, b: seq<int>)
    ensures [] + a + b == a + b
  {
  }

  lemma {:induction false} WordIs(stacks: seq<seq<nat>>, j: nat)
    requires j < |stacks|
    ensures Words(stacks)[0] == 5 && Words(stacks)[j + 1] == 5 + 5 * |stacks| + StackOffset(stacks, j)
  {
  }

  /** Every stack of the table is read back by the viewer. */
  lemma {:induction false} StackTableRoundTrip(stacks: seq<seq<nat>>, j: nat)
    requires j < |stacks| && AllReadable(stacks) && |TableText(stacks)| < Pow2(30)
    ensures StackAt(TableText(stacks), j) == stacks[j]
  {
    var text := TableText(stacks);
    var off := 5 + 5 * |stacks| + StackOffset(stacks, j);
    WordIs(stacks, j);
    WordRead(stacks, 0);
    WordRead(stacks, j + 1);
    RecordsAt(stacks, j, off);
    var rest := Records(stacks[j + 1..]);
    ReadStackAtStart(stacks[j], rest);
    StackAtOffset(text, j, off, Rle.StackRecord(stacks[j]) + rest);
  }
}
