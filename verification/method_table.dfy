/** The method table of `Heatmap`: interning of (method, location) pairs,
    the dense remapping of stack trace ids, the 17-symbol method records of
    `dumpMethods` with their string pool, and the viewer's `frameType` and
    `frameTitle`, which read those records back. */
module MethodTable {
  import opened Common
  import opened Symbols
  import opened DataBuffer
  import DenseIndex
  import SampleCollection

  // ---- Interning ----

  /** `Heatmap.Method`: a JFR method id, its frame type and its location. */
  datatype Method = Method(id: int, frameType: int, location: int)

  /** The two synthetic methods: a missing stack trace and the tree root. */
  const BROKEN_STACK: Method := Method(-1, 4, 0)
  const ROOT: Method := Method(-2, 4, 0)

  /** `Method.equals`: the frame type takes no part. */
  predicate Same(a: Method, b: Method)
  {
    a.id == b.id && a.location == b.location
  }

  /** The interned methods in insertion order; a method's `index` is its
      position. No two of them are equal. */
  predicate Interned(ms: seq<Method>)
  {
    forall i, j :: 0 <= i < j < |ms| ==> !Same(ms[i], ms[j])
  }

  /** The position of the method equal to m, if any. */
  function Find(ms: seq<Method>, m: Method): (r: Option<nat>)
    ensures r.Some? ==> r.value < |ms| && Same(ms[r.value], m)
    ensures r.None? ==> forall j :: 0 <= j < |ms| ==> !Same(ms[j], m)
    decreases |ms|
  {
    if |ms| == 0 then None
    else if Same(ms[0], m) then Some(0)
    else
      var r := Find(ms[1..], m);
      if r.None? then None else Some(r.value + 1)
  }

  /** In an interned table, the position found is the only one. */
  lemma {:induction false} FindUnique(ms: seq<Method>, m: Method, j: nat)
    requires Interned(ms) && j < |ms| && Same(ms[j], m)
    ensures Find(ms, m) == Some(j)
  {
    forall k | 0 <= k < |ms| && k != j
      ensures !Same(ms[k], m)
    {
      if k < j {
        assert !Same(ms[k], ms[j]);
      } else {
        assert !Same(ms[j], ms[k]);
      }
    }
  }

  /** `getMethod(method)`: the index of the interned equal method, or a new
      one appended with index `methods.size()`; once `finish` is set a new
      method raises IllegalStateException. */
  function GetMethod(ms: seq<Method>, m: Method, finish: bool): (r: Result<(seq<Method>, nat)>)
    ensures r.Failure? <==> finish && Find(ms, m).None?
    ensures r.Failure? ==> r.error == IllegalState
    ensures r.Success? ==> r.value.1 < |r.value.0| && Same(r.value.0[r.value.1], m)
    ensures r.Success? ==> |ms| <= |r.value.0| <= |ms| + 1 && r.value.0[..|ms|] == ms
    ensures r.Success? && Find(ms, m).Some? ==> r.value.0 == ms
  {
    var found := Find(ms, m);
    if found.Some? then Success((ms, found.value))
    else if finish then Failure(IllegalState)
    else Success((ms + [m], |ms|))
  }

  /** Interning keeps the table free of equal methods; a new method's index
      is the number of methods before it. */
  lemma {:induction false} GetMethodKeepsInterned(ms: seq<Method>, m: Method, finish: bool)
    requires Interned(ms) && GetMethod(ms, m, finish).Success?
    ensures Interned(GetMethod(ms, m, finish).value.0)
    ensures Find(ms, m).None? ==> GetMethod(ms, m, finish).value.1 == |ms|
  {
    var ms' := GetMethod(ms, m, finish).value.0;
    if Find(ms, m).None? {
      forall i, j | 0 <= i < j < |ms'|
        ensures !Same(ms'[i], ms'[j])
      {
        if j == |ms| {
          assert ms'[i] == ms[i];
        }
      }
    }
  }

  /** Interning the same method again returns the same index and changes
      nothing, whatever its frame type. */
  lemma {:induction false} GetMethodIdempotent(ms: seq<Method>, m: Method, finish: bool, t: int, finish': bool)
    requires Interned(ms) && GetMethod(ms, m, finish).Success?
    ensures var r := GetMethod(ms, m, finish).value;
            GetMethod(r.0, m.(frameType := t), finish') == Success(r)
  {
    var r := GetMethod(ms, m, finish).value;
    GetMethodKeepsInterned(ms, m, finish);
    FindUnique(r.0, m.(frameType := t), r.1);
  }

  /** `getTraceRemap`: the dense 0-based id of a stack trace id, assigned in
      first-seen order by a linked hash map. */
  function TraceRemap(order: seq<int>, id: int): (r: (seq<int>, nat))
    ensures r.1 < |r.0| && r.0[r.1] == id
    ensures |order| <= |r.0| <= |order| + 1 && r.0[..|order|] == order
    ensures id in order ==> r.0 == order
  {
    if id in order then (order, DenseIndex.Pos(order, id)) else (order + [id], |order|)
  }

  /** The ids are dense and stable: a new stack trace gets the next id, a
      known one its old id, and the ids of all others stay. */
  lemma {:induction false} TraceRemapStable(order: seq<int>, id: int, other: int)
    requires NoDuplicates(order) && other in order
    ensures NoDuplicates(TraceRemap(order, id).0)
    ensures id !in order ==> TraceRemap(order, id).1 == |order|
    ensures TraceRemap(TraceRemap(order, id).0, other).1 == TraceRemap(order, other).1
  {
    var o := TraceRemap(order, id).0;
    var j := DenseIndex.Pos(order, other);
    assert o[j] == other;
    if id !in order {
      forall a, b | 0 <= a < b < |o|
        ensures o[a] != o[b]
      {
        if b == |order| {
          assert o[a] == order[a];
        }
      }
    }
    DenseIndex.PosOf(o, j);
  }

  // ---- Frame types ----

  /** `Method.remapType`: the JFR frame type (0 interpreted, 1 JIT compiled,
      2 inlined, 3 native, 4 C++, 5 kernel) to the viewer's colour index;
      the `default` label shares the native case. */
  function RemapType(t: int): (r: int)
    ensures 0 <= r <= 4
  {
    if t == 0 || t == 1 then 0
    else if t == 2 then 1
    else if t == 4 then 3
    else if t == 5 then 2
    else 4
  }

  /** Only interpreted and JIT-compiled frames share a colour; every other
      pair of known types stays apart, any unknown type is drawn as native,
      and every colour is used. */
  lemma {:induction false} RemapTypeClasses(t: int, u: int)
    requires 0 <= t <= 5 && 0 <= u <= 5
    ensures RemapType(t) == RemapType(u) <==> t == u || (t <= 1 && u <= 1)
  {
  }

  lemma {:induction false} RemapTypeOnto(c: int, t: int)
    requires 0 <= c <= 4 && !(0 <= t <= 5)
    ensures exists s :: 0 <= s <= 5 && RemapType(s) == c
    ensures RemapType(t) == RemapType(3)
  {
    if c == 0 { assert RemapType(0) == c; }
    else if c == 1 { assert RemapType(2) == c; }
    else if c == 2 { assert RemapType(5) == c; }
    else if c == 3 { assert RemapType(4) == c; }
    else { assert RemapType(3) == c; }
  }

  // ---- `dumpMethods` ----

  /** A `MethodRef` of the JFR constant pool: its class id and the symbol
      id of its name. */
  datatype MethodRef = MethodRef(cls: int, name: int)

  /** The JFR lookups `dumpMethods` uses: method refs by method id, the
      name symbol of every class by class id, and the symbols' text. A
      missing entry is a `null` from the lookup. */
  datatype Pools = Pools(methods: map<int, MethodRef>, classes: map<int, int>, symbols: map<int, seq<int>>)

  /** The text of a symbol, or the empty string when it is missing. */
  function SymbolOr(p: Pools, k: int): seq<int>
  {
    if k in p.symbols then p.symbols[k] else []
  }

  /** The class name the viewer should show for a method ref. */
  function ClassName(p: Pools, ref: MethodRef): seq<int>
  {
    if ref.cls in p.classes then SymbolOr(p, p.classes[ref.cls]) else []
  }

  /** The pool `out` starts with "" at slot 0, and `remap` sends every
      symbol id it holds to a slot with that symbol's text. */
  predicate PoolOk(p: Pools, out: seq<seq<int>>, remap: map<int, int>)
  {
    |out| > 0 && out[0] == []
    && forall k :: k in remap ==> 0 <= remap[k] < |out| && out[remap[k]] == SymbolOr(p, k)
  }

  /** One name lookup of `dumpMethods` as written: `remap.putIfAbsent(key,
      out.size())` yields the stored slot, or, for a new key, stores the
      current pool size and appends the symbol's text at that slot; when
      the symbol is missing nothing is appended and the slot is 0, but the
      stored pool size stays in `remap`. */
  function InternAsWritten(p: Pools, out: seq<seq<int>>, remap: map<int, int>, key: int)
    : (r: (int, seq<seq<int>>, map<int, int>))
  {
    if key in remap then (remap[key], out, remap)
    else if key !in p.symbols then (0, out, remap[key := |out|])
    else (|out|, out + [p.symbols[key]], remap[key := |out|])
  }

  /** A missing symbol looked up twice, with another symbol interned in
      between, yields 0 the first time and the other symbol's slot the
      second time. */
  lemma {:induction false} StaleSlotAsWritten()
    ensures var p := Pools(map[], map[], map[2 := [120]]);
            var a := InternAsWritten(p, [[]], map[], 1);
            var b := InternAsWritten(p, a.1, a.2, 2);
            var c := InternAsWritten(p, b.1, b.2, 1);
            a.0 == 0 && c.0 == 1 && c.1[c.0] == [120] && SymbolOr(p, 1) == []
            && PoolOk(p, [[]], map[]) && !PoolOk(p, c.1, c.2)
  {
    var p := Pools(map[], map[], map[2 := [120]]);
    var a := InternAsWritten(p, [[]], map[], 1);
    var b := InternAsWritten(p, a.1, a.2, 2);
    var c := InternAsWritten(p, b.1, b.2, 1);
    assert c.2[1] == 1 && c.1[1] == [120];
  }

  /** The lookup with a missing symbol remembered as slot 0, which is what
      the first lookup of that symbol yields. */
  function Intern(p: Pools, out: seq<seq<int>>, remap: map<int, int>, key: int)
    : (r: (int, seq<seq<int>>, map<int, int>))
    ensures |out| <= |r.1| <= |out| + 1 && r.1[..|out|] == out
  {
    if key in remap then (remap[key], out, remap)
    else if key !in p.symbols then (0, out, remap[key := 0])
    else (|out|, out + [p.symbols[key]], remap[key := |out|])
  }

  /** The lookup keeps the pool consistent and yields a slot holding the
      symbol's text; the pool gains an entry only for a new symbol. */
  lemma {:induction false} InternResolves(p: Pools, out: seq<seq<int>>, remap: map<int, int>, key: int)
    requires PoolOk(p, out, remap)
    ensures var r := Intern(p, out, remap, key);
            PoolOk(p, r.1, r.2) && 0 <= r.0 < |r.1| && r.1[r.0] == SymbolOr(p, key)
            && key in r.2 && (key in remap ==> r.1 == out)
  {
    var r := Intern(p, out, remap, key);
    forall k | k in r.2
      ensures 0 <= r.2[k] < |r.1| && r.1[r.2[k]] == SymbolOr(p, k)
    {
      if k in remap {
        assert r.1[remap[k]] == out[remap[k]];
      }
    }
  }

  /** One 17-symbol method record: class slot, name slot, location and the
      remapped frame type. */
  datatype Record = Record(classIndex: int, nameIndex: int, location: int, typeCode: int)

  /** The record of one method: a missing method ref writes class 0 and
      name 3; otherwise the class name (slot 0 for a missing class) and the
      method name are looked up. */
  function MethodRecord(p: Pools, out: seq<seq<int>>, remap: map<int, int>, m: Method)
    : (r: (Record, seq<seq<int>>, map<int, int>))
    ensures |out| <= |r.1| && r.1[..|out|] == out
  {
    if m.id !in p.methods then (Record(0, 3, m.location, RemapType(m.frameType)), out, remap)
    else
      var ref := p.methods[m.id];
      var c := if ref.cls in p.classes then Intern(p, out, remap, p.classes[ref.cls]) else (0, out, remap);
      var n := Intern(p, c.1, c.2, ref.name);
      (Record(c.0, n.0, m.location, RemapType(m.frameType)), n.1, n.2)
  }

  /** What the record of m promises about the pool. */
  predicate RecordOk(p: Pools, out: seq<seq<int>>, m: Method, rec: Record)
  {
    rec.location == m.location && rec.typeCode == RemapType(m.frameType)
    && (m.id !in p.methods ==> rec.classIndex == 0 && rec.nameIndex == 3)
    && (m.id in p.methods ==>
          0 <= rec.classIndex < |out| && out[rec.classIndex] == ClassName(p, p.methods[m.id])
          && 0 <= rec.nameIndex < |out| && out[rec.nameIndex] == SymbolOr(p, p.methods[m.id].name))
  }

  lemma {:induction false} MethodRecordOk(p: Pools, out: seq<seq<int>>, remap: map<int, int>, m: Method)
    requires PoolOk(p, out, remap)
    ensures var r := MethodRecord(p, out, remap, m);
            PoolOk(p, r.1, r.2) && RecordOk(p, r.1, m, r.0)
  {
    if m.id in p.methods {
      var ref := p.methods[m.id];
      var c := if ref.cls in p.classes then Intern(p, out, remap, p.classes[ref.cls]) else (0, out, remap);
      if ref.cls in p.classes {
        InternResolves(p, out, remap, p.classes[ref.cls]);
      }
      InternResolves(p, c.1, c.2, ref.name);
      var n := Intern(p, c.1, c.2, ref.name);
      assert n.1[c.0] == c.1[c.0];
    }
  }

  /** A record stays valid while the pool only grows. */
  lemma {:induction false} RecordOkGrows(p: Pools, out: seq<seq<int>>, out': seq<seq<int>>, m: Method, rec: Record)
    requires RecordOk(p, out, m, rec) && |out| <= |out'| && out'[..|out|] == out
    ensures RecordOk(p, out', m, rec)
  {
    if m.id in p.methods {
      assert out'[rec.classIndex] == out[rec.classIndex];
      assert out'[rec.nameIndex] == out[rec.nameIndex];
    }
  }

  /** The loop of `dumpMethods` over the interned methods in index order. */
  function DumpLoop(p: Pools, ms: seq<Method>, out: seq<seq<int>>, remap: map<int, int>)
    : (r: (seq<Record>, seq<seq<int>>, map<int, int>))
    ensures |r.0| == |ms| && |out| <= |r.1| && r.1[..|out|] == out
    decreases |ms|
  {
    if |ms| == 0 then ([], out, remap)
    else
      var h := MethodRecord(p, out, remap, ms[0]);
      var t := DumpLoop(p, ms[1..], h.1, h.2);
      ([h.0] + t.0, t.1, t.2)
  }

  /** `dumpMethods`: the records, and the string pool that starts with "". */
  function DumpMethods(p: Pools, ms: seq<Method>): (r: (seq<Record>, seq<seq<int>>))
    ensures |r.0| == |ms| && |r.1| > 0 && r.1[0] == []
  {
    var d := DumpLoop(p, ms, [[]], map[]);
    (d.0, d.1)
  }

  predicate AllRecordsOk(p: Pools, out: seq<seq<int>>, ms: seq<Method>, recs: seq<Record>)
  {
    |recs| == |ms| && forall i :: 0 <= i < |ms| ==> RecordOk(p, out, ms[i], recs[i])
  }

  lemma {:induction false} DumpLoopOk(p: Pools, ms: seq<Method>, out: seq<seq<int>>, remap: map<int, int>)
    requires PoolOk(p, out, remap)
    ensures var r := DumpLoop(p, ms, out, remap);
            PoolOk(p, r.1, r.2) && AllRecordsOk(p, r.1, ms, r.0)
    decreases |ms|
  {
    if |ms| > 0 {
      var h := MethodRecord(p, out, remap, ms[0]);
      MethodRecordOk(p, out, remap, ms[0]);
      DumpLoopOk(p, ms[1..], h.1, h.2);
      var t := DumpLoop(p, ms[1..], h.1, h.2);
      RecordOkGrows(p, h.1, t.1, ms[0], h.0);
      var recs := [h.0] + t.0;
      forall i | 0 <= i < |ms|
        ensures RecordOk(p, t.1, ms[i], recs[i])
      {
        if i > 0 {
          assert ms[i] == ms[1..][i - 1] && recs[i] == t.0[i - 1];
        }
      }
    }
  }

  /** Every record of `dumpMethods` names pool slots holding its method's
      class name and method name, and a missing method ref writes 0 and 3. */
  lemma {:induction false} DumpMethodsResolve(p: Pools, ms: seq<Method>)
    ensures AllRecordsOk(p, DumpMethods(p, ms).1, ms, DumpMethods(p, ms).0)
  {
    DumpLoopOk(p, ms, [[]], map[]);
  }

  // ---- `dumpMethods` as written ----

  /** The record of one method with the lookups of the code as written. */
  function MethodRecordAsWritten(p: Pools, out: seq<seq<int>>, remap: map<int, int>, m: Method)
    : (r: (Record, seq<seq<int>>, map<int, int>))
  {
    if m.id !in p.methods then (Record(0, 3, m.location, RemapType(m.frameType)), out, remap)
    else
      var ref := p.methods[m.id];
      var c := if ref.cls in p.classes then InternAsWritten(p, out, remap, p.classes[ref.cls]) else (0, out, remap);
      var n := InternAsWritten(p, c.1, c.2, ref.name);
      (Record(c.0, n.0, m.location, RemapType(m.frameType)), n.1, n.2)
  }

  function DumpLoopAsWritten(p: Pools, ms: seq<Method>, out: seq<seq<int>>, remap: map<int, int>)
    : (r: (seq<Record>, seq<seq<int>>, map<int, int>))
    decreases |ms|
  {
    if |ms| == 0 then ([], out, remap)
    else
      var h := MethodRecordAsWritten(p, out, remap, ms[0]);
      var t := DumpLoopAsWritten(p, ms[1..], h.1, h.2);
      ([h.0] + t.0, t.1, t.2)
  }

  /** `dumpMethods` as written: the records and the string pool. */
  function DumpMethodsAsWritten(p: Pools, ms: seq<Method>): (r: (seq<Record>, seq<seq<int>>))
  {
    var d := DumpLoopAsWritten(p, ms, [[]], map[]);
    (d.0, d.1)
  }

  /** Every class-name and method-name symbol the methods look up is in the
      symbol pool. */
  predicate SymbolsPresent(p: Pools, ms: seq<Method>)
  {
    forall i :: 0 <= i < |ms| && ms[i].id in p.methods ==>
      p.methods[ms[i].id].name in p.symbols
      && (p.methods[ms[i].id].cls in p.classes ==> p.classes[p.methods[ms[i].id].cls] in p.symbols)
  }

  /** When every symbol looked up is present, the code as written and the
      corrected lookup dump the same records and the same pool. */
  lemma {:induction false} DumpLoopAgrees(p: Pools, ms: seq<Method>, out: seq<seq<int>>, remap: map<int, int>)
    requires SymbolsPresent(p, ms)
    ensures DumpLoopAsWritten(p, ms, out, remap) == DumpLoop(p, ms, out, remap)
    decreases |ms|
  {
    if |ms| > 0 {
      var h := MethodRecord(p, out, remap, ms[0]);
      assert MethodRecordAsWritten(p, out, remap, ms[0]) == h by {
        assert 0 < |ms|;
      }
      assert SymbolsPresent(p, ms[1..]) by {
        forall i | 0 <= i < |ms[1..]|
          ensures ms[1..][i] == ms[i + 1]
        {
        }
      }
      DumpLoopAgrees(p, ms[1..], h.1, h.2);
    }
  }

  lemma {:induction false} DumpMethodsAgree(p: Pools, ms: seq<Method>)
    requires SymbolsPresent(p, ms)
    ensures DumpMethodsAsWritten(p, ms) == DumpMethods(p, ms)
  {
    DumpLoopAgrees(p, ms, [[]], map[]);
  }

  /** `dumpMethods` as written: when every symbol looked up is present,
      every record names pool slots holding its method's class name and
      method name, and a missing method ref writes 0 and 3. */
  lemma {:induction false} DumpMethodsAsWrittenResolve(p: Pools, ms: seq<Method>)
    requires SymbolsPresent(p, ms)
    ensures var d := DumpMethodsAsWritten(p, ms);
            |d.1| > 0 && d.1[0] == [] && AllRecordsOk(p, d.1, ms, d.0)
  {
    DumpMethodsAgree(p, ms);
    DumpMethodsResolve(p, ms);
  }

  /** As written, a method whose name symbol is missing, looked up again
      after another name was added, is given that other name's slot: the
      third method's record points at "x" instead of "". */
  lemma {:induction false} StaleRecordAsWritten()
    ensures var p := Pools(map[1 := MethodRef(9, 1), 2 := MethodRef(9, 2), 3 := MethodRef(9, 1)], map[], map[2 := [120]]);
            var ms := [Method(1, 0, 0), Method(2, 0, 0), Method(3, 0, 0)];
            var d := DumpMethodsAsWritten(p, ms);
            |d.0| == 3 && d.0[2].nameIndex == 1 && d.1 == [[], [120]]
            && !RecordOk(p, d.1, ms[2], d.0[2]) && RecordOk(p, DumpMethods(p, ms).1, ms[2], DumpMethods(p, ms).0[2])
  {
    var p := Pools(map[1 := MethodRef(9, 1), 2 := MethodRef(9, 2), 3 := MethodRef(9, 1)], map[], map[2 := [120]]);
    var ms := [Method(1, 0, 0), Method(2, 0, 0), Method(3, 0, 0)];
    DumpMethodsResolve(p, ms);
    var r1 := MethodRecordAsWritten(p, [[]], map[], ms[0]);
    var r2 := MethodRecordAsWritten(p, r1.1, r1.2, ms[1]);
    var r3 := MethodRecordAsWritten(p, r2.1, r2.2, ms[2]);
    assert r1.1 == [[]] && r1.2 == map[1 := 1];
    assert r2.1 == [[], [120]] && r2.2[1] == 1;
    assert r3.0.nameIndex == 1 && r3.1 == [[], [120]];
    var ms3 := ms[1..][1..];
    assert ms3 == [ms[2]] && ms3[1..] == [];
    assert DumpLoopAsWritten(p, ms, [[]], map[]).0 == [r1.0, r2.0, r3.0];
  }

  // ---- The record text ----

  /** The 17 symbols of a record: `put30bit` class, `put30bit` name,
      `put36bit` location and `put6bit` type. */
  function RecordSymbols(rec: Record): (s: seq<int>)
    ensures |s| == 17
  {
    EncodeFixed(ToUint32(rec.classIndex), 5) + EncodeFixed(ToUint32(rec.nameIndex), 5)
    + EncodeFixed(ToUint64(rec.location), 6) + [rec.typeCode + BIAS]
  }

  lemma {:induction false} RecordSymbolsParts(rec: Record)
    ensures RecordSymbols(rec) == EncodeFixed(ToUint32(rec.classIndex), 5) + EncodeFixed(ToUint32(rec.nameIndex), 5)
    + EncodeFixed(ToUint64(rec.location), 6) + [rec.typeCode + BIAS]
  {
  }

  /** The text of the method table: the records in index order. */
  function MethodsText(recs: seq<Record>): seq<int>
  {
    if |recs| == 0 then [] else MethodsText(recs[..|recs| - 1]) + RecordSymbols(recs[|recs| - 1])
  }

  /** The fields fit the Java types of `put30bit`, `put36bit` and `put6bit`. */
  predicate Fits(rec: Record)
  {
    0 <= rec.classIndex < TWO_31 && 0 <= rec.nameIndex < TWO_31
    && -TWO_31 <= rec.location < TWO_31 && 0 <= rec.typeCode <= 4
  }

  /** Writing one record into a `SampleCollection`. */
  function PutRecord(c: SampleCollection.Collection, rec: Record): (r: SampleCollection.Collection)
    requires SampleCollection.Wf(c) && Fits(rec)
    ensures SampleCollection.Wf(r)
  {
    var c1 := SampleCollection.Put30bit(c, rec.classIndex);
    var c2 := SampleCollection.Put30bit(c1, rec.nameIndex);
    var c3 := SampleCollection.Put36bit(c2, rec.location);
    SampleCollection.Put6bit(c3, rec.typeCode)
  }

  /** A record appends its 17 symbols. */
  lemma {:induction false} PutRecordAppends(c: SampleCollection.Collection, rec: Record)
    requires SampleCollection.Wf(c) && Fits(rec)
    ensures SampleCollection.Text(PutRecord(c, rec)) == SampleCollection.Text(c) + RecordSymbols(rec)
  {
    var c1 := SampleCollection.Put30bit(c, rec.classIndex);
    var c2 := SampleCollection.Put30bit(c1, rec.nameIndex);
    var c3 := SampleCollection.Put36bit(c2, rec.location);
    var r := SampleCollection.Put6bit(c3, rec.typeCode);
    assert r == PutRecord(c, rec);
    SampleCollection.Put6bitAppends(c3, rec.typeCode);
    var a := EncodeFixed(ToUint32(rec.classIndex), 5);
    var b := EncodeFixed(ToUint32(rec.nameIndex), 5);
    var l := EncodeFixed(ToUint64(rec.location), 6);
    var d := [rec.typeCode + BIAS];
    RecordSymbolsParts(rec);
    Concat4(SampleCollection.Text(c), SampleCollection.Text(c1), SampleCollection.Text(c2),
            SampleCollection.Text(c3), SampleCollection.Text(r), a, b, l, d);
  }

  lemma {:induction false} Concat2(t0: seq<int>, t1: seq<int>, t2: seq<int>, a: seq<int>, b: seq<int>)
    requires t1 == t0 + a && t2 == t1 + b
    ensures t2 == t0 + (a + b)
  {
  }

  lemma {:induction false} Concat4(t0: seq<int>, t1: seq<int>, t2: seq<int>, t3: seq<int>, t4: seq<int>,
                a: seq<int>, b: seq<int>, c: seq<int>, d: seq<int>)
    requires t1 == t0 + a && t2 == t1 + b && t3 == t2 + c && t4 == t3 + d
    ensures t4 == t0 + (a + b + c + d)
  {
  }

  predicate AllFit(recs: seq<Record>)
  {
    forall i :: 0 <= i < |recs| ==> Fits(recs[i])
  }

  /** Writing all records, in order. */
  function PutRecords(c: SampleCollection.Collection, recs: seq<Record>): (r: SampleCollection.Collection)
    requires SampleCollection.Wf(c) && AllFit(recs)
    ensures SampleCollection.Wf(r)
    decreases |recs|
  {
    if |recs| == 0 then c
    else
      var n := |recs| - 1;
      FrontFits(recs);
      PutRecord(PutRecords(c, recs[..n]), recs[n])
  }

  lemma {:induction false} FrontFits(recs: seq<Record>)
    requires AllFit(recs) && |recs| > 0
    ensures AllFit(recs[..|recs| - 1])
  {
    var front := recs[..|recs| - 1];
    forall i | 0 <= i < |front|
      ensures Fits(front[i])
    {
      assert front[i] == recs[i];
    }
  }

  /** The `SampleCollection` of `dumpMethods` holds the records' text. */
  lemma {:induction false} PutRecordsAppends(c: SampleCollection.Collection, recs: seq<Record>)
    requires SampleCollection.Wf(c) && AllFit(recs)
    ensures SampleCollection.Text(PutRecords(c, recs)) == SampleCollection.Text(c) + MethodsText(recs)
    decreases |recs|
  {
    if |recs| > 0 {
      var n := |recs| - 1;
      FrontFits(recs);
      var front := recs[..n];
      var c1 := PutRecords(c, front);
      PutRecordsAppends(c, front);
      PutRecordAppends(c1, recs[n]);
      assert PutRecords(c, recs) == PutRecord(c1, recs[n]);
      assert MethodsText(recs) == MethodsText(front) + RecordSymbols(recs[n]);
      Concat2(SampleCollection.Text(c), SampleCollection.Text(c1), SampleCollection.Text(PutRecords(c, recs)),
              MethodsText(front), RecordSymbols(recs[n]));
    }
  }

  /** Record i starts at symbol 17 * i. */
  lemma {:induction false} RecordAt(recs: seq<Record>, i: nat)
    requires i < |recs|
    ensures |MethodsText(recs)| == 17 * |recs|
    ensures HoldsAt(MethodsText(recs), 17 * i, RecordSymbols(recs[i]))
    decreases |recs|
  {
    var n := |recs| - 1;
    if n > 0 {
      RecordAt(recs[..n], if i < n then i else 0);
    } else {
      assert recs[..n] == [];
    }
    var pre := MethodsText(recs[..n]);
    if i < n {
      assert recs[..n][i] == recs[i];
      forall k | 0 <= k < 17
        ensures MethodsText(recs)[17 * i + k] == RecordSymbols(recs[i])[k]
      {
        assert MethodsText(recs)[17 * i + k] == pre[17 * i + k];
      }
    } else {
      forall k | 0 <= k < 17
        ensures MethodsText(recs)[17 * i + k] == RecordSymbols(recs[i])[k]
      {
      }
    }
  }

  // ---- The viewer ----

  /** `frameType(frame)`: 3 for the synthetic root -1, otherwise the symbol
      at offset 16 of the method's record (NaN past the end). */
  function FrameType(text: seq<int>, mi: int): (r: Option<int>)
  {
    if mi == -1 then Some(3) else ByteAt(text, 17 * mi + 16)
  }

  /** `cpool[i]` turned into a string: "undefined" outside the array. */
  function PoolString(cpool: seq<seq<int>>, i: int): seq<int>
  {
    if 0 <= i < |cpool| then cpool[i] else [117, 110, 100, 101, 102, 105, 110, 101, 100]
  }

  /** `frameTitle(frame)`: "all" for -1, nothing for the displayed root, and
      otherwise the class and method name slots read from the record at
      offsets 0 and 5, joined by ".". */
  function FrameTitle(text: seq<int>, cpool: seq<seq<int>>, mi: int, isRoot: bool): (r: Option<seq<int>>)
  {
    if mi == -1 then Some([97, 108, 108])
    else if isRoot then None
    else Some(PoolString(cpool, Int30(text, 17 * mi)) + [46] + PoolString(cpool, Int30(text, 17 * mi + 5)))
  }

  /** The viewer reads back the remapped frame type of every method. */
  lemma {:induction false} FrameTypeRoundTrip(recs: seq<Record>, mi: nat)
    requires mi < |recs|
    ensures FrameType(MethodsText(recs), mi) == Some(recs[mi].typeCode)
  {
    RecordFieldsAt(recs, mi);
  }

  /** The viewer reads back both pool slots of every record whose slots are
      below 2^30. */
  lemma {:induction false} SlotsRoundTrip(recs: seq<Record>, mi: nat)
    requires mi < |recs| && 0 <= recs[mi].classIndex < Pow2(30) && 0 <= recs[mi].nameIndex < Pow2(30)
    ensures Int30(MethodsText(recs), 17 * mi) == recs[mi].classIndex
    ensures Int30(MethodsText(recs), 17 * mi + 5) == recs[mi].nameIndex
  {
    RecordFieldsAt(recs, mi);
    SlotAt(MethodsText(recs), 17 * mi, recs[mi].classIndex);
    SlotAt(MethodsText(recs), 17 * mi + 5, recs[mi].nameIndex);
  }

  /** The fields of record mi in the table text. */
  lemma {:induction false} RecordFieldsAt(recs: seq<Record>, mi: nat)
    requires mi < |recs|
    ensures |MethodsText(recs)| == 17 * |recs|
    ensures HoldsAt(MethodsText(recs), 17 * mi, EncodeFixed(ToUint32(recs[mi].classIndex), 5))
    ensures HoldsAt(MethodsText(recs), 17 * mi + 5, EncodeFixed(ToUint32(recs[mi].nameIndex), 5))
    ensures MethodsText(recs)[17 * mi + 16] == recs[mi].typeCode + BIAS
  {
    RecordAt(recs, mi);
    RecordParts(MethodsText(recs), 17 * mi, recs[mi]);
  }

  /** A slot written by `put30bit` reads back. */
  lemma {:induction false} SlotAt(text: seq<int>, q: int, v: int)
    requires 0 <= v < Pow2(30) && HoldsAt(text, q, EncodeFixed(ToUint32(v), 5))
    ensures Int30(text, q) == v
  {
    Pow2Constants();
    InRangeIdentities(v);
    Int30At(text, q, v);
  }

  /** The fields of a record in place. */
  lemma {:induction false} RecordParts(text: seq<int>, q: int, rec: Record)
    requires HoldsAt(text, q, RecordSymbols(rec))
    ensures HoldsAt(text, q, EncodeFixed(ToUint32(rec.classIndex), 5))
    ensures HoldsAt(text, q + 5, EncodeFixed(ToUint32(rec.nameIndex), 5))
    ensures text[q + 16] == rec.typeCode + BIAS
  {
    var a := EncodeFixed(ToUint32(rec.classIndex), 5);
    var b := EncodeFixed(ToUint32(rec.nameIndex), 5);
    var c := EncodeFixed(ToUint64(rec.location), 6);
    HoldsAtSplit(text, q, a + b + c, [rec.typeCode + BIAS]);
    HoldsAtSplit(text, q, a + b, c);
    HoldsAtSplit(text, q, a, b);
    assert text[q + 16 + 0] == [rec.typeCode + BIAS][0];
  }

  /** End to end: the title the viewer shows for a method with a method
      ref is its class name, ".", and its method name, as long as the pool
      has fewer than 2^30 strings. */
  lemma {:induction false} TitleRoundTrip(p: Pools, ms: seq<Method>, mi: nat)
    requires mi < |ms| && ms[mi].id in p.methods && |DumpMethods(p, ms).1| <= Pow2(30)
    ensures var d := DumpMethods(p, ms);
            FrameTitle(MethodsText(d.0), d.1, mi, false)
            == Some(ClassName(p, p.methods[ms[mi].id]) + [46] + SymbolOr(p, p.methods[ms[mi].id].name))
  {
    var d := DumpMethods(p, ms);
    DumpMethodsResolve(p, ms);
    assert RecordOk(p, d.1, ms[mi], d.0[mi]);
    SlotsRoundTrip(d.0, mi);
  }

  /** The same for `dumpMethods` as written, when every symbol looked up is
      present. */
  lemma {:induction false} TitleRoundTripAsWritten(p: Pools, ms: seq<Method>, mi: nat)
    requires mi < |ms| && ms[mi].id in p.methods && SymbolsPresent(p, ms)
    requires |DumpMethodsAsWritten(p, ms).1| <= Pow2(30)
    ensures var d := DumpMethodsAsWritten(p, ms);
            FrameTitle(MethodsText(d.0), d.1, mi, false)
            == Some(ClassName(p, p.methods[ms[mi].id]) + [46] + SymbolOr(p, p.methods[ms[mi].id].name))
  {
    DumpMethodsAgree(p, ms);
    TitleRoundTrip(p, ms, mi);
  }
}
