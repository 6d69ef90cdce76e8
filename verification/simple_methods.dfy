/** The method table of the compact heatmap: `SimpleHeatmap.compressMethods`
    writes two 36-bit words per method, `methodName << 18 | className` and
    `location << 4 | type`, and the viewer's `methodInfo`/`title` read the
    record of the 1-based method m back at symbol (m - 1) * 12, looking the
    1-based symbol ids up in the constant pool `cpool`. */
module SimpleMethods {
  import opened Common
  import opened Symbols
  import opened JsBits
  import opened DataBuffer
  import HtmlOut

  /** `SimpleHeatmap.Method`: symbol ids of the class and method name, the
      location, the frame type (a Java `byte`) and whether the frame starts
      a stack. */
  datatype Method = Method(className: Int32, methodName: Int32, location: Int32, frameType: int, start: bool)

  /** Java `(long)` wrap-around. */
  function ToInt64(x: int): (r: Int64)
    ensures (r - x) % TWO_64 == 0
  {
    (x + TWO_63) % TWO_64 - TWO_63
  }

  /** Java `a | b` on two `long`s. */
  function LongOr(a: Int64, b: Int64): Int64
  {
    ToInt64(OrNat(ToUint64(a), ToUint64(b)))
  }

  /** The words whose halves do not overlap, so that OR adds them. */
  predicate NameDisjoint(m: Method)
  {
    0 <= m.className < 0x4_0000 && 0 <= m.methodName
  }

  predicate LocationDisjoint(m: Method)
  {
    0 <= m.frameType < 16 && 0 <= m.location
  }

  /** `(long) method.methodName << 18L | method.className`, spelled as the
      sum when the halves do not overlap (`NameWordIsOr`). */
  function NameWord(m: Method): (r: Int64)
  {
    if NameDisjoint(m) then m.methodName * 0x4_0000 + m.className else OverlappingNameWord(m)
  }

  function OverlappingNameWord(m: Method): Int64
    requires !NameDisjoint(m)
  {
    LongOr(m.methodName * 0x4_0000, m.className)
  }

  /** `(long) method.location << 4L | method.type`, the byte sign-extended;
      the sum when the halves do not overlap (`LocationWordIsOr`). */
  function LocationWord(m: Method): (r: Int64)
    requires -128 <= m.frameType < 128
  {
    if LocationDisjoint(m) then m.location * 16 + m.frameType else OverlappingLocationWord(m)
  }

  function OverlappingLocationWord(m: Method): Int64
    requires -128 <= m.frameType < 128 && !LocationDisjoint(m)
  {
    LongOr(m.location * 16, m.frameType)
  }

  predicate TypeOk(ms: seq<Method>)
  {
    forall j :: 0 <= j < |ms| ==> -128 <= ms[j].frameType < 128
  }

  /** Both words of a method fit the 36 bits `write36` accepts. */
  predicate WordsOk(m: Method)
    requires -128 <= m.frameType < 128
  {
    0 <= NameWord(m) < 0x10_0000_0000 && 0 <= LocationWord(m) < 0x10_0000_0000
  }

  /** The twelve symbols of a method record. */
  function Record(m: Method): (r: seq<int>)
    requires -128 <= m.frameType < 128 && WordsOk(m)
    ensures |r| == 12
  {
    EncodeFixed(NameWord(m), 6) + EncodeFixed(LocationWord(m), 6)
  }

  predicate AllWordsOk(ms: seq<Method>)
    requires TypeOk(ms)
  {
    forall j :: 0 <= j < |ms| ==> WordsOk(ms[j])
  }

  function Records(ms: seq<Method>): (r: seq<int>)
    requires TypeOk(ms) && AllWordsOk(ms)
    ensures |r| == 12 * |ms|
  {
    if |ms| == 0 then [] else Records(ms[..|ms| - 1]) + Record(ms[|ms| - 1])
  }

  /** `compressMethods(out, methods)`: two `write36` calls per method; the
      first word out of range raises IllegalArgumentException. */
  function CompressMethods(o: HtmlOut.Out, ms: seq<Method>): (r: Result<HtmlOut.Out>)
    requires HtmlOut.Wf(o) && TypeOk(ms)
    ensures r.Success? ==> HtmlOut.Wf(r.value)
    decreases |ms|
  {
    if |ms| == 0 then Success(o)
    else
      var front := CompressMethods(o, ms[..|ms| - 1]);
      if front.Failure? then front
      else
        var m := ms[|ms| - 1];
        WriteMethod(front.value, m)
  }

  /** All fields in range: 18-bit symbol ids, a 32-bit location and a 4-bit
      type, which is what the two words can hold side by side. */
  predicate Fits(m: Method)
  {
    0 <= m.className < 0x4_0000 && 0 <= m.methodName < 0x4_0000
    && 0 <= m.location && 0 <= m.frameType < 16
  }

  predicate AllFits(ms: seq<Method>)
  {
    forall j :: 0 <= j < |ms| ==> Fits(ms[j])
  }

  // ---- The viewer's reading ----

  /** What `methodInfo` fills in; a pool read out of range is `undefined`,
      here None. */
  datatype Info = Info(className: Option<string>, methodName: Option<string>, location: int, frameType: int)

  /** `cpool[i]`. */
  function Lookup(cpool: seq<string>, i: int): Option<string>
  {
    if 0 <= i < |cpool| then Some(cpool[i]) else None
  }

  /** A pool entry as string concatenation shows it. */
  function Show(s: Option<string>): string
  {
    if s.Some? then s.value else "undefined"
  }

  /** `methodInfo(methodIndex, out)`: -1 is the root; otherwise the class id
      is the low 18 bits of the first word and the method id what `>>> 18`
      leaves, each minus one; location and type split the second word. */
  function MethodInfo(methods: seq<int>, cpool: seq<string>, m: int): (r: Info)
  {
    if m == -1 then Info(Some(""), Some("all"), 0, 3)
    else
      WordsInfo(cpool, Int36(methods, (m - 1) * 12), Int36(methods, (m - 1) * 12 + 6))
  }

  /** The fields of the two 32-bit words `int36` returned. */
  function WordsInfo(cpool: seq<string>, w: Int32, w2: Int32): Info
  {
    Info(Lookup(cpool, Mask(w, 18) - 1), Lookup(cpool, ToUint32(w) / 0x4_0000 - 1),
         ToUint32(w2) / 16, Mask(w2, 4))
  }

  /** `title(methodIndex)`. */
  function Title(methods: seq<int>, cpool: seq<string>, m: int): (r: string)
  {
    if m == -1 then "all"
    else
      var info := MethodInfo(methods, cpool, m);
      Show(info.className) + "." + Show(info.methodName)
  }

  /** A reading of the six symbols in plain arithmetic, without the 32-bit
      operators; None when the record runs past the end. */
  function Word36(data: seq<int>, pos: int): Option<int>
  {
    if 0 <= pos && pos + 6 <= |data| then Some(FixedValue(data[pos..pos + 6])) else None
  }

  /** `methodInfo` reading the words in full. */
  function MethodInfoFixed(methods: seq<int>, cpool: seq<string>, m: int): (r: Info)
  {
    if m == -1 then Info(Some(""), Some("all"), 0, 3)
    else
      var w := Word36(methods, (m - 1) * 12);
      var w2 := Word36(methods, (m - 1) * 12 + 6);
      if w.None? || w2.None? then Info(None, None, 0, 0)
      else Info(Lookup(cpool, w.value % 0x4_0000 - 1), Lookup(cpool, w.value / 0x4_0000 - 1),
                w2.value / 16, w2.value % 16)
  }

  function TitleFixed(methods: seq<int>, cpool: seq<string>, m: int): (r: string)
  {
    if m == -1 then "all"
    else
      var info := MethodInfoFixed(methods, cpool, m);
      Show(info.className) + "." + Show(info.methodName)
  }

  /** What the viewer should show for method m: the pool entries of its
      1-based ids, its location and type. */
  function Expected(ms: seq<Method>, cpool: seq<string>, m: nat): Info
    requires 1 <= m <= |ms|
  {
    var x := ms[m - 1];
    Info(Lookup(cpool, x.className - 1), Lookup(cpool, x.methodName - 1), x.location, x.frameType)
  }

  // ---- Proofs ----

  /** OR of a shifted high part and a low part that fits under the shift. */
  lemma {:induction false} LongOrDisjoint(high: nat, low: nat, k: nat)
    requires low < Pow2(k) && high * Pow2(k) + low < TWO_63
    ensures LongOr(high * Pow2(k), low) == high * Pow2(k) + low
  {
    var h := high * Pow2(k);
    assert 0 <= h by { MulNonNegative(high, Pow2(k)); }
    NatOr(h, low, high, k);
    Uint64InRange(h);
    Uint64InRange(low);
    LongInRange(h + low);
  }

  lemma {:induction false} NatOr(h: nat, low: nat, high: nat, k: nat)
    requires low < Pow2(k) && h == high * Pow2(k)
    ensures OrNat(h, low) == h + low
  {
    OrDisjoint(low, high, k);
    OrNatCommutes(h, low);
  }

  lemma {:induction false} Uint64InRange(x: int)
    requires 0 <= x < TWO_64
    ensures ToUint64(x) == x
  {
    DivModUnique(x, TWO_64, 0, x);
  }

  lemma {:induction false} LongInRange(x: int)
    requires 0 <= x < TWO_63
    ensures ToInt64(x) == x
  {
    DivModUnique(x + TWO_63, TWO_64, 0, x + TWO_63);
  }

  /** The two words are the Java ORs. */
  lemma {:induction false} NameWordIsOr(m: Method)
    ensures NameWord(m) == LongOr(m.methodName * 0x4_0000, m.className)
  {
    if NameDisjoint(m) {
      Pow2Constants();
      LongOrDisjoint(m.methodName, m.className, 18);
    }
  }

  lemma {:induction false} LocationWordIsOr(m: Method)
    requires -128 <= m.frameType < 128
    ensures LocationWord(m) == LongOr(m.location * 16, m.frameType)
  {
    if LocationDisjoint(m) {
      assert Pow2(4) == 16;
      LongOrDisjoint(m.location, m.frameType, 4);
    }
  }

  /** The words of a method whose fields fit are in range. */
  lemma {:induction false} FitWords(m: Method)
    requires Fits(m)
    ensures WordsOk(m)
  {
  }

  /** The two `write36` calls of one method. */
  function WriteMethod(f: HtmlOut.Out, m: Method): (r: Result<HtmlOut.Out>)
    requires HtmlOut.Wf(f) && -128 <= m.frameType < 128
  {
    var a := HtmlOut.Write36(f, NameWord(m));
    if a.Failure? then a else HtmlOut.Write36(a.value, LocationWord(m))
  }

  /** One method: it throws exactly when a word leaves 36 bits, and
      otherwise appends its record after the flushed sub-symbol. */
  lemma {:induction false} WriteMethodAppends(f: HtmlOut.Out, m: Method)
    requires HtmlOut.Wf(f) && -128 <= m.frameType < 128
    ensures WriteMethod(f, m).Failure? <==> !WordsOk(m)
    ensures WriteMethod(f, m).Success? ==>
      WriteMethod(f, m).value.text == f.text + HtmlOut.Flush(f) + Record(m)
      && WriteMethod(f, m).value.subByte == -1
  {
  }

  /** `compressMethods` throws exactly when some word leaves 36 bits, and
      otherwise appends the records after the flushed sub-symbol. */
  lemma {:induction false} CompressMethodsWrites(o: HtmlOut.Out, ms: seq<Method>)
    requires HtmlOut.Wf(o) && TypeOk(ms)
    ensures CompressMethods(o, ms).Failure? <==> !AllWordsOk(ms)
    ensures |ms| == 0 ==> CompressMethods(o, ms) == Success(o)
    ensures CompressMethods(o, ms).Success? && |ms| > 0 ==>
      CompressMethods(o, ms).value.text == o.text + HtmlOut.Flush(o) + Records(ms)
      && CompressMethods(o, ms).value.subByte == -1
    decreases |ms|
  {
    if |ms| > 0 {
      var front := ms[..|ms| - 1];
      var m := ms[|ms| - 1];
      assert TypeOk(front);
      CompressMethodsWrites(o, front);
      AllWordsOkLast(ms);
      var r := CompressMethods(o, front);
      if r.Success? {
        var f := r.value;
        assert CompressMethods(o, ms) == WriteMethod(f, m);
        WriteMethodAppends(f, m);
        if AllWordsOk(ms) {
          RecordsLast(ms);
          StepText(o.text, HtmlOut.Flush(o), Records(front), Record(m), f.text, HtmlOut.Flush(f),
                   WriteMethod(f, m).value.text, |front| == 0);
        }
      }
    }
  }

  /** A table's words fit exactly when its front's and its last method's do. */
  lemma {:induction false} AllWordsOkLast(ms: seq<Method>)
    requires TypeOk(ms) && |ms| > 0
    ensures TypeOk(ms[..|ms| - 1])
    ensures AllWordsOk(ms) <==> AllWordsOk(ms[..|ms| - 1]) && WordsOk(ms[|ms| - 1])
  {
    var front := ms[..|ms| - 1];
    assert forall j :: 0 <= j < |front| ==> front[j] == ms[j];
    if AllWordsOk(front) && WordsOk(ms[|ms| - 1]) {
      forall j | 0 <= j < |ms|
        ensures WordsOk(ms[j])
      {
        if j < |front| {
          assert WordsOk(front[j]);
        }
      }
    }
    if AllWordsOk(ms) {
      forall j | 0 <= j < |front|
        ensures WordsOk(front[j])
      {
        assert WordsOk(ms[j]);
      }
    }
  }

  /** The records of a non-empty table end with its last method's. */
  lemma {:induction false} RecordsLast(ms: seq<Method>)
    requires TypeOk(ms) && AllWordsOk(ms) && |ms| > 0
    ensures TypeOk(ms[..|ms| - 1]) && AllWordsOk(ms[..|ms| - 1])
    ensures Records(ms) == Records(ms[..|ms| - 1]) + Record(ms[|ms| - 1])
  {
  }

  /** One more record after the first: either the first, after the flush,
      or a later one, after the earlier records and an empty flush. */
  lemma {:induction false} StepText(otext: seq<int>, oflush: seq<int>, before: seq<int>, rec: seq<int>,
                 ftext: seq<int>, fflush: seq<int>, t: seq<int>, first: bool)
    requires first ==> ftext == otext && fflush == oflush && before == []
    requires !first ==> ftext == otext + oflush + before && fflush == []
    requires t == ftext + fflush + rec
    ensures t == otext + oflush + (before + rec)
  {
  }

  /** Record j sits at symbol 12 j. */
  lemma {:induction false} RecordAt(ms: seq<Method>, j: nat, p: int)
    requires AllFits(ms) && TypeOk(ms) && AllWordsOk(ms) && j < |ms| && p == 12 * j
    ensures HoldsAt(Records(ms), p, EncodeFixed(NameWord(ms[j]), 6))
    ensures HoldsAt(Records(ms), p + 6, EncodeFixed(LocationWord(ms[j]), 6))
    decreases |ms|
  {
    var front := ms[..|ms| - 1];
    assert AllFits(front) && TypeOk(front) && AllWordsOk(front) by {
      assert forall i :: 0 <= i < |front| ==> front[i] == ms[i];
    }
    if j < |ms| - 1 {
      RecordAt(front, j, p);
      assert front[j] == ms[j];
    } else {
      HoldsAtMiddle(Records(front), Record(ms[j]), []);
      HoldsAtSplit(Records(ms), p, EncodeFixed(NameWord(ms[j]), 6), EncodeFixed(LocationWord(ms[j]), 6));
    }
  }

  /** `int36` of a held word keeps its low 32 bits. */
  lemma {:induction false} Int36Held(data: seq<int>, p: int, v: nat)
    requires HoldsAt(data, p, EncodeFixed(v, 6))
    ensures Int36(data, p) == ToInt32(v % TWO_32)
  {
    assert data == data[..p] + EncodeFixed(v, 6) + data[p + 6..];
    Int36Reads(data[..p], v, data[p + 6..]);
  }

  /** The exact reading of a held word. */
  lemma {:induction false} Word36Held(data: seq<int>, p: int, v: nat)
    requires HoldsAt(data, p, EncodeFixed(v, 6)) && v < Pow2(36)
    ensures Word36(data, p) == Some(v)
  {
    assert data[p..p + 6] == EncodeFixed(v, 6);
    EncodeFixedValue(v, 6);
    DivModUnique(v, Pow2(36), 0, v);
  }

  /** The low 32 bits of a word below 2^32 are the word. */
  lemma {:induction false} Below32(v: nat)
    requires v < TWO_32
    ensures ToUint32(ToInt32(v % TWO_32)) == v
  {
    DivModUnique(v, TWO_32, 0, v);
    ModOfWrapped(v);
  }

  /** The 32-bit reading of the class id and method id of a name word. */
  lemma {:induction false} SplitName(c: nat, n: nat)
    requires c < 0x4_0000 && n < 0x4000
    ensures var v := n * 0x4_0000 + c;
            Mask(ToInt32(v % TWO_32), 18) == c && ToUint32(ToInt32(v % TWO_32)) / 0x4_0000 == n
  {
    var v := n * 0x4_0000 + c;
    Below32(v);
    Pow2Constants();
    DivModUnique(v, 0x4_0000, n, c);
  }

  /** The 32-bit reading of location and type. */
  lemma {:induction false} SplitLocation(l: nat, t: nat)
    requires t < 16 && l < 0x1000_0000
    ensures var v := l * 16 + t;
            ToUint32(ToInt32(v % TWO_32)) / 16 == l && Mask(ToInt32(v % TWO_32), 4) == t
  {
    var v := l * 16 + t;
    Below32(v);
    assert Pow2(4) == 16;
    DivModUnique(v, 16, l, t);
  }

  /** `methodInfo` of a record whose words are held at its offset. */
  lemma {:induction false} InfoFrom(data: seq<int>, cpool: seq<string>, m: int, v: nat, v2: nat)
    requires m != -1
    requires HoldsAt(data, (m - 1) * 12, EncodeFixed(v, 6)) && HoldsAt(data, (m - 1) * 12 + 6, EncodeFixed(v2, 6))
    ensures MethodInfo(data, cpool, m) == WordsInfo(cpool, ToInt32(v % TWO_32), ToInt32(v2 % TWO_32))
  {
    Int36Held(data, (m - 1) * 12, v);
    Int36Held(data, (m - 1) * 12 + 6, v2);
  }

  /** The corrected `methodInfo` of a record whose words are held at its
      offset. */
  lemma {:induction false} InfoFixedFrom(data: seq<int>, cpool: seq<string>, m: int, v: nat, v2: nat)
    requires m != -1 && v < Pow2(36) && v2 < Pow2(36)
    requires HoldsAt(data, (m - 1) * 12, EncodeFixed(v, 6)) && HoldsAt(data, (m - 1) * 12 + 6, EncodeFixed(v2, 6))
    ensures MethodInfoFixed(data, cpool, m)
         == Info(Lookup(cpool, v % 0x4_0000 - 1), Lookup(cpool, v / 0x4_0000 - 1), v2 / 16, v2 % 16)
  {
    Word36Held(data, (m - 1) * 12, v);
    Word36Held(data, (m - 1) * 12 + 6, v2);
    InfoOfWords(data, cpool, m, v, v2);
  }

  /** `methodInfo` splits the two words it reads. */
  lemma {:induction false} InfoOfWords(data: seq<int>, cpool: seq<string>, m: int, v: nat, v2: nat)
    requires m != -1 && Word36(data, (m - 1) * 12) == Some(v) && Word36(data, (m - 1) * 12 + 6) == Some(v2)
    ensures MethodInfoFixed(data, cpool, m)
         == Info(Lookup(cpool, v % 0x4_0000 - 1), Lookup(cpool, v / 0x4_0000 - 1), v2 / 16, v2 % 16)
  {
  }

  /** Where `methodInfo` finds method m: record m - 1. */
  lemma {:induction false} RecordOf(ms: seq<Method>, m: nat, p: int)
    requires AllFits(ms) && TypeOk(ms) && AllWordsOk(ms) && 1 <= m <= |ms| && p == (m - 1) * 12
    ensures HoldsAt(Records(ms), p, EncodeFixed(NameWord(ms[m - 1]), 6))
    ensures HoldsAt(Records(ms), p + 6, EncodeFixed(LocationWord(ms[m - 1]), 6))
  {
    RecordAt(ms, m - 1, p);
  }

  /** Every method of the table has words in range when all fields fit. */
  lemma {:induction false} AllFit(ms: seq<Method>)
    requires AllFits(ms)
    ensures TypeOk(ms) && AllWordsOk(ms)
  {
    forall j | 0 <= j < |ms| ensures WordsOk(ms[j]) { FitWords(ms[j]); }
  }

  /** `methodInfo` of a record holding a method whose method id is below
      2^14 and whose location is below 2^28. */
  lemma {:induction false} ReadsMethod(data: seq<int>, cpool: seq<string>, m: int, x: Method)
    requires m >= 1 && Fits(x) && x.methodName < 0x4000 && x.location < 0x1000_0000
    requires HoldsAt(data, (m - 1) * 12, EncodeFixed(NameWord(x), 6))
    requires HoldsAt(data, (m - 1) * 12 + 6, EncodeFixed(LocationWord(x), 6))
    ensures MethodInfo(data, cpool, m)
         == Info(Lookup(cpool, x.className - 1), Lookup(cpool, x.methodName - 1), x.location, x.frameType)
  {
    FitWords(x);
    InfoFrom(data, cpool, m, NameWord(x), LocationWord(x));
    SplitName(x.className, x.methodName);
    SplitLocation(x.location, x.frameType);
  }

  /** The corrected `methodInfo` of a record holding a method whose fields
      fit. */
  lemma {:induction false} ReadsMethodFixed(data: seq<int>, cpool: seq<string>, m: int, x: Method)
    requires m >= 1 && Fits(x)
    requires HoldsAt(data, (m - 1) * 12, EncodeFixed(NameWord(x), 6))
    requires HoldsAt(data, (m - 1) * 12 + 6, EncodeFixed(LocationWord(x), 6))
    ensures MethodInfoFixed(data, cpool, m)
         == Info(Lookup(cpool, x.className - 1), Lookup(cpool, x.methodName - 1), x.location, x.frameType)
  {
    FitWords(x);
    Pow2Constants();
    var v, v2 := NameWord(x), LocationWord(x);
    InfoFixedFrom(data, cpool, m, v, v2);
    DivModUnique(v, 0x4_0000, x.methodName, x.className);
    DivModUnique(v2, 16, x.location, x.frameType);
  }

  /** The viewer reads back every method whose method id is below 2^14 and
      whose location is below 2^28. */
  lemma {:induction false} MethodInfoRoundTrip(ms: seq<Method>, cpool: seq<string>, m: nat)
    requires 1 <= m <= |ms|
    requires AllFits(ms)
    requires ms[m - 1].methodName < 0x4000 && ms[m - 1].location < 0x1000_0000
    ensures TypeOk(ms) && AllWordsOk(ms)
    ensures MethodInfo(Records(ms), cpool, m) == Expected(ms, cpool, m)
  {
    var x := ms[m - 1];
    assert Expected(ms, cpool, m)
        == Info(Lookup(cpool, x.className - 1), Lookup(cpool, x.methodName - 1), x.location, x.frameType);
    AllFit(ms);
    RecordOf(ms, m, (m - 1) * 12);
    ReadsMethod(Records(ms), cpool, m, x);
  }

  /** Hence the title shows the pool entries of the class and method ids. */
  lemma {:induction false} TitleRoundTrip(ms: seq<Method>, cpool: seq<string>, m: nat)
    requires 1 <= m <= |ms|
    requires AllFits(ms)
    requires ms[m - 1].methodName < 0x4000 && ms[m - 1].location < 0x1000_0000
    ensures TypeOk(ms) && AllWordsOk(ms)
    ensures Title(Records(ms), cpool, m)
         == Show(Lookup(cpool, ms[m - 1].className - 1)) + "." + Show(Lookup(cpool, ms[m - 1].methodName - 1))
  {
    MethodInfoRoundTrip(ms, cpool, m);
    TitleIs(Records(ms), cpool, m, Expected(ms, cpool, m));
  }

  lemma {:induction false} TitleIs(data: seq<int>, cpool: seq<string>, m: int, info: Info)
    requires m != -1 && MethodInfo(data, cpool, m) == info
    ensures Title(data, cpool, m) == Show(info.className) + "." + Show(info.methodName)
  {
  }

  /** The corrected reading gets every method whose fields fit. */
  lemma {:induction false} MethodInfoFixedRoundTrip(ms: seq<Method>, cpool: seq<string>, m: nat)
    requires 1 <= m <= |ms|
    requires AllFits(ms)
    ensures TypeOk(ms) && AllWordsOk(ms)
    ensures MethodInfoFixed(Records(ms), cpool, m) == Expected(ms, cpool, m)
  {
    var x := ms[m - 1];
    assert Expected(ms, cpool, m)
        == Info(Lookup(cpool, x.className - 1), Lookup(cpool, x.methodName - 1), x.location, x.frameType);
    AllFit(ms);
    RecordOf(ms, m, (m - 1) * 12);
    ReadsMethodFixed(Records(ms), cpool, m, x);
  }

  /** As written, method id 2^14 loses its top bit at `<< 30`: the title of
      the first method shows `undefined` for the method name where the
      corrected reading finds pool entry 2^14 - 1. */
  lemma {:induction false} LongNameLost(cpool: seq<string>)
    requires |cpool| > 0x4000
    ensures var ms := [Method(1, 0x4000, 0, 0, true)];
            TypeOk(ms) && AllWordsOk(ms)
            && Title(Records(ms), cpool, 1) == cpool[0] + ".undefined"
            && TitleFixed(Records(ms), cpool, 1) == cpool[0] + "." + cpool[0x3FFF]
  {
    var ms := [Method(1, 0x4000, 0, 0, true)];
    var x := ms[0];
    assert AllFits(ms);
    AllFit(ms);
    RecordOf(ms, 1, 0);
    LostTitle(Records(ms), cpool, NameWord(x), LocationWord(x));
    FixedTitle(Records(ms), cpool, NameWord(x), LocationWord(x));
  }

  /** The title of a first record whose name word is 2^32 + 1 (class id 1,
      method id 2^14), as written. */
  lemma {:induction false} LostTitle(data: seq<int>, cpool: seq<string>, v: nat, v2: nat)
    requires |cpool| > 0 && v == TWO_32 + 1
    requires HoldsAt(data, 0, EncodeFixed(v, 6)) && HoldsAt(data, 6, EncodeFixed(v2, 6))
    ensures Title(data, cpool, 1) == cpool[0] + ".undefined"
  {
    InfoFrom(data, cpool, 1, v, v2);
    WrapsToOne();
    var info := WordsInfo(cpool, 1, ToInt32(v2 % TWO_32));
    WrappedName(cpool, ToInt32(v2 % TWO_32));
    TitleIs(data, cpool, 1, info);
  }

  /** The same record read by the corrected `methodInfo`. */
  lemma {:induction false} FixedTitle(data: seq<int>, cpool: seq<string>, v: nat, v2: nat)
    requires |cpool| > 0x4000 && v == TWO_32 + 1 && v2 < 16
    requires HoldsAt(data, 0, EncodeFixed(v, 6)) && HoldsAt(data, 6, EncodeFixed(v2, 6))
    ensures TitleFixed(data, cpool, 1) == cpool[0] + "." + cpool[0x3FFF]
  {
    Pow2Constants();
    InfoFixedFrom(data, cpool, 1, v, v2);
    DivModUnique(v, 0x4_0000, 0x4000, 1);
  }

  /** `int36` keeps 1 of the word 2^32 + 1. */
  lemma {:induction false} WrapsToOne()
    ensures ToInt32((TWO_32 + 1) % TWO_32) == 1
  {
    DivModUnique(TWO_32 + 1, TWO_32, 1, 1);
    DivModUnique(1 + TWO_31, TWO_32, 0, 1 + TWO_31);
  }

  /** The 32-bit word 1 names class id 1 and method id 0. */
  lemma {:induction false} WrappedName(cpool: seq<string>, w2: Int32)
    requires |cpool| > 0
    ensures WordsInfo(cpool, 1, w2).className == Some(cpool[0])
    ensures WordsInfo(cpool, 1, w2).methodName == None
  {
    Pow2Constants();
    assert Mask(1, 18) == 1;
    assert ToUint32(1) == 1;
  }
}
