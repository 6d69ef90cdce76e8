/** `SimpleHeatmap.convertClassName` / `toJavaClassName`: the JVM spelling of
    a class as the recording names it (an internal name such as
    `java/lang/String`, or an array descriptor such as `[[I` or
    `[Ljava/lang/String;`) turned into the Java spelling (`java.lang.String`,
    `int[][]`, `java.lang.String[]`). Names are taken as ASCII characters. */
module ClassNames {
  import opened Common

  // ---- The conversion as written ----

  /** `replace('/', '.')`. */
  function Dotted(s: string): (r: string)
    ensures |r| == |s|
    ensures forall i :: 0 <= i < |s| ==> r[i] == (if s[i] == '/' then '.' else s[i])
  {
    seq(|s|, i requires 0 <= i < |s| => if s[i] == '/' then '.' else s[i])
  }

  /** d copies of `"[]"`. */
  function Brackets(d: nat): (r: string)
    ensures |r| == 2 * d
  {
    if d == 0 then "" else Brackets(d - 1) + "[]"
  }

  /** The loop `while (className[arrayDepth] == '[') arrayDepth++`: the
      position of the first character after the leading brackets, or None
      when the name is all brackets and the loop reads past its end. */
  function Depth(s: string, d: nat): (r: Option<nat>)
    requires d <= |s|
    ensures r.Some? ==> d <= r.value < |s| && s[r.value] != '['
    ensures r.Some? ==> forall i :: d <= i < r.value ==> s[i] == '['
    ensures r.None? ==> forall i :: d <= i < |s| ==> s[i] == '['
    decreases |s| - d
  {
    if d == |s| then None
    else if s[d] == '[' then Depth(s, d + 1)
    else Some(d)
  }

  /** The Java name of a primitive descriptor letter. */
  function Primitive(c: char): Option<string>
  {
    match c
    case 'B' => Some("byte")
    case 'C' => Some("char")
    case 'S' => Some("short")
    case 'I' => Some("int")
    case 'J' => Some("long")
    case 'Z' => Some("boolean")
    case 'F' => Some("float")
    case 'D' => Some("double")
    case _ => None
  }

  /** `toJavaClassName(symbol, start)`: a primitive letter names the
      primitive; `L` takes the characters strictly between it and the last
      one, which `new String` refuses when there are none; anything else is
      the rest of the name. */
  function ToJavaClassName(s: string, start: nat): (r: Result<string>)
    requires start < |s|
  {
    if Primitive(s[start]).Some? then Success(Primitive(s[start]).value)
    else if s[start] == 'L' then
      if |s| - start - 2 < 0 then Failure(IndexOutOfBounds)
      else Success(Dotted(s[start + 1..|s| - 1]))
    else Success(Dotted(s[start..]))
  }

  /** `convertClassName(className)`. */
  function Convert(s: string): (r: Result<string>)
  {
    if |s| == 0 then Success("")
    else match Depth(s, 0)
      case None => Failure(IndexOutOfBounds)
      case Some(d) =>
        var base := ToJavaClassName(s, d);
        if base.Failure? then Failure(base.error) else Success(base.value + Brackets(d))
  }

  /** The corrected conversion: primitive letters and the `L...;` form are
      descriptor syntax and only occur after at least one `[`, so a name
      without leading brackets is an internal class name taken whole. */
  function ConvertFixed(s: string): (r: Result<string>)
  {
    if |s| == 0 then Success("")
    else match Depth(s, 0)
      case None => Failure(IndexOutOfBounds)
      case Some(d) =>
        if d == 0 then Success(Dotted(s))
        else
          var base := ToJavaClassName(s, d);
          if base.Failure? then Failure(base.error) else Success(base.value + Brackets(d))
  }

  // ---- What the recording names and what the viewer should show ----

  /** A Java type: a primitive (by its descriptor letter), a class (by its
      internal name), or an array of a type. */
  datatype JType = Prim(letter: char) | Class(name: string) | Array(elem: JType)

  /** A type the recording can name: primitives are real primitive letters,
      class names are non-empty and do not start with `[`. */
  predicate Named(t: JType)
  {
    match t
    case Prim(c) => Primitive(c).Some?
    case Class(n) => |n| > 0 && n[0] != '['
    case Array(e) => Named(e)
  }

  /** The classes samples refer to: any named type except a bare primitive. */
  predicate Recordable(t: JType)
  {
    Named(t) && !t.Prim?
  }

  /** The field descriptor of a type. */
  function Descriptor(t: JType): (r: string)
    ensures |r| > 0
  {
    match t
    case Prim(c) => [c]
    case Class(n) => "L" + n + ";"
    case Array(e) => "[" + Descriptor(e)
  }

  /** How the recording names a class: the internal name of a plain class,
      the descriptor of an array class. */
  function RecordedName(t: JType): string
    requires !t.Prim?
  {
    if t.Class? then t.name else Descriptor(t)
  }

  /** The Java spelling of a named type. */
  function JavaName(t: JType): string
    requires Named(t)
  {
    match t
    case Prim(c) => Primitive(c).value
    case Class(n) => Dotted(n)
    case Array(e) => JavaName(e) + "[]"
  }

  /** The element type under all array dimensions. */
  function Base(t: JType): (r: JType)
    ensures !r.Array?
  {
    if t.Array? then Base(t.elem) else t
  }

  function Dims(t: JType): nat
  {
    if t.Array? then 1 + Dims(t.elem) else 0
  }

  /** d opening brackets. */
  function Opens(d: nat): (r: string)
    ensures |r| == d && forall i :: 0 <= i < d ==> r[i] == '['
  {
    seq(d, i => '[')
  }

  // ---- Proofs ----

  /** A descriptor is its dimensions' brackets, then the element's
      descriptor; the Java name is the element's name, then `[]` per
      dimension. */
  lemma {:induction false} Layers(t: JType)
    requires Named(t)
    ensures Named(Base(t))
    ensures Descriptor(t) == Opens(Dims(t)) + Descriptor(Base(t))
    ensures JavaName(t) == JavaName(Base(t)) + Brackets(Dims(t))
  {
    if t.Array? {
      Layers(t.elem);
      assert Opens(Dims(t)) == "[" + Opens(Dims(t.elem));
    }
  }

  /** The bracket loop stops at the first character that is not `[`. */
  lemma {:induction false} DepthStops(s: string, d: nat, k: nat)
    requires d <= k < |s| && s[k] != '['
    requires forall i :: d <= i < k ==> s[i] == '['
    ensures Depth(s, d) == Some(k)
    decreases k - d
  {
    if d < k {
      DepthStops(s, d + 1, k);
    }
  }

  /** Hence it stops at the first character of the element's descriptor. */
  lemma {:induction false} DepthOfDescriptor(d: nat, rest: string)
    requires |rest| > 0 && rest[0] != '['
    ensures Depth(Opens(d) + rest, 0) == Some(d)
  {
    DepthStops(Opens(d) + rest, 0, d);
  }

  /** The element part of an array descriptor converts to the element's
      Java name. */
  lemma {:induction false} ElementName(b: JType, pre: string)
    requires Named(b) && !b.Array?
    ensures var s := pre + Descriptor(b);
            ToJavaClassName(s, |pre|) == Success(JavaName(b))
  {
    var s := pre + Descriptor(b);
    assert s[|pre|] == Descriptor(b)[0];
    if b.Class? {
      assert s[|pre| + 1..|s| - 1] == b.name;
    }
  }

  /** `convertClassName` gets every array class right. */
  lemma {:induction false} ArrayNames(t: JType)
    requires Named(t) && t.Array?
    ensures Convert(RecordedName(t)) == Success(JavaName(t))
    ensures ConvertFixed(RecordedName(t)) == Success(JavaName(t))
  {
    Layers(t);
    var b, d := Base(t), Dims(t);
    DepthOfDescriptor(d, Descriptor(b));
    ElementName(b, Opens(d));
  }

  /** A plain class name read from its first character on. */
  lemma {:induction false} PlainDepth(n: string)
    requires |n| > 0 && n[0] != '['
    ensures Depth(n, 0) == Some(0)
  {
  }

  /** `convertClassName` gets a plain class right when its name does not
      start with a descriptor letter. */
  lemma {:induction false} ClassNames(n: string)
    requires |n| > 0 && n[0] != '[' && n[0] != 'L' && Primitive(n[0]).None?
    ensures Convert(RecordedName(Class(n))) == Success(JavaName(Class(n)))
  {
    PlainDepth(n);
    assert n[0..] == n;
    assert Dotted(n) + Brackets(0) == Dotted(n);
  }

  /** As written, a plain class whose name starts with a primitive letter,
      such as `Foo` in the unnamed package, is shown as the primitive. */
  lemma {:induction false} FooBecomesFloat()
    ensures JavaName(Class("Foo")) == "Foo"
    ensures Convert(RecordedName(Class("Foo"))) == Success("float")
  {
    var s := "Foo";
    assert s[0] == 'F';
    PlainDepth(s);
    assert Primitive(s[0]) == Some("float");
    assert "float" + Brackets(0) == "float";
  }

  /** The corrected conversion gets every recorded class right. */
  lemma {:induction false} ConvertFixedRoundTrip(t: JType)
    requires Recordable(t)
    ensures ConvertFixed(RecordedName(t)) == Success(JavaName(t))
  {
    if t.Array? {
      ArrayNames(t);
    } else {
      PlainDepth(t.name);
    }
  }

  /** `convertClassName` throws exactly on a name of brackets only, and on
      brackets followed by a lone `L` (whose `new String` length is -1). */
  lemma {:induction false} ConvertFails(s: string)
    ensures Convert(s).Failure? <==>
      |s| > 0 && ((forall i :: 0 <= i < |s| ==> s[i] == '[')
                  || (s[|s| - 1] == 'L' && forall i :: 0 <= i < |s| - 1 ==> s[i] == '['))
  {
    if |s| > 0 && Depth(s, 0).Some? {
      var d := Depth(s, 0).value;
      assert s[d] != '[';
    }
  }
}
