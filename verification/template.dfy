/** `Heatmap.dump(out, template, values)`: the page template with every
    `${name}` replaced by its value, and every `${resource:name}` by the
    named resource, itself expanded. */
module Template {
  import opened Common

  const OPEN: string := "${"
  const CLOSE: string := "}"
  const RESOURCE: string := "resource:"
  const NULL: string := "null"

  /** s[i..] starts with p. */
  predicate At(s: string, i: int, p: string)
  {
    0 <= i && i + |p| <= |s| && s[i..i + |p|] == p
  }

  /** `s.indexOf(p, from)` for from >= 0: the first position at or after
      from where p occurs, or -1. */
  function IndexOf(s: string, p: string, from: nat): (r: int)
    requires |p| > 0
    ensures r == -1 || (from <= r && At(s, r, p))
    ensures r == -1 ==> forall j :: from <= j <= |s| - |p| ==> !At(s, j, p)
    ensures r != -1 ==> forall j :: from <= j < r ==> !At(s, j, p)
    decreases |s| - from
  {
    if from + |p| > |s| then -1
    else if At(s, from, p) then from
    else IndexOf(s, p, from + 1)
  }

  /** The variables and resources of a page. */
  datatype Env = Env(values: map<string, string>, resources: map<string, string>)

  /** The expansion of t from position index: the text up to the next
      "${", the value of the placeholder it opens, and the expansion of what
      follows its "}". A "${" with no "}" after it is an out-of-bounds
      substring. */
  function DumpFrom(t: string, index: nat, env: Env, fuel: nat): Result<string>
    requires index <= |t|
    decreases fuel, |t| - index, 2
  {
    var next := IndexOf(t, OPEN, index);
    if next == -1 then Success(t[index..]) else DumpAt(t, index, next, env, fuel)
  }

  /** The expansion of t from index when the next "${" is at next. */
  function DumpAt(t: string, index: nat, next: nat, env: Env, fuel: nat): Result<string>
    requires index <= next && At(t, next, OPEN)
    decreases fuel, |t| - index, 1
  {
    var limit := IndexOf(t, CLOSE, next + 2);
    if limit == -1 then Failure(IndexOutOfBounds)
    else Join(t[index..next], Value(t[next + 2..limit], env, fuel), DumpFrom(t, limit + 1, env, fuel))
  }

  /** The value of a placeholder: a resource, expanded with one unit of
      `fuel` less (a missing resource, or nesting deeper than the fuel
      allows, fails), or a variable, "null" when it has no value. */
  function Value(v: string, env: Env, fuel: nat): Result<string>
    decreases fuel, 0, 0
  {
    if At(v, 0, RESOURCE) then
      var name := v[|RESOURCE|..];
      if fuel == 0 || name !in env.resources then Failure(IllegalState)
      else DumpFrom(env.resources[name], 0, env, fuel - 1)
    else Success(if v in env.values then env.values[v] else NULL)
  }

  /** The text before a placeholder, its value, and the rest; the value's
      failure comes first, as it is written out first. */
  function Join(text: string, value: Result<string>, rest: Result<string>): Result<string>
  {
    if value.Failure? then Failure(value.error)
    else if rest.Failure? then Failure(rest.error)
    else Success(text + value.value + rest.value)
  }

  function Dump(t: string, env: Env, fuel: nat): Result<string>
  {
    DumpFrom(t, 0, env, fuel)
  }

  // ---- A reference: templates as text and placeholders ----

  /** A template given as its leading text and a list of (variable, text
      after it) pairs. */
  datatype Page = Page(head: string, parts: seq<(string, string)>)

  /** Text that no placeholder starts in. */
  predicate Plain(s: string)
  {
    forall j :: 0 <= j <= |s| - 2 ==> !At(s, j, OPEN)
  }

  /** A variable name the expansion can look up: no "}" and no resource
      prefix. */
  predicate Name(v: string)
  {
    Unbraced(v) && !At(v, 0, RESOURCE)
  }

  /** Text with no "}". */
  predicate Unbraced(v: string)
  {
    forall j :: 0 <= j < |v| ==> v[j] != '}'
  }

  predicate PageOk(pg: Page)
  {
    Plain(pg.head)
    && forall i :: 0 <= i < |pg.parts| ==> Name(pg.parts[i].0) && Plain(pg.parts[i].1)
  }

  /** The text of the placeholders and the texts after them. */
  function RenderParts(parts: seq<(string, string)>): string
  {
    if |parts| == 0 then [] else OPEN + parts[0].0 + CLOSE + parts[0].1 + RenderParts(parts[1..])
  }

  /** The page as a template. */
  function Render(pg: Page): string
  {
    pg.head + RenderParts(pg.parts)
  }

  /** The values in place of the placeholders; a missing one is "null". */
  function ExpandParts(parts: seq<(string, string)>, values: map<string, string>): string
  {
    if |parts| == 0 then []
    else
      (if parts[0].0 in values then values[parts[0].0] else NULL) + parts[0].1
      + ExpandParts(parts[1..], values)
  }

  function Expand(pg: Page, values: map<string, string>): string
  {
    pg.head + ExpandParts(pg.parts, values)
  }

  /** A placeholder opens where a '$' is followed by a '{'. */
  lemma {:induction false} AtOpen(s: string, i: int)
    ensures At(s, i, OPEN) <==> 0 <= i && i + 2 <= |s| && s[i] == '$' && s[i + 1] == '{'
  {
    if 0 <= i && i + 2 <= |s| {
      assert s[i..i + 2] == [s[i], s[i + 1]];
    }
  }

  /** A placeholder closes at a '}'. */
  lemma {:induction false} AtClose(s: string, i: int)
    ensures At(s, i, CLOSE) <==> 0 <= i < |s| && s[i] == '}'
  {
    if 0 <= i < |s| {
      assert s[i..i + 1] == [s[i]];
    }
  }

  /** No placeholder starts inside plain text, nor on its last character
      (OPEN's second character is not '$'), before the one that follows. */
  lemma {:induction false} FirstOpen(pre: string, s: string, base: nat, from: nat)
    requires Plain(pre) && base <= from <= base + |pre| && base + |pre| <= |s|
    requires s[base..base + |pre|] == pre && At(s, base + |pre|, OPEN)
    ensures IndexOf(s, OPEN, from) == base + |pre|
    decreases base + |pre| - from
  {
    if from < base + |pre| {
      var k := from - base;
      AtOpen(s, from);
      AtOpen(s, base + |pre|);
      if from + 2 <= base + |pre| {
        AtOpen(pre, k);
        assert pre[k] == s[from] && pre[k + 1] == s[from + 1];
      }
      FirstOpen(pre, s, base, from + 1);
    }
  }

  /** The close brace after a name is the first one. */
  lemma {:induction false} FirstClose(v: string, s: string, p: nat, from: nat)
    requires Unbraced(v) && p <= from <= p + |v| && p + |v| < |s| && s[p..p + |v|] == v && s[p + |v|] == '}'
    ensures IndexOf(s, CLOSE, from) == p + |v|
    decreases p + |v| - from
  {
    if from < p + |v| {
      assert s[from] == v[from - p];
      assert !At(s, from, CLOSE) by {
        assert s[from..from + 1] == [s[from]];
      }
      FirstClose(v, s, p, from + 1);
    } else {
      assert s[from..from + 1] == CLOSE;
    }
  }

  /** Plain text with nothing after it expands to itself. */
  lemma {:induction false} PlainTail(s: string, index: nat, env: Env, fuel: nat)
    requires index <= |s| && Plain(s[index..])
    ensures DumpFrom(s, index, env, fuel) == Success(s[index..])
  {
    var n := IndexOf(s, OPEN, index);
    if n != -1 {
      AtOpen(s, n);
      AtOpen(s[index..], n - index);
      assert false;
    }
  }

  lemma {:induction false} DumpAtClosed(t: string, index: nat, next: nat, limit: nat, env: Env, fuel: nat)
    requires limit != -1
    requires index <= next && At(t, next, OPEN) && IndexOf(t, CLOSE, next + 2) == limit
    ensures DumpAt(t, index, next, env, fuel)
         == Join(t[index..next], Value(t[next + 2..limit], env, fuel), DumpFrom(t, limit + 1, env, fuel))
  {
  }

  lemma {:induction false} DumpFromOpen(t: string, index: nat, next: int, env: Env, fuel: nat)
    requires next != -1 && index <= |t| && IndexOf(t, OPEN, index) == next
    ensures index <= next && At(t, next, OPEN)
    ensures DumpFrom(t, index, env, fuel) == DumpAt(t, index, next, env, fuel)
  {
  }

  /** What follows a prefix of a suffix. */
  lemma {:induction false} SuffixAfter(s: string, index: nat, x: string, y: string)
    requires index <= |s| && s[index..] == x + y
    ensures index + |x| <= |s| && s[index + |x|..] == y
  {
    assert s[index..][|x|..] == y;
  }

  /** Where the parts of a placeholder sit in the page. */
  lemma {:induction false} PlaceholderShape(s: string, index: nat, text: string, v: string, after: string)
    requires index <= |s| && s[index..] == text + OPEN + v + CLOSE + after
    ensures index + |text| + 3 + |v| + |after| == |s|
    ensures s[index..index + |text|] == text && At(s, index + |text|, OPEN)
    ensures s[index + |text| + 2..index + |text| + 2 + |v|] == v && s[index + |text| + 2 + |v|] == '}'
  {
    var u := s[index..];
    assert u[..|text|] == text;
    assert u[|text|..|text| + 2] == OPEN;
    assert u[|text| + 2..|text| + 2 + |v|] == v;
    assert u[|text| + 2 + |v|] == '}';
  }

  /** One placeholder of a name: the text before it, its value, and the
      expansion of what follows its close brace. */
  lemma {:induction false} Placeholder(s: string, index: nat, text: string, v: string, after: string, env: Env, fuel: nat, rest: string)
    requires Plain(text) && Name(v) && index <= |s| && s[index..] == text + OPEN + v + CLOSE + after
    requires |after| <= |s| && DumpFrom(s, |s| - |after|, env, fuel) == Success(rest)
    ensures DumpFrom(s, index, env, fuel)
         == Success(text + (if v in env.values then env.values[v] else NULL) + rest)
  {
    var next := index + |text|;
    var limit := next + 2 + |v|;
    PlaceholderShape(s, index, text, v, after);
    FirstOpen(text, s, index, index);
    FirstClose(v, s, next + 2, next + 2);
    assert Value(v, env, fuel) == Success(if v in env.values then env.values[v] else NULL);
    DumpFromOpen(s, index, next, env, fuel);
    DumpAtClosed(s, index, next, limit, env, fuel);
  }

  /** A page's text expands to the page with its values filled in, whatever
      the resources and the fuel. */
  lemma {:induction false} PartsExpand(s: string, index: nat, text: string, parts: seq<(string, string)>, env: Env, fuel: nat)
    requires index <= |s| && s[index..] == text + RenderParts(parts)
    requires Plain(text) && forall i :: 0 <= i < |parts| ==> Name(parts[i].0) && Plain(parts[i].1)
    ensures DumpFrom(s, index, env, fuel) == Success(text + ExpandParts(parts, env.values))
    decreases |parts|
  {
    if |parts| == 0 {
      assert s[index..] == text;
      PlainTail(s, index, env, fuel);
    } else {
      var v, t1 := parts[0].0, parts[0].1;
      var after := t1 + RenderParts(parts[1..]);
      var x := text + OPEN + v + CLOSE;
      assert s[index..] == x + after;
      SuffixAfter(s, index, x, after);
      assert |s| - |after| == index + |x|;
      PartsExpand(s, index + |x|, t1, parts[1..], env, fuel);
      Placeholder(s, index, text, v, after, env, fuel, t1 + ExpandParts(parts[1..], env.values));
      ExpandCons(text, parts, env.values);
    }
  }

  lemma {:induction false} ExpandCons(text: string, parts: seq<(string, string)>, values: map<string, string>)
    requires |parts| > 0
    ensures text + (if parts[0].0 in values then values[parts[0].0] else NULL) + (parts[0].1 + ExpandParts(parts[1..], values))
         == text + ExpandParts(parts, values)
  {
  }

  /** The placeholders of a page are replaced by their values, a missing
      value by "null", and nothing else changes. */
  lemma {:induction false} PageRoundTrip(pg: Page, env: Env, fuel: nat)
    requires PageOk(pg)
    ensures Dump(Render(pg), env, fuel) == Success(Expand(pg, env.values))
  {
    assert Render(pg)[0..] == Render(pg);
    PartsExpand(Render(pg), 0, pg.head, pg.parts, env, fuel);
  }

  /** A placeholder with no closing brace fails. */
  lemma {:induction false} Unclosed(head: string, v: string, env: Env, fuel: nat)
    requires Plain(head) && Unbraced(v)
    ensures Dump(head + OPEN + v, env, fuel) == Failure(IndexOutOfBounds)
  {
    var s := head + OPEN + v;
    assert s[0..|head|] == head;
    assert s[|head|..|head| + 2] == OPEN;
    FirstOpen(head, s, 0, 0);
    var limit := IndexOf(s, CLOSE, |head| + 2);
    if limit != -1 {
      AtClose(s, limit);
      assert false;
    }
    assert DumpFrom(s, 0, env, fuel) == DumpAt(s, 0, |head|, env, fuel);
  }

  /** A resource placeholder naming no resource fails, whatever follows. */
  lemma {:induction false} MissingResource(head: string, name: string, after: string, env: Env, fuel: nat)
    requires Plain(head) && Unbraced(name) && name !in env.resources
    ensures Dump(head + OPEN + (RESOURCE + name) + CLOSE + after, env, fuel) == Failure(IllegalState)
  {
    var v := RESOURCE + name;
    var s := head + OPEN + v + CLOSE + after;
    assert s[0..] == s;
    PlaceholderShape(s, 0, head, v, after);
    var next := |head|;
    var limit := next + 2 + |v|;
    FirstOpen(head, s, 0, 0);
    assert Unbraced(v) by {
      assert forall j :: 0 <= j < |RESOURCE| ==> RESOURCE[j] != '}';
      assert forall j :: |RESOURCE| <= j < |v| ==> v[j] == name[j - |RESOURCE|];
    }
    FirstClose(v, s, next + 2, next + 2);
    DumpFromOpen(s, 0, next, env, fuel);
    DumpAtClosed(s, 0, next, limit, env, fuel);
    NoResource(name, env, fuel);
  }

  lemma {:induction false} NoResource(name: string, env: Env, fuel: nat)
    requires name !in env.resources
    ensures Value(RESOURCE + name, env, fuel) == Failure(IllegalState)
  {
    var v := RESOURCE + name;
    assert v[..|RESOURCE|] == RESOURCE;
    assert v[|RESOURCE|..] == name;
  }
}
