/**
 * Rule prefixes against paths: the text tests of rule matching, what they mean on components,
 * and the selection of the rule that applies to a call.
 */
module PathRules {
  import opened Options
  import opened TextSplit
  import opened Paths
  import Selection

  /** Whether the text of `prefix` covers `path` at a component boundary. */
  function PrefixCovers(prefix: string, path: string): bool {
    && prefix <= path
    && (|path| == |prefix| || (|prefix| > 0 && prefix[|prefix| - 1] == '/') || path[|prefix|] == '/')
  }

  function HasReservedPrefix(path: string, prefix: string): bool {
    prefix <= path && (|path| == |prefix| || path[|prefix|] == '/')
  }

  lemma {:induction false} RenderedCat(a: Pieces, b: Pieces)
    ensures Rendered(a + b) == Rendered(a) + Rendered(b)
  {
    if b == [] {
      assert a + b == a;
    } else {
      var front, last := b[..|b| - 1], b[|b| - 1];
      RenderedCat(a, front);
      RenderSnoc(a + front, last);
      RenderSnoc(front, last);
      hide Rendered;
      assert a + b == a + front + [last] && b == front + [last];
      assert Rendered(a) + Rendered(front) + "/" + last == Rendered(a) + (Rendered(front) + "/" + last);
    }
  }

  lemma RenderedStarts(stack: Pieces)
    requires stack != []
    ensures Rendered(stack) != "" && Rendered(stack)[0] == '/'
  {
    RenderedIsJoin(stack);
  }

  /** A normal path other than the root does not end with a separator. */
  lemma NoTrailingSlash(stack: Pieces)
    requires Clean(stack) && stack != []
    ensures var text := Render(stack); text[|text| - 1] != '/'
  {
    var last := stack[|stack| - 1];
    assert Plain(last);
    var text := Render(stack);
    assert text[|text| - 1] == last[|last| - 1];
    assert last[|last| - 1] in last;
  }

  lemma JoinPrefix(p: Pieces, q: Pieces, rest: string)
    requires Clean(p) && Clean(q) && p != [] && q != []
    requires Join(q, '/') == Join(p, '/') + "/" + rest
    ensures p <= q
  {
    SplitAtSeparator(Join(p, '/'), rest, '/');
    SplitJoin(p, '/');
    SplitJoin(q, '/');
    assert q == p + Split(rest, '/');
  }

  /** Without its leading separator, a text is still its cut-off prefix, a separator and the rest. */
  lemma CutAtSeparator(text: string, prefix: string)
    requires prefix != "" && prefix <= text && |text| > |prefix| && text[|prefix|] == '/'
    ensures text[1..] == prefix[1..] + "/" + text[|prefix| + 1..]
  {
    assert text[|prefix|..] == "/" + text[|prefix| + 1..];
    assert text[1..|prefix|] == prefix[1..];
  }

  /** A path that continues a normal prefix at a separator has the prefix's components first. */
  lemma ContinuedPath(p: Pieces, q: Pieces)
    requires Clean(p) && Clean(q) && p != []
    requires Render(p) <= Render(q) && |Render(q)| > |Render(p)| && Render(q)[|Render(p)|] == '/'
    ensures p <= q
  {
    RenderedIsJoin(p);
    RenderedIsJoin(q);
    CutAtSeparator(Render(q), Render(p));
    JoinPrefix(p, q, Render(q)[|Render(p)| + 1..]);
  }

  /** A path below a prefix repeats the prefix's text and goes on at a separator, if at all. */
  lemma BelowContinues(p: Pieces, q: Pieces)
    requires p != [] && p <= q
    ensures Render(p) <= Render(q)
    ensures |Render(q)| == |Render(p)| || Render(q)[|Render(p)|] == '/'
  {
    var tail := q[|p|..];
    assert q == p + tail;
    RenderedCat(p, tail);
    if tail != [] {
      RenderedStarts(tail);
    }
  }

  lemma SameText(p: Pieces, q: Pieces)
    requires Clean(p) && Clean(q) && Render(p) == Render(q)
    ensures p == q
  {
    ComponentsOfRender(p);
    ComponentsOfRender(q);
  }

  /** The text test means what it should: on normal paths, prefix of text is prefix of components. */
  lemma CoversIsComponentPrefix(prefix: string, path: string)
    requires IsNormal(prefix) && IsNormal(path)
    ensures PrefixCovers(prefix, path) <==> Components(prefix) <= Components(path)
    ensures prefix != "/" ==> (HasReservedPrefix(path, prefix) <==> Components(prefix) <= Components(path))
  {
    var p: Pieces :| Clean(p) && prefix == Render(p);
    var q: Pieces :| Clean(q) && path == Render(q);
    ComponentsOfRender(p);
    ComponentsOfRender(q);
    if p == [] {
      assert "/" <= path;
    } else {
      NoTrailingSlash(p);
      if p <= q {
        BelowContinues(p, q);
      } else if prefix == path {
        SameText(p, q);
      } else if prefix <= path && path[|prefix|] == '/' {
        ContinuedPath(p, q);
      }
    }
  }

  // ---- Joining -----------------------------------------------------------------------------

  /** `base/path` in a buffer of `size` bytes; nothing when a part is empty or it does not fit. */
  function JoinPaths(size: nat, base: string, path: string): (r: Option<string>)
    ensures r.Some? ==> |r.value| < size
  {
    if base == "" || path == "" then None
    else
      var separator := if base[|base| - 1] == '/' then "" else "/";
      if |base| + |separator| + |path| + 1 > size then None else Some(base + separator + path)
  }

  /** Two texts that are not empty are joined by one separator, when that fits with its NUL. */
  lemma JoinedText(size: nat, base: string, path: string)
    ensures var joined := if base != "" && base[|base| - 1] == '/' then base + path else base + "/" + path;
            JoinPaths(size, base, path) == if base != "" && path != "" && |joined| < size then Some(joined) else None
  {
    assert base + "" + path == base + path;
  }

  lemma {:induction false} EmptyPieceStays(stack: Pieces)
    ensures DescendAll(stack, [""]) == stack
  {
    assert DescendAll(stack, [""]) == DescendAll(stack, []);
  }

  /** A trailing separator adds no component. */
  lemma TrailingSlash(front: string)
    ensures DescendAll([], Split(front + "/", '/')) == DescendAll([], Split(front, '/'))
  {
    assert front + "/" == front + "/" + "";
    SplitAtSeparator(front, "", '/');
    DescendAllCat([], Split(front, '/'), [""]);
    EmptyPieceStays(DescendAll([], Split(front, '/')));
  }

  /** Joining and then normalising walks the relative path from the base directory. */
  lemma JoinedPathDescends(size: nat, base: string, path: string)
    requires Absolute(base) && JoinPaths(size, base, path).Some?
    ensures var joined := JoinPaths(size, base, path).value;
            Absolute(joined) && Components(joined) == DescendAll(Components(base), Split(path, '/'))
  {
    var joined := JoinPaths(size, base, path).value;
    if base == "/" {
      assert joined[1..] == path;
      EmptyPieceStays([]);
    } else {
      var front := if base[|base| - 1] == '/' then base[1..|base| - 1] else base[1..];
      assert joined[1..] == front + "/" + path;
      SplitAtSeparator(front, path, '/');
      DescendAllCat([], Split(front, '/'), Split(path, '/'));
      if base[|base| - 1] == '/' {
        assert base[1..] == front + "/";
        TrailingSlash(front);
      }
    }
  }

  // ---- Rule selection ----------------------------------------------------------------------

  /** The fields of a rule that selection reads; `resolved` is the link-resolved prefix. */
  datatype IoRule = IoRule(prefix: string, operation: nat, resolved: Option<string>)

  function PrefixMatches(rule: IoRule, path: string): bool {
    if rule.prefix == "*" then path != "" && path[0] == '/' && !("/memfd:" <= path)
    else PrefixCovers(rule.prefix, path) || (rule.resolved.Some? && PrefixCovers(rule.resolved.value, path))
  }

  function Key(rule: IoRule, operation: nat, path: string): Option<nat> {
    if rule.operation == operation && PrefixMatches(rule, path) then Some(|rule.prefix|) else None
  }

  function Keys(rules: seq<IoRule>, operation: nat, path: string): (keys: seq<Option<nat>>)
    ensures |keys| == |rules|
  {
    seq(|rules|, i requires 0 <= i < |rules| => Key(rules[i], operation, path))
  }

  lemma NormalStarts(path: string)
    requires IsNormal(path)
    ensures path != "" && path[0] == '/'
  {
    var stack: Pieces :| Clean(stack) && path == Render(stack);
    if stack != [] {
      RenderedStarts(stack);
    }
  }

  /**
   * What a prefix matches, in components: everything below it, or below what it resolves to; and the
   * wildcard every absolute path that names no memory file.
   */
  lemma MatchesByComponents(rule: IoRule, path: string)
    requires IsNormal(path)
    requires rule.prefix != "*" ==> IsNormal(rule.prefix)
    requires rule.resolved.Some? ==> IsNormal(rule.resolved.value)
    ensures PrefixMatches(rule, path) <==>
              if rule.prefix == "*" then !exists name :: path == "/memfd:" + name
              else Components(rule.prefix) <= Components(path) ||
                   (rule.resolved.Some? && Components(rule.resolved.value) <= Components(path))
  {
    if rule.prefix == "*" {
      NormalStarts(path);
      if "/memfd:" <= path {
        assert path == "/memfd:" + path[7..];
      }
    } else {
      CoversIsComponentPrefix(rule.prefix, path);
      if rule.resolved.Some? {
        CoversIsComponentPrefix(rule.resolved.value, path);
      }
    }
  }

  /** The rule is for the operation and matches. */
  ghost predicate Applies(rule: IoRule, operation: nat, path: string) {
    rule.operation == operation && PrefixMatches(rule, path)
  }

  /** The rule that applies is the one of the longest prefix as written, and the earliest of those. */
  method SelectRule(rules: seq<IoRule>, operation: nat, path: string) returns (best: Option<nat>)
    ensures best == Selection.Best(Keys(rules, operation, path))
    ensures best.Some? <==> exists i :: 0 <= i < |rules| && Applies(rules[i], operation, path)
    ensures best.Some? ==> best.value < |rules| && Applies(rules[best.value], operation, path)
    ensures best.Some? ==> forall i | 0 <= i < |rules| && Applies(rules[i], operation, path) ::
              |rules[i].prefix| < |rules[best.value].prefix| || (|rules[i].prefix| == |rules[best.value].prefix| && best.value <= i)
  {
    hide PrefixMatches, PrefixCovers;
    ghost var keys := Keys(rules, operation, path);
    Selection.NoneBest(keys);
    hide Selection.Best;
    best := None;
    var index := 0;
    while index < |rules|
      invariant index <= |rules|
      invariant best == Selection.Best(keys[..index])
    {
      var candidate := rules[index];
      Selection.BestStep(keys, index);
      if candidate.operation == operation && PrefixMatches(candidate, path) {
        if best.None? || |candidate.prefix| > |rules[best.value].prefix| {
          best := Some(index);
        }
      }
      index := index + 1;
    }
    assert keys[..|rules|] == keys;
    Selection.BestIsEarliestMaximum(keys);
    assert forall i | 0 <= i < |rules| :: keys[i] == if Applies(rules[i], operation, path) then Some(|rules[i].prefix|) else None;
    if best.Some? {
      assert Selection.IsEarliestMaximum(keys, best.value);
    }
  }

  /** Prefixes of one path are ordered alike by text length and by depth. */
  lemma DeeperIsLonger(a: Pieces, b: Pieces, path: Pieces)
    requires Clean(a) && Clean(b) && a <= path && b <= path
    ensures |Render(a)| <= |Render(b)| <==> |a| <= |b|
    ensures |Render(a)| == |Render(b)| <==> a == b
  {
    assert a == path[..|a|] && b == path[..|b|];
    if |a| == |b| {
    } else if |a| < |b| {
      LongerRender(a, b);
    } else {
      LongerRender(b, a);
    }
  }

  lemma LongerRender(a: Pieces, b: Pieces)
    requires Clean(a) && Clean(b) && a <= b
    ensures |a| < |b| ==> |Render(a)| < |Render(b)|
  {
    if |a| < |b| {
      var tail := b[|a|..];
      assert b == a + tail;
      RenderedCat(a, tail);
      assert Plain(b[|b| - 1]);
      RenderedCat(tail[..|tail| - 1], [tail[|tail| - 1]]);
      assert tail == tail[..|tail| - 1] + [tail[|tail| - 1]];
      assert [tail[|tail| - 1]][..0] == [];
      assert |Rendered(tail)| >= 2;
    }
  }

  /**
   * Without links and wildcards the selected rule is the deepest one whose components begin the
   * path's; rules as deep are written identically, and the earliest of them wins.
   */
  lemma SelectedIsDeepest(rules: seq<IoRule>, operation: nat, path: string, i: nat, j: nat)
    requires IsNormal(path)
    requires forall k | 0 <= k < |rules| :: IsNormal(rules[k].prefix) && rules[k].prefix != "*" && rules[k].resolved.None?
    requires Selection.Best(Keys(rules, operation, path)) == Some(i)
    requires j < |rules| && rules[j].operation == operation && Components(rules[j].prefix) <= Components(path)
    ensures i < |rules| && rules[i].operation == operation && Components(rules[i].prefix) <= Components(path)
    ensures |Components(rules[j].prefix)| <= |Components(rules[i].prefix)|
    ensures |Components(rules[j].prefix)| == |Components(rules[i].prefix)| ==> rules[j].prefix == rules[i].prefix && i <= j
  {
    hide Render, Components, Selection.Best;
    var keys := Keys(rules, operation, path);
    Selection.BestIsEarliestMaximum(keys);
    assert Selection.IsEarliestMaximum(keys, i);
    CoversIsComponentPrefix(rules[i].prefix, path);
    CoversIsComponentPrefix(rules[j].prefix, path);
    assert keys[j] == Some(|rules[j].prefix|);
    hide PrefixCovers;
    var a: Pieces :| Clean(a) && rules[j].prefix == Render(a);
    var b: Pieces :| Clean(b) && rules[i].prefix == Render(b);
    ComponentsOfRender(a);
    ComponentsOfRender(b);
    DeeperIsLonger(a, b, Components(path));
  }
}
