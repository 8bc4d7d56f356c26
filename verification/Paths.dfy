/**
 * Path strings matched against rules: lexical normalisation in place, and the text tests that
 * decide whether a rule's prefix covers a path.
 */
module Paths {
  import opened CStrings
  import opened TextSplit

  // ---- What a path means -------------------------------------------------------------------

  /** One component of an absolute path applied to the directory reached so far. */
  function Descend(stack: Pieces, piece: string): Pieces {
    if piece == "" || piece == "." then stack
    else if piece == ".." then (if stack == [] then [] else stack[..|stack| - 1])
    else stack + [piece]
  }

  function DescendAll(stack: Pieces, pieces: Pieces): Pieces
    decreases |pieces|
  {
    if pieces == [] then stack else DescendAll(Descend(stack, pieces[0]), pieces[1..])
  }

  ghost predicate Absolute(path: string) {
    path != "" && path[0] == '/'
  }

  /** The components an absolute path resolves to, lexically. */
  function Components(path: string): Pieces {
    DescendAll([], Split(if path == "" then "" else path[1..], '/'))
  }

  function Rendered(stack: Pieces): string {
    if stack == [] then "" else Rendered(stack[..|stack| - 1]) + "/" + stack[|stack| - 1]
  }

  function Render(stack: Pieces): (path: string)
    ensures path != ""
  {
    if stack == [] then "/" else Rendered(stack)
  }

  function Normal(path: string): string
    requires Absolute(path)
  {
    Render(Components(path))
  }

  /** A component a normalised path may have. */
  ghost predicate Plain(piece: string) {
    piece != "" && piece != "." && piece != ".." && '/' !in piece
  }

  ghost predicate Clean(stack: Pieces) {
    forall k | 0 <= k < |stack| :: Plain(stack[k])
  }

  /** A path as chaos_io_normalize_path leaves it. */
  ghost predicate IsNormal(path: string) {
    path != "" && exists stack :: Clean(stack) && path == Render(stack)
  }

  // ---- Laws of the meaning -----------------------------------------------------------------

  lemma {:induction false} DescendAllCat(stack: Pieces, a: Pieces, b: Pieces)
    ensures DescendAll(stack, a + b) == DescendAll(DescendAll(stack, a), b)
    decreases |a|
  {
    if a == [] {
      assert a + b == b;
    } else {
      assert (a + b)[1..] == a[1..] + b;
      DescendAllCat(Descend(stack, a[0]), a[1..], b);
    }
  }

  lemma {:induction false} DescendKeepsClean(stack: Pieces, pieces: Pieces)
    requires Clean(stack) && forall piece | piece in pieces :: '/' !in piece
    ensures Clean(DescendAll(stack, pieces))
    decreases |pieces|
  {
    if pieces != [] {
      DescendKeepsClean(Descend(stack, pieces[0]), pieces[1..]);
    }
  }

  /** One more component behind a path descends from where the path leads. */
  lemma ComponentsSnoc(path: string, piece: string)
    requires Absolute(path) && '/' !in piece
    ensures Components(path + "/" + piece) == Descend(Components(path), piece)
  {
    var rest := path[1..];
    assert (path + "/" + piece)[1..] == rest + ['/'] + piece;
    SplitAtSeparator(rest, piece, '/');
    SplitOnePiece(piece, '/');
    DescendAllCat([], Split(rest, '/'), [piece]);
    assert DescendAll(Components(path), [piece]) == Descend(Components(path), piece);
  }

  /**
   * What components are, piece by piece: the root has none; `..` drops the last one, and nothing at
   * the root; `.` and a doubled or trailing slash change nothing; any other name is one more.
   */
  lemma ComponentsByPiece(path: string, name: string)
    requires Absolute(path) && Plain(name)
    ensures Components("/") == []
    ensures Components(path) == [] ==> Components(path + "/..") == []
    ensures Components(path) != [] ==> Components(path + "/..") == Components(path)[..|Components(path)| - 1]
    ensures Components(path + "/.") == Components(path + "/") == Components(path)
    ensures Components(path + "/" + name) == Components(path) + [name]
  {
    ComponentsSnoc(path, "..");
    ComponentsSnoc(path, ".");
    ComponentsSnoc(path, "");
    ComponentsSnoc(path, name);
    assert path + "/" + ".." == path + "/.." && path + "/" + "." == path + "/." && path + "/" + "" == path + "/";
    assert "/"[1..] == "" && Split("", '/') == [""];
    assert DescendAll([], [""]) == DescendAll([], []);
  }

  lemma ComponentsAreClean(path: string)
    ensures Clean(Components(path))
  {
    var rest := if path == "" then "" else path[1..];
    PiecesHaveNoSeparator(rest, '/');
    DescendKeepsClean([], Split(rest, '/'));
  }

  lemma {:induction false} CleanDescendsWhole(stack: Pieces, clean: Pieces)
    requires Clean(clean)
    ensures DescendAll(stack, clean) == stack + clean
    decreases |clean|
  {
    if clean == [] {
      assert stack + clean == stack;
    } else {
      CleanDescendsWhole(stack + [clean[0]], clean[1..]);
      assert (stack + [clean[0]]) + clean[1..] == stack + clean;
    }
  }

  lemma {:induction false} RenderedIsJoin(stack: Pieces)
    requires stack != []
    ensures Rendered(stack) == "/" + Join(stack, '/')
  {
    hide Rendered, Render, Join;
    var front, last := stack[..|stack| - 1], stack[|stack| - 1];
    assert stack == front + [last];
    RenderSnoc(front, last);
    OnePiece(last);
    if front == [] {
      assert stack == [last];
    } else {
      RenderedIsJoin(front);
      JoinCat(front, [last], '/');
      SlashFirst(Join(front, '/'), last);
    }
  }

  lemma OnePiece(piece: string)
    ensures Rendered([]) + "/" + piece == "/" + piece && Join([piece], '/') == piece
  {
  }

  lemma SlashFirst(front: string, last: string)
    ensures "/" + front + "/" + last == "/" + (front + "/" + last)
  {
  }

  /** Rendering clean components and resolving the text again gives them back. */
  lemma ComponentsOfRender(stack: Pieces)
    requires Clean(stack)
    ensures Absolute(Render(stack)) && Components(Render(stack)) == stack
  {
    if stack == [] {
      assert Split("", '/') == [""];
      assert DescendAll([], [""]) == DescendAll([], []);
    } else {
      RenderedIsJoin(stack);
      assert Render(stack)[1..] == Join(stack, '/');
      SplitJoin(stack, '/');
      CleanDescendsWhole([], stack);
      assert [] + stack == stack;
    }
  }

  /** Normalising yields a normal path with the same meaning, and normal paths are fixed points. */
  lemma NormalIsCanonical(path: string)
    requires Absolute(path)
    ensures Absolute(Normal(path)) && IsNormal(Normal(path))
    ensures Components(Normal(path)) == Components(path)
    ensures Normal(Normal(path)) == Normal(path)
    ensures IsNormal(path) <==> Normal(path) == path
  {
    ComponentsAreClean(path);
    ComponentsOfRender(Components(path));
    if IsNormal(path) {
      var stack :| Clean(stack) && path == Render(stack);
      ComponentsOfRender(stack);
    }
  }

  // ---- Normalisation in place --------------------------------------------------------------

  /** A leading separator adds nothing. */
  lemma SkipSlash(stack: Pieces, rest: string)
    requires rest != "" && rest[0] == '/'
    ensures DescendAll(stack, Split(rest, '/')) == DescendAll(stack, Split(rest[1..], '/'))
  {
    assert Split(rest, '/')[1..] == Split(rest[1..], '/');
  }

  /** One component, up to a separator or the end, descends and leaves the rest. */
  lemma TakePiece(stack: Pieces, rest: string, length: nat)
    requires length <= |rest| && '/' !in rest[..length]
    requires length == |rest| || rest[length] == '/'
    ensures DescendAll(stack, Split(rest, '/')) == DescendAll(Descend(stack, rest[..length]), Split(rest[length..], '/'))
  {
    var piece := rest[..length];
    SplitOnePiece(piece, '/');
    if length == |rest| {
      assert rest == piece && rest[length..] == "";
      assert Split("", '/') == [""];
      var next := Descend(stack, piece);
      assert DescendAll(stack, [piece]) == DescendAll(next, []);
      assert DescendAll(next, [""]) == DescendAll(next, []);
    } else {
      var after := rest[length + 1..];
      assert rest == piece + "/" + after;
      SplitAtSeparator(piece, after, '/');
      SkipSlash(Descend(stack, piece), rest[length..]);
      assert rest[length..][1..] == after;
      assert ([piece] + Split(after, '/'))[1..] == Split(after, '/');
    }
  }

  /** What the part written so far says: `/` alone, or the components, each after a slash. */
  ghost predicate Wrote(buffer: seq<char>, writeAt: nat, stack: Pieces) {
    && 1 <= writeAt <= |buffer|
    && buffer[..writeAt] == Render(stack)
    && Clean(stack) && forall k | 0 <= k < |stack| :: NulFree(stack[k])
  }

  ghost predicate NulFree(piece: string) {
    '\0' !in piece
  }

  lemma RootOnly(stack: Pieces)
    requires Clean(stack)
    ensures |Render(stack)| == 1 <==> stack == []
  {
    if stack != [] {
      assert Plain(stack[|stack| - 1]);
    }
  }

  /** `..` drops the last component by walking back to its slash. */
  method DropLast(path: array<char>, writeAt: nat, ghost stack: Pieces) returns (shorter: nat)
    requires Wrote(path[..], writeAt, stack)
    ensures shorter <= writeAt
    ensures Wrote(path[..], shorter, Descend(stack, ".."))
  {
    shorter := writeAt;
    if writeAt == 1 {
      RootOnly(stack);
      return;
    }
    RootOnly(stack);
    ghost var front, last := stack[..|stack| - 1], stack[|stack| - 1];
    ghost var cut := |Rendered(front)|;
    assert path[..writeAt] == Rendered(front) + "/" + last;
    assert path[cut] == path[..writeAt][cut] == '/';
    assert forall i | cut < i < writeAt :: path[i] == path[..writeAt][i] && path[i] in last;
    assert front == [] ==> cut == 0;
    assert front != [] ==> Render(front) == Rendered(front);
    while shorter > 1 && path[shorter - 1] != '/'
      invariant cut < shorter <= writeAt
    {
      shorter := shorter - 1;
    }
    if shorter > 1 {
      shorter := shorter - 1;
    }
    assert shorter == if front == [] then 1 else cut by {
      if front != [] {
        RenderedLong(front);
      }
    }
    assert path[..shorter] == path[..writeAt][..shorter] == Render(front);
  }

  lemma RenderedLong(stack: Pieces)
    requires stack != []
    ensures |Rendered(stack)| >= 1
  {
  }

  /** The buffer after a memmove towards the front: overlapping ranges copy as if through a buffer. */
  ghost function Moved(buffer: seq<char>, to: nat, start: nat, length: nat): (moved: seq<char>)
    requires to <= start && start + length <= |buffer|
    ensures |moved| == |buffer|
    ensures forall j | 0 <= j < |buffer| :: moved[j] == if to <= j < to + length then buffer[start + (j - to)] else buffer[j]
  {
    seq(|buffer|, j requires 0 <= j < |buffer| => if to <= j < to + length then buffer[start + (j - to)] else buffer[j])
  }

  method MoveDown(path: array<char>, to: nat, start: nat, length: nat)
    requires to <= start && start + length <= path.Length
    modifies path
    ensures path[..] == Moved(old(path[..]), to, start, length)
  {
    forall j | to <= j < to + length {
      path[j] := path[start + (j - to)];
    }
  }

  /** The buffer with a separator behind what is written, unless that is the root alone. */
  ghost function Separated(buffer: seq<char>, writeAt: nat): (separated: seq<char>)
    requires writeAt > 1 ==> writeAt < |buffer|
    ensures |separated| == |buffer|
  {
    if writeAt > 1 then buffer[writeAt := '/'] else buffer
  }

  /** What is written, with its separator, is the directory so far. */
  lemma SeparatedBegins(buffer: seq<char>, writeAt: nat, stack: Pieces)
    requires Wrote(buffer, writeAt, stack) && (writeAt > 1 ==> writeAt < |buffer|)
    ensures var longer := if writeAt > 1 then writeAt + 1 else writeAt;
            longer <= |buffer| && Separated(buffer, writeAt)[..longer] == Rendered(stack) + "/"
    ensures Clean(stack) && forall k | 0 <= k < |stack| :: NulFree(stack[k])
  {
    RootOnly(stack);
    hide Rendered, Clean;
    if writeAt > 1 {
      SlashBehind(buffer, writeAt);
    }
  }

  lemma SlashBehind(buffer: seq<char>, at: nat)
    requires at < |buffer|
    ensures buffer[at := '/'][..at + 1] == buffer[..at] + "/"
  {
  }

  lemma SlicesMeet(buffer: seq<char>, middle: nat, end: nat, front: string, back: string)
    requires middle <= end <= |buffer| && buffer[..middle] == front && buffer[middle..end] == back
    ensures buffer[..end] == front + back
  {
  }

  lemma WroteOne(buffer: seq<char>, middle: nat, longer: nat, stack: Pieces, piece: string)
    requires Clean(stack) && Plain(piece) && NulFree(piece) && forall k | 0 <= k < |stack| :: NulFree(stack[k])
    requires middle <= longer <= |buffer| && buffer[..middle] == Rendered(stack) + "/" && buffer[middle..longer] == piece
    ensures Wrote(buffer, longer, stack + [piece])
  {
    hide Render, Rendered, Clean, NulFree;
    RenderSnoc(stack, piece);
    CleanSnoc(stack, piece);
    SlicesMeet(buffer, middle, longer, Rendered(stack) + "/", piece);
  }

  lemma CleanSnoc(stack: Pieces, piece: string)
    requires Clean(stack) && Plain(piece) && NulFree(piece) && forall k | 0 <= k < |stack| :: NulFree(stack[k])
    ensures var longer := stack + [piece]; Clean(longer) && forall k | 0 <= k < |longer| :: NulFree(longer[k])
  {
    hide Plain, NulFree;
  }

  lemma MovedParts(buffer: seq<char>, to: nat, start: nat, length: nat)
    requires to <= start && start + length <= |buffer|
    ensures var moved := Moved(buffer, to, start, length);
            && moved[..to] == buffer[..to] && moved[to..to + length] == buffer[start..start + length]
            && forall i | to + length <= i < |buffer| :: moved[i] == buffer[i]
  {
  }

  lemma SeparatedKeeps(buffer: seq<char>, writeAt: nat, start: nat, length: nat)
    requires if writeAt > 1 then writeAt < start else start >= 1
    requires start + length <= |buffer| && (writeAt > 1 ==> writeAt < |buffer|)
    ensures Separated(buffer, writeAt)[start..start + length] == buffer[start..start + length]
    ensures forall i | writeAt < i < |buffer| :: Separated(buffer, writeAt)[i] == buffer[i]
    ensures writeAt <= 1 ==> Separated(buffer, writeAt) == buffer
  {
  }

  /** Separator and component together: what they make of the buffer. */
  lemma Appended(buffer: seq<char>, writeAt: nat, start: nat, length: nat, piece: string, stack: Pieces)
    requires Wrote(buffer, writeAt, stack) && Plain(piece) && NulFree(piece)
    requires start + length <= |buffer| && buffer[start..start + length] == piece
    requires if writeAt > 1 then writeAt < start else start >= 1
    ensures writeAt >= 1 && (writeAt > 1 ==> writeAt < |buffer|)
    ensures var middle := if writeAt > 1 then writeAt + 1 else writeAt;
            var after := Moved(Separated(buffer, writeAt), middle, start, length);
            && Wrote(after, middle + length, stack + [piece])
            && forall i | middle + length <= i < |buffer| :: after[i] == buffer[i]
  {
    var middle := if writeAt > 1 then writeAt + 1 else writeAt;
    SeparatedBegins(buffer, writeAt, stack);
    SeparatedKeeps(buffer, writeAt, start, length);
    MovedParts(Separated(buffer, writeAt), middle, start, length);
    hide Separated, Moved, Rendered, Plain, NulFree;
    WroteOne(Moved(Separated(buffer, writeAt), middle, start, length), middle, middle + length, stack, piece);
  }

  /** Writes the separator, unless what is written is the root alone. */
  method Separate(path: array<char>, writeAt: nat) returns (middle: nat)
    requires writeAt > 1 ==> writeAt < path.Length
    modifies path
    ensures middle == if writeAt > 1 then writeAt + 1 else writeAt
    ensures path[..] == Separated(old(path[..]), writeAt)
  {
    middle := writeAt;
    if middle > 1 {
      path[middle] := '/';
      middle := middle + 1;
    }
  }

  /** Appends a component, which lies behind the write cursor, and its separator. */
  method Append(path: array<char>, writeAt: nat, start: nat, length: nat, ghost piece: string, ghost stack: Pieces)
    returns (longer: nat)
    requires Wrote(path[..], writeAt, stack)
    requires start + length <= path.Length && path[..][start..start + length] == piece
    requires if writeAt > 1 then writeAt < start else start >= 1
    requires Plain(piece) && NulFree(piece)
    modifies path
    ensures longer <= start + length
    ensures Wrote(path[..], longer, stack + [piece])
    ensures forall i | longer <= i < path.Length :: path[i] == old(path[i])
  {
    Appended(path[..], writeAt, start, length, piece, stack);
    hide Wrote, Plain, NulFree, Moved, Separated;
    longer := Separate(path, writeAt);
    MoveDown(path, longer, start, length);
    longer := longer + length;
  }

  lemma RenderSnoc(stack: Pieces, piece: string)
    ensures Render(stack + [piece]) == Rendered(stack + [piece]) == Rendered(stack) + "/" + piece
  {
    assert (stack + [piece])[..|stack|] == stack;
  }

  /** Finds the next component: skips separators, then runs to a separator or the end. */
  method ScanPiece(path: array<char>, from: nat, ghost n: nat) returns (start: nat, end: nat)
    requires from < n < path.Length && path[n] == '\0' && forall i | from <= i < n :: path[i] != '\0'
    ensures from <= start <= end <= n && from < end
    ensures forall i | from <= i < start :: path[i] == '/'
    ensures forall i | start <= i < end :: path[i] != '/' && path[i] != '\0'
    ensures path[end] == '/' || end == n
  {
    start := from;
    while path[start] == '/'
      invariant from <= start <= n
      invariant forall i | from <= i < start :: path[i] == '/'
      decreases n - start
    {
      start := start + 1;
    }
    end := start;
    while path[end] != '\0' && path[end] != '/'
      invariant start <= end <= n
      invariant forall i | start <= i < end :: path[i] != '/' && path[i] != '\0'
      decreases n - end
    {
      end := end + 1;
    }
  }

  /** Consuming the separators and the component in front of `end` is one descent. */
  lemma {:induction false} ScannedPiece(stack: Pieces, text: string, from: nat, start: nat, end: nat)
    requires from <= start <= end <= |text|
    requires forall i | from <= i < start :: text[i] == '/'
    requires '/' !in text[start..end] && (end == |text| || text[end] == '/')
    ensures DescendAll(stack, Split(text[from..], '/')) ==
            DescendAll(Descend(stack, text[start..end]), Split(text[end..], '/'))
    decreases start - from
  {
    hide DescendAll, Descend, Split;
    if from < start {
      SkipSlash(stack, text[from..]);
      assert text[from..][1..] == text[from + 1..];
      ScannedPiece(stack, text, from + 1, start, end);
    } else {
      assert text[start..][..end - start] == text[start..end];
      assert text[start..][end - start..] == text[end..];
      TakePiece(stack, text[start..], end - start);
    }
  }

  /** The unread text still stands, and the buffer beyond the text is untouched. */
  ghost predicate Unread(buffer: seq<char>, origin: seq<char>, text: string, readAt: nat) {
    && readAt <= |text| < |buffer| == |origin|
    && (forall i | readAt <= i < |text| :: buffer[i] == text[i] && text[i] != '\0')
    && buffer[|text|] == '\0'
    && (forall i | |text| <= i < |buffer| :: buffer[i] == origin[i])
  }

  /** Where the two cursors stand: what is written, what is unread, and what they mean together. */
  ghost predicate Cursors(buffer: seq<char>, origin: seq<char>, text: string, readAt: nat, writeAt: nat, stack: Pieces) {
    && writeAt <= readAt
    && Unread(buffer, origin, text, readAt)
    && Wrote(buffer, writeAt, stack)
    && (readAt == 1 || readAt == |text| || text[readAt] == '/')
    && text != "" && DescendAll(stack, Split(text[readAt..], '/')) == Components(text)
  }

  lemma CursorsStart(buffer: seq<char>, text: string)
    requires '\0' in buffer && buffer[0] == '/' && text == TextOf(buffer)
    ensures Cursors(buffer, buffer, text, 1, 1, [])
  {
    TextEnds(buffer);
    assert buffer[..1] == Render([]);
    forall i | 0 <= i < |text| ensures buffer[i] == text[i] && text[i] != '\0' {
      assert buffer[..|text|][i] == buffer[i];
    }
  }

  /** Applies a component to what is written: skip it, drop the last, or append it. */
  method Apply(path: array<char>, writeAt: nat, start: nat, end: nat, ghost piece: string, ghost stack: Pieces)
    returns (writeAt': nat)
    requires Wrote(path[..], writeAt, stack)
    requires start <= end <= path.Length && path[start..end] == piece
    requires writeAt <= start && (writeAt > 1 ==> writeAt < start)
    requires '/' !in piece && NulFree(piece)
    modifies path
    ensures writeAt' <= end
    ensures Wrote(path[..], writeAt', Descend(stack, piece))
    ensures forall i | end <= i < path.Length :: path[i] == old(path[i])
  {
    var length := end - start;
    writeAt' := writeAt;
    if length == 0 || (length == 1 && path[start] == '.') {
      assert piece == "" || piece == ".";
    } else if length == 2 && path[start] == '.' && path[start + 1] == '.' {
      assert piece == "..";
      writeAt' := DropLast(path, writeAt, stack);
    } else {
      assert length == 1 ==> piece[0] != '.';
      assert length == 2 ==> piece[0] != '.' || piece[1] != '.';
      writeAt' := Append(path, writeAt, start, length, piece, stack);
    }
  }

  /** A scanned component of the buffer is the text's, and descending it accounts for it. */
  lemma ScannedText(buffer: seq<char>, origin: seq<char>, text: string, readAt: nat, stack: Pieces, start: nat, end: nat)
    requires Unread(buffer, origin, text, readAt)
    requires readAt <= start <= end <= |text| && (end == |text| || buffer[end] == '/')
    requires forall i | readAt <= i < start :: buffer[i] == '/'
    requires forall i | start <= i < end :: buffer[i] != '/' && buffer[i] != '\0'
    ensures buffer[start..end] == text[start..end] && '/' !in text[start..end] && NulFree(text[start..end])
    ensures DescendAll(stack, Split(text[readAt..], '/')) ==
            DescendAll(Descend(stack, text[start..end]), Split(text[end..], '/'))
    ensures end == |text| || text[end] == '/'
  {
    assert buffer[start..end] == text[start..end];
    ScannedPiece(stack, text, readAt, start, end);
  }

  /** One round of the loop: the next component is found and applied. */
  method Consume(path: array<char>, readAt: nat, writeAt: nat, ghost origin: seq<char>, ghost text: string, ghost stack: Pieces)
    returns (readAt': nat, writeAt': nat, ghost stack': Pieces)
    requires Cursors(path[..], origin, text, readAt, writeAt, stack) && path[readAt] != '\0'
    modifies path
    ensures Cursors(path[..], origin, text, readAt', writeAt', stack') && readAt < readAt'
  {
    var start, end := ScanPiece(path, readAt, |text|);
    ghost var piece := text[start..end];
    ScannedText(path[..], origin, text, readAt, stack, start, end);
    assert path[start..end] == path[..][start..end] == piece;
    writeAt' := Apply(path, writeAt, start, end, piece, stack);
    readAt', stack' := end, Descend(stack, piece);
    assert Unread(path[..], origin, text, end);
  }

  /** Ends the text after what is written. */
  method Terminate(path: array<char>, readAt: nat, writeAt: nat, ghost origin: seq<char>, ghost text: string, ghost stack: Pieces)
    requires Cursors(path[..], origin, text, readAt, writeAt, stack) && path[readAt] == '\0'
    modifies path
    ensures '\0' in path[..] && TextOf(path[..]) == Render(Components(text)) && |Render(Components(text))| <= |text|
    ensures path[|text| + 1..] == origin[|text| + 1..]
  {
    assert text[readAt..] == "" && Split("", '/') == [""];
    assert DescendAll(stack, [""]) == DescendAll(stack, []) == stack;
    ghost var rendered := path[..writeAt];
    RenderHasNoNul(stack);
    path[writeAt] := '\0';
    assert path[..writeAt] == rendered;
    TextUpTo(path[..], writeAt);
    assert path[..][writeAt] == '\0';
  }

  method NormalizePath(path: array<char>)
    requires '\0' in path[..]
    modifies path
    ensures '\0' in path[..]
    ensures var text := old(TextOf(path[..]));
            TextOf(path[..]) == if Absolute(text) then Normal(text) else text
    ensures var n := |old(TextOf(path[..]))|;
            |TextOf(path[..])| <= n < path.Length && path[n + 1..] == old(path[n + 1..])
  {
    TextEnds(path[..]);
    ghost var origin := path[..];
    ghost var text := TextOf(origin);
    if path[0] != '/' {
      return;
    }
    var readAt: nat, writeAt: nat := 1, 1;
    ghost var stack: Pieces := [];
    CursorsStart(origin, text);
    while path[readAt] != '\0'
      invariant Cursors(path[..], origin, text, readAt, writeAt, stack)
      decreases |text| - readAt
    {
      readAt, writeAt, stack := Consume(path, readAt, writeAt, origin, text, stack);
    }
    Terminate(path, readAt, writeAt, origin, text, stack);
  }

  lemma {:induction false} RenderHasNoNul(stack: Pieces)
    requires forall k | 0 <= k < |stack| :: NulFree(stack[k])
    ensures '\0' !in Render(stack) && '\0' !in Rendered(stack)
  {
    if stack != [] {
      RenderHasNoNul(stack[..|stack| - 1]);
    }
  }
}
