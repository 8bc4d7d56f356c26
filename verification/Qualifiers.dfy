/**
 * Rule qualifiers: the words `@first=N`, `@from=T`, `@until=T`, `@size>N` and `@size<N` behind a
 * rule, and the parser that strips them off a line from right to left.
 */
module Qualifiers {
  import opened Decimals
  import opened Options

  /** A rule's qualifiers; zero means no limit, no bound. */
  datatype Policy = Policy(first: nat, from: nat, until: nat, above: Option<nat>, below: Option<nat>)

  const NO_POLICY := Policy(0, 0, 0, None, None)

  datatype Kind = First | From | Until | Above | Below

  datatype Qualifier = Qualifier(kind: Kind, amount: nat)

  function Keyword(kind: Kind): string {
    match kind
    case First => "@first="
    case From => "@from="
    case Until => "@until="
    case Above => "@size>"
    case Below => "@size<"
  }

  // ---- One word ----------------------------------------------------------------------------

  const MAX_DIGITS: nat := 18

  predicate IsNumber(text: string) {
    1 <= |text| <= MAX_DIGITS && AllDigits(text)
  }

  function ParseNumber(text: string): Option<nat> {
    if IsNumber(text) then Some(Value(text)) else None
  }

  predicate Allowed(q: Qualifier) {
    q.kind.First? ==> q.amount > 0
  }

  /** The qualifier of one kind that a word spells, if it does. */
  function Spelled(kind: Kind, word: string): Option<Qualifier> {
    if Keyword(kind) <= word then
      var amount := ParseNumber(word[|Keyword(kind)|..]);
      if amount.Some? && Allowed(Qualifier(kind, amount.value)) then Some(Qualifier(kind, amount.value)) else None
    else None
  }

  function ParseWord(word: string): Option<Qualifier> {
    if Spelled(First, word).Some? then Spelled(First, word)
    else if Spelled(From, word).Some? then Spelled(From, word)
    else if Spelled(Until, word).Some? then Spelled(Until, word)
    else if Spelled(Above, word).Some? then Spelled(Above, word)
    else Spelled(Below, word)
  }

  lemma KeywordsDiffer(word: string, a: Kind, b: Kind)
    requires Keyword(a) <= word && Keyword(b) <= word
    ensures a == b
  {
    assert word[1] == Keyword(a)[1] == Keyword(b)[1];
    assert word[2] == Keyword(a)[2] == Keyword(b)[2];
    assert word[5] == Keyword(a)[5] == Keyword(b)[5];
  }

  lemma SpelledFirst(word: string, kind: Kind)
    requires Keyword(kind) <= word
    ensures ParseWord(word) == Spelled(kind, word)
  {
    hide Keyword;
    forall other | other != kind ensures Spelled(other, word).None? {
      if Keyword(other) <= word {
        KeywordsDiffer(word, other, kind);
      }
    }
  }

  /** A word is a qualifier exactly when it is its keyword and a number of 1 to 18 digits, not `@first=0`. */
  lemma WordGrammar(word: string, q: Qualifier)
    ensures ParseWord(word) == Some(q) <==>
            exists digits :: IsNumber(digits) && word == Keyword(q.kind) + digits && Value(digits) == q.amount && Allowed(q)
  {
    hide Keyword;
    if ParseWord(word) == Some(q) {
      assert Spelled(q.kind, word) == Some(q);
      var digits := word[|Keyword(q.kind)|..];
      assert word == Keyword(q.kind) + digits;
    }
    forall digits | IsNumber(digits) && word == Keyword(q.kind) + digits && Value(digits) == q.amount && Allowed(q)
      ensures ParseWord(word) == Some(q)
    {
      assert word[|Keyword(q.kind)|..] == digits;
      SpelledFirst(word, q.kind);
    }
  }

  /** A qualifier the parser can read back. */
  ghost predicate Renderable(q: Qualifier) {
    Allowed(q) && q.amount < Pow10(MAX_DIGITS)
  }

  function Rendered(q: Qualifier): string {
    Keyword(q.kind) + Digits(q.amount)
  }

  lemma ParsesItsRendering(q: Qualifier)
    requires Renderable(q)
    ensures ParseWord(Rendered(q)) == Some(q)
  {
    var digits := Digits(q.amount);
    DigitsLength(q.amount, MAX_DIGITS);
    ValueOfDigits(q.amount);
    assert IsNumber(digits) && Rendered(q) == Keyword(q.kind) + digits;
    WordGrammar(Rendered(q), q);
  }

  // ---- All words ---------------------------------------------------------------------------

  function Apply(policy: Policy, q: Qualifier): Policy {
    match q.kind
    case First => policy.(first := q.amount)
    case From => policy.(from := q.amount)
    case Until => policy.(until := q.amount)
    case Above => policy.(above := Some(q.amount))
    case Below => policy.(below := Some(q.amount))
  }

  /** Applies qualifiers written left to right in the parser's order, the rightmost first. */
  function ApplyAll(policy: Policy, qs: seq<Qualifier>): Policy {
    if qs == [] then policy else Apply(ApplyAll(policy, qs[1..]), qs[0])
  }

  /** The leftmost amount of a kind. */
  function Leftmost(qs: seq<Qualifier>, kind: Kind): Option<nat> {
    if qs == [] then None else if qs[0].kind == kind then Some(qs[0].amount) else Leftmost(qs[1..], kind)
  }

  function OrZero(amount: Option<nat>): nat {
    if amount.Some? then amount.value else 0
  }

  /** A repeated qualifier resolves to its leftmost occurrence. */
  lemma {:induction false} LeftmostWins(qs: seq<Qualifier>)
    ensures ApplyAll(NO_POLICY, qs) ==
            Policy(OrZero(Leftmost(qs, First)), OrZero(Leftmost(qs, From)), OrZero(Leftmost(qs, Until)),
                   Leftmost(qs, Above), Leftmost(qs, Below))
  {
    if qs != [] {
      LeftmostWins(qs[1..]);
    }
  }

  /** The qualifiers a policy is written with. */
  function QualifiersOf(policy: Policy): seq<Qualifier> {
    (if policy.first == 0 then [] else [Qualifier(First, policy.first)]) +
    (if policy.from == 0 then [] else [Qualifier(From, policy.from)]) +
    (if policy.until == 0 then [] else [Qualifier(Until, policy.until)]) +
    (if policy.above.None? then [] else [Qualifier(Above, policy.above.value)]) +
    (if policy.below.None? then [] else [Qualifier(Below, policy.below.value)])
  }

  lemma {:induction false} ApplyAllCat(policy: Policy, a: seq<Qualifier>, b: seq<Qualifier>)
    ensures ApplyAll(policy, a + b) == ApplyAll(ApplyAll(policy, b), a)
  {
    if a == [] {
      assert a + b == b;
    } else {
      assert (a + b)[1..] == a[1..] + b;
      ApplyAllCat(policy, a[1..], b);
    }
  }

  lemma QualifiersMakeThePolicy(policy: Policy)
    ensures ApplyAll(NO_POLICY, QualifiersOf(policy)) == policy
  {
    var first := if policy.first == 0 then [] else [Qualifier(First, policy.first)];
    var from := if policy.from == 0 then [] else [Qualifier(From, policy.from)];
    var until := if policy.until == 0 then [] else [Qualifier(Until, policy.until)];
    var above := if policy.above.None? then [] else [Qualifier(Above, policy.above.value)];
    var below := if policy.below.None? then [] else [Qualifier(Below, policy.below.value)];
    ApplyAllCat(NO_POLICY, first + from + until + above, below);
    ApplyAllCat(ApplyAll(NO_POLICY, below), first + from + until, above);
    ApplyAllCat(ApplyAll(ApplyAll(NO_POLICY, below), above), first + from, until);
    ApplyAllCat(ApplyAll(ApplyAll(ApplyAll(NO_POLICY, below), above), until), first, from);
  }

  /** Until must lie after from when both are given. */
  predicate WindowValid(policy: Policy) {
    policy.from == 0 || policy.until == 0 || policy.until > policy.from
  }

  // ---- The scan ----------------------------------------------------------------------------

  predicate Separator(c: char) {
    c == ' ' || c == '\t'
  }

  predicate Blank(c: char) {
    Separator(c) || c == '\r'
  }

  function Trim(text: string): (trimmed: string)
    ensures trimmed <= text
    ensures trimmed == "" || !Blank(trimmed[|trimmed| - 1])
    ensures forall i | |trimmed| <= i < |text| :: Blank(text[i])
  {
    if text != "" && Blank(text[|text| - 1]) then Trim(text[..|text| - 1]) else text
  }

  /** Where the last word of a text starts: behind its last separator. */
  function LastWord(text: string): (start: nat)
    ensures start <= |text|
    ensures start > 0 ==> Separator(text[start - 1])
    ensures forall i | start <= i < |text| :: !Separator(text[i])
  {
    if text == "" || Separator(text[|text| - 1]) then |text| else LastWord(text[..|text| - 1])
  }

  /** Whether the scan stops at a trimmed text: nothing, no `@` word, or a word at the line's start. */
  predicate StopsAt(trimmed: string) {
    var start := LastWord(trimmed);
    start == |trimmed| || trimmed[start] != '@' || start == 0
  }

  datatype Outcome = Malformed | Done(cut: Option<nat>, policy: Policy)

  /** The scan of a text from its end, with the cut and the policy found behind it. */
  function Scan(text: string, cut: Option<nat>, policy: Policy): Outcome
    decreases |text|
  {
    var trimmed := Trim(text);
    if StopsAt(trimmed) then Done(cut, policy)
    else
      var start := LastWord(trimmed);
      match ParseWord(trimmed[start..])
      case None => Malformed
      case Some(q) => Scan(trimmed[..start], Some(start), Apply(policy, q))
  }

  /** A scan that ends well either took no word or cuts where the leftmost word it took began. */
  lemma {:induction false} ScanCuts(text: string, cut: Option<nat>, policy: Policy)
    ensures var outcome := Scan(text, cut, policy);
            || outcome.Malformed?
            || outcome == Done(cut, policy)
            || (outcome.cut.Some? && outcome.cut.value < |text|)
    decreases |text|
  {
    hide ParseWord, Apply;
    var trimmed := Trim(text);
    if !StopsAt(trimmed) {
      var start := LastWord(trimmed);
      var q := ParseWord(trimmed[start..]);
      if q.Some? {
        ScanCuts(trimmed[..start], Some(start), Apply(policy, q.value));
      }
    }
  }

  function BeforeComment(text: string): (body: string)
    ensures body <= text
    ensures '#' !in body
    ensures |body| < |text| ==> text[|body|] == '#'
  {
    if text == "" || text[0] == '#' then "" else [text[0]] + BeforeComment(text[1..])
  }

  function Extracted(text: string): Outcome {
    Scan(BeforeComment(text), None, NO_POLICY)
  }

  // ---- What the scan means -----------------------------------------------------------------

  /** A qualifier word and the blanks before it. */
  datatype Item = Item(gap: string, word: string)

  ghost predicate AllBlank(text: string) {
    forall i | 0 <= i < |text| :: Blank(text[i])
  }

  ghost predicate IsItem(item: Item) {
    && item.gap != "" && AllBlank(item.gap) && Separator(item.gap[|item.gap| - 1])
    && item.word != "" && item.word[0] == '@' && item.word[|item.word| - 1] != '\r'
    && forall i | 0 <= i < |item.word| :: !Separator(item.word[i])
  }

  ghost predicate IsItems(items: seq<Item>) {
    forall i | 0 <= i < |items| :: IsItem(items[i])
  }

  /** A rule does not end in a blank, and its last word is no qualifier. */
  ghost predicate IsRule(rule: string) {
    Trim(rule) == rule && StopsAt(rule)
  }

  function Text(items: seq<Item>): string {
    if items == [] then ""
    else
      var last := items[|items| - 1];
      Text(items[..|items| - 1]) + last.gap + last.word
  }

  /** The body of a line: a rule, qualifier words, trailing blanks. */
  ghost predicate Layout(body: string, rule: string, items: seq<Item>, trailing: string) {
    IsRule(rule) && IsItems(items) && AllBlank(trailing) && body == rule + Text(items) + trailing
  }

  /** The qualifiers the words spell; nothing when one spells none. */
  function Parsed(items: seq<Item>): (qs: Option<seq<Qualifier>>)
    ensures qs.Some? ==> |qs.value| == |items|
  {
    if items == [] then Some([])
    else
      var init := Parsed(items[..|items| - 1]);
      var last := ParseWord(items[|items| - 1].word);
      if init.Some? && last.Some? then Some(init.value + [last.value]) else None
  }

  lemma {:induction false} TrimDropsBlanks(text: string, trailing: string)
    requires AllBlank(trailing) && (text == "" || !Blank(text[|text| - 1]))
    ensures Trim(text + trailing) == text
  {
    var whole := text + trailing;
    if trailing == "" {
      assert whole == text;
    } else {
      assert whole[..|whole| - 1] == text + trailing[..|trailing| - 1];
      TrimDropsBlanks(text, trailing[..|trailing| - 1]);
    }
  }

  lemma {:induction false} LastWordIs(front: string, word: string)
    requires front != "" && Separator(front[|front| - 1]) && forall i | 0 <= i < |word| :: !Separator(word[i])
    ensures LastWord(front + word) == |front|
  {
    var whole := front + word;
    if word == "" {
      assert whole == front;
    } else {
      assert whole[..|whole| - 1] == front + word[..|word| - 1];
      LastWordIs(front, word[..|word| - 1]);
    }
  }

  /** The scan takes off the last item of a layout. */
  lemma ScanTakesItem(front: string, item: Item, trailing: string, cut: Option<nat>, policy: Policy)
    requires IsItem(item) && AllBlank(trailing)
    ensures Scan(front + item.gap + item.word + trailing, cut, policy) ==
            match ParseWord(item.word)
            case None => Malformed
            case Some(q) => Scan(front + item.gap, Some(|front + item.gap|), Apply(policy, q))
  {
    var before := front + item.gap;
    var trimmed := before + item.word;
    assert before[|before| - 1] == item.gap[|item.gap| - 1];
    assert trimmed[|trimmed| - 1] == item.word[|item.word| - 1];
    TrimDropsBlanks(trimmed, trailing);
    LastWordIs(before, item.word);
    assert trimmed[|before|] == item.word[0];
    assert trimmed[|before|..] == item.word && trimmed[..|before|] == before;
  }

  /**
   * The scan of a line, by its layout: one malformed word fails it; otherwise the line is cut at
   * the leftmost qualifier, and all of them are applied.
   */
  lemma {:induction false} LayoutDecides(body: string, rule: string, items: seq<Item>, trailing: string,
                                         cut: Option<nat>, policy: Policy)
    requires Layout(body, rule, items, trailing)
    ensures Scan(body, cut, policy) == Decided(rule, items, cut, policy)
    decreases |items|
  {
    hide ParseWord, Apply, Trim, StopsAt, Scan, LastWord;
    if items == [] {
      RuleStops(rule, trailing, cut, policy);
      assert body == rule + trailing;
    } else {
      var init, last := items[..|items| - 1], items[|items| - 1];
      var front := rule + Text(init);
      assert body == front + last.gap + last.word + trailing;
      ScanTakesItem(front, last, trailing, cut, policy);
      var parsed := ParseWord(last.word);
      if parsed.Some? {
        LayoutDecides(front + last.gap, rule, init, last.gap, Some(|front + last.gap|), Apply(policy, parsed.value));
        if Parsed(init).Some? {
          ApplyAllCat(policy, Parsed(init).value, [parsed.value]);
        }
      }
    }
  }

  function Decided(rule: string, items: seq<Item>, cut: Option<nat>, policy: Policy): Outcome {
    match Parsed(items)
    case None => Malformed
    case Some(qs) => Done(if items == [] then cut else Some(|rule| + |items[0].gap|), ApplyAll(policy, qs))
  }

  lemma RuleStops(rule: string, trailing: string, cut: Option<nat>, policy: Policy)
    requires IsRule(rule) && AllBlank(trailing)
    ensures Scan(rule + trailing, cut, policy) == Done(cut, policy)
  {
    TrimDropsBlanks(rule, trailing);
  }

  /** Every body has a layout. */
  lemma {:induction false} EveryBodyHasALayout(body: string) returns (rule: string, items: seq<Item>, trailing: string)
    ensures Layout(body, rule, items, trailing)
    decreases |body|
  {
    hide IsItem, Layout;
    var trimmed := Trim(body);
    trailing := body[|trimmed|..];
    assert body == trimmed + trailing;
    if StopsAt(trimmed) {
      RuleAlone(trimmed, trailing);
      rule, items := trimmed, [];
    } else {
      var start := LastWord(trimmed);
      var front, word := trimmed[..start], trimmed[start..];
      assert trimmed == front + word;
      var inner, gap;
      rule, inner, gap := EveryBodyHasALayout(front);
      LastWordIsItem(trimmed, rule, inner, gap);
      items := inner + [Item(gap, word)];
      LayoutGrows(front, rule, inner, gap, word, trailing);
    }
  }

  lemma RuleAlone(rule: string, trailing: string)
    requires (rule == "" || !Blank(rule[|rule| - 1])) && StopsAt(rule) && AllBlank(trailing)
    ensures Layout(rule + trailing, rule, [], trailing)
  {
    TrimDropsBlanks(rule, "");
    assert rule + "" == rule;
    assert rule + Text([]) == rule;
  }

  /** A trimmed text the scan does not stop at ends in a qualifier word after blanks. */
  lemma LastWordIsItem(trimmed: string, rule: string, items: seq<Item>, gap: string)
    requires !StopsAt(trimmed) && !Blank(trimmed[|trimmed| - 1])
    requires Layout(trimmed[..LastWord(trimmed)], rule, items, gap)
    ensures IsItem(Item(gap, trimmed[LastWord(trimmed)..]))
  {
    hide Layout, Trim, LastWord;
    var start := LastWord(trimmed);
    LayoutEndsInGap(trimmed[..start], rule, items, gap);
    var word := trimmed[start..];
    assert word[|word| - 1] == trimmed[|trimmed| - 1];
  }

  lemma LayoutGrows(front: string, rule: string, items: seq<Item>, gap: string, word: string, trailing: string)
    requires Layout(front, rule, items, gap) && IsItem(Item(gap, word)) && AllBlank(trailing)
    ensures Layout(front + word + trailing, rule, items + [Item(gap, word)], trailing)
  {
    hide StopsAt, Trim;
    var grown := items + [Item(gap, word)];
    assert grown[..|items|] == items;
    assert rule + Text(grown) == rule + Text(items) + gap + word;
  }

  lemma RuleTextEnds(rule: string, items: seq<Item>)
    requires IsRule(rule) && IsItems(items)
    ensures var text := rule + Text(items); text == "" || !Blank(text[|text| - 1])
  {
    if items != [] {
      var word := items[|items| - 1].word;
      var text := rule + Text(items);
      assert text[|text| - 1] == word[|word| - 1];
    }
  }

  /** A body that ends in a separator has trailing blanks that do. */
  lemma LayoutEndsInGap(body: string, rule: string, items: seq<Item>, trailing: string)
    requires Layout(body, rule, items, trailing) && body != "" && Separator(body[|body| - 1])
    ensures AllBlank(trailing) && trailing != "" && trailing[|trailing| - 1] == body[|body| - 1]
  {
    assert trailing == "" ==> body == rule + Text(items);
    RuleTextEnds(rule, items);
  }

  // ---- Round trip --------------------------------------------------------------------------

  function Spaced(qs: seq<Qualifier>): (items: seq<Item>)
    ensures |items| == |qs|
    ensures forall i | 0 <= i < |qs| :: items[i] == Item(" ", Rendered(qs[i]))
  {
    seq(|qs|, i requires 0 <= i < |qs| => Item(" ", Rendered(qs[i])))
  }

  lemma RenderedIsItem(q: Qualifier, gap: string)
    requires gap != "" && AllBlank(gap) && Separator(gap[|gap| - 1])
    ensures IsItem(Item(gap, Rendered(q))) && '#' !in Rendered(q)
  {
    var word, key, digits := Rendered(q), Keyword(q.kind), Digits(q.amount);
    forall i | 0 <= i < |word| ensures !Separator(word[i]) && word[i] != '#' {
      assert word[i] == if i < |key| then key[i] else digits[i - |key|];
    }
    assert word[|word| - 1] == digits[|digits| - 1];
  }

  ghost predicate Spells(item: Item, q: Qualifier) {
    item.word == Rendered(q) && Renderable(q)
  }

  lemma {:induction false} ParsesSpelled(items: seq<Item>, qs: seq<Qualifier>)
    requires |items| == |qs| && forall i | 0 <= i < |qs| :: Spells(items[i], qs[i])
    ensures Parsed(items) == Some(qs)
  {
    hide Spells, ParseWord;
    if qs != [] {
      var n := |qs| - 1;
      ParsesSpelled(items[..n], qs[..n]);
      SpelledParses(items[n], qs[n]);
      assert qs == qs[..n] + [qs[n]];
    }
  }

  lemma SpelledParses(item: Item, q: Qualifier)
    requires Spells(item, q)
    ensures ParseWord(item.word) == Some(q)
  {
    ParsesItsRendering(q);
  }

  lemma {:induction false} TextFromFirst(item: Item, rest: seq<Item>)
    ensures Text([item] + rest) == item.gap + item.word + Text(rest)
  {
    var items := [item] + rest;
    if rest == [] {
      assert items[..0] == [];
    } else {
      assert items[..|items| - 1] == [item] + rest[..|rest| - 1];
      TextFromFirst(item, rest[..|rest| - 1]);
    }
  }

  lemma {:induction false} BodyEndsAtComment(body: string, comment: string)
    requires '#' !in body && (comment == "" || comment[0] == '#')
    ensures BeforeComment(body + comment) == body
  {
    if body == "" {
      assert body + comment == comment;
    } else {
      assert (body + comment)[1..] == body[1..] + comment;
      BodyEndsAtComment(body[1..], comment);
    }
  }

  lemma {:induction false} NoCommentInside(items: seq<Item>)
    requires forall i | 0 <= i < |items| :: '#' !in items[i].gap && '#' !in items[i].word
    ensures '#' !in Text(items)
  {
    if items != [] {
      NoCommentInside(items[..|items| - 1]);
    }
  }

  lemma SpacedHasNoComment(qs: seq<Qualifier>)
    ensures '#' !in Text(Spaced(qs))
  {
    hide Rendered;
    forall i | 0 <= i < |qs| ensures '#' !in Rendered(qs[i]) {
      RenderedIsItem(qs[i], " ");
    }
    NoCommentInside(Spaced(qs));
  }

  /** Blanks before the first item join its gap. */
  lemma WiderGap(tail: string, item: Item, rest: seq<Item>)
    ensures tail + Text([item] + rest) == Text([Item(tail + item.gap, item.word)] + rest)
  {
    TextFromFirst(item, rest);
    TextFromFirst(Item(tail + item.gap, item.word), rest);
  }

  ghost predicate AllRenderable(qs: seq<Qualifier>) {
    forall i | 0 <= i < |qs| :: Renderable(qs[i])
  }

  /** The items of a rendering behind blanks. */
  lemma SpacedItems(tail: string, qs: seq<Qualifier>) returns (items: seq<Item>)
    requires AllBlank(tail) && qs != [] && AllRenderable(qs)
    ensures |items| == |qs| && items[0].gap == tail + " " && IsItems(items) && Parsed(items) == Some(qs)
    ensures Text(items) == tail + Text(Spaced(qs))
  {
    hide Rendered, Renderable, Text, IsItem;
    var spaced := Spaced(qs);
    items := [Item(tail + " ", Rendered(qs[0]))] + spaced[1..];
    assert spaced == [spaced[0]] + spaced[1..];
    WiderGap(tail, spaced[0], spaced[1..]);
    forall i | 0 <= i < |items| ensures IsItem(items[i]) {
      RenderedIsItem(qs[i], items[i].gap);
    }
    ParsesSpelled(items, qs);
  }

  lemma SpacedLayout(rule: string, qs: seq<Qualifier>) returns (items: seq<Item>, trailing: string)
    requires StopsAt(Trim(rule)) && AllRenderable(qs)
    ensures Layout(rule + Text(Spaced(qs)), Trim(rule), items, trailing) && Parsed(items) == Some(qs)
    ensures qs != [] ==> |Trim(rule)| + |items[0].gap| == |rule| + 1
  {
    hide Rendered, AllRenderable, StopsAt, Text, IsItems, Trim;
    var trimmed := Trim(rule);
    var tail := rule[|trimmed|..];
    assert rule == trimmed + tail;
    TrimmedIsRule(rule);
    if qs == [] {
      items, trailing := [], tail;
      EmptyText();
      assert rule + "" == trimmed + "" + tail;
    } else {
      trailing := "";
      items := SpacedItems(tail, qs);
      Regroup(trimmed, tail, Text(Spaced(qs)));
    }
  }

  lemma Regroup(a: string, b: string, c: string)
    ensures (a + b) + c == a + (b + c) + ""
  {
  }

  lemma EmptyText()
    ensures Text([]) == "" && IsItems([]) && Spaced([]) == []
  {
  }

  lemma TrimmedIsRule(rule: string)
    requires StopsAt(Trim(rule))
    ensures IsRule(Trim(rule))
  {
    TrimDropsBlanks(Trim(rule), "");
    assert Trim(rule) + "" == Trim(rule);
  }

  /** What a line yields, by the layout of its part before the comment. */
  lemma LayoutExtracted(body: string, comment: string, rule: string, items: seq<Item>, trailing: string)
    requires Layout(body, rule, items, trailing)
    requires '#' !in body && (comment == "" || comment[0] == '#')
    ensures Extracted(body + comment) == Decided(rule, items, None, NO_POLICY)
  {
    hide Layout, Decided, Scan;
    BodyEndsAtComment(body, comment);
    LayoutDecides(body, rule, items, trailing, None, NO_POLICY);
  }

  lemma DecidedBy(rule: string, items: seq<Item>, policy: Policy, qs: seq<Qualifier>, at: nat)
    requires Parsed(items) == Some(qs) && (qs != [] ==> |rule| + |items[0].gap| == at)
    ensures Decided(rule, items, None, policy) == Done(if qs == [] then None else Some(at), ApplyAll(policy, qs))
  {
    hide ApplyAll;
    if qs != [] {
      assert Decided(rule, items, None, policy).cut == Some(at);
    }
  }

  lemma RenderedDecided(rule: string, qs: seq<Qualifier>, comment: string) returns (items: seq<Item>)
    requires '#' !in rule && StopsAt(Trim(rule)) && (comment == "" || comment[0] == '#')
    requires AllRenderable(qs)
    ensures Parsed(items) == Some(qs) && (qs != [] ==> |Trim(rule)| + |items[0].gap| == |rule| + 1)
    ensures Extracted(rule + Text(Spaced(qs)) + comment) == Decided(Trim(rule), items, None, NO_POLICY)
  {
    hide AllRenderable, Extracted, Layout, StopsAt, Trim, Text, Decided, Spaced;
    var trailing;
    items, trailing := SpacedLayout(rule, qs);
    SpacedHasNoComment(qs);
    LayoutExtracted(rule + Text(Spaced(qs)), comment, Trim(rule), items, trailing);
  }

  /** Any qualifiers rendered behind a rule, before any comment, are read back in order. */
  lemma RenderedList(rule: string, qs: seq<Qualifier>, comment: string)
    requires '#' !in rule && StopsAt(Trim(rule)) && (comment == "" || comment[0] == '#')
    requires AllRenderable(qs)
    ensures var outcome := Extracted(rule + Text(Spaced(qs)) + comment);
            && outcome.Done? && outcome.policy == ApplyAll(NO_POLICY, qs)
            && outcome.cut == if qs == [] then None else Some(|rule| + 1)
  {
    hide AllRenderable, Extracted, StopsAt, Trim, Text, ApplyAll, Decided, Parsed, Spaced;
    var items := RenderedDecided(rule, qs, comment);
    DecidedBy(Trim(rule), items, NO_POLICY, qs, |rule| + 1);
  }

  /** What the cut leaves of a rendered line. */
  lemma RuleIsLeft(rule: string, qs: seq<Qualifier>, comment: string)
    requires qs != []
    ensures var line := rule + Text(Spaced(qs)) + comment; |line| > |rule| && line[..|rule| + 1] == rule + " "
  {
    hide Rendered, Text;
    var spaced := Spaced(qs);
    assert spaced == [spaced[0]] + spaced[1..];
    TextFromFirst(spaced[0], spaced[1..]);
  }

  /**
   * Round trip: the qualifiers of a policy rendered behind a rule are read back as that policy,
   * and the cut leaves the rule and one blank.
   */
  lemma RoundTrip(rule: string, policy: Policy, comment: string)
    requires '#' !in rule && StopsAt(Trim(rule)) && (comment == "" || comment[0] == '#')
    requires AllRenderable(QualifiersOf(policy))
    ensures var qs := QualifiersOf(policy);
            var line := rule + Text(Spaced(qs)) + comment;
            && Extracted(line) == Done(if qs == [] then None else Some(|rule| + 1), policy)
            && (qs != [] ==> |line| > |rule| && line[..|rule| + 1] == rule + " ")
  {
    hide AllRenderable, QualifiersOf, Extracted, StopsAt, Trim, Text, ApplyAll, Spaced;
    var qs := QualifiersOf(policy);
    RenderedList(rule, qs, comment);
    QualifiersMakeThePolicy(policy);
    if qs != [] {
      RuleIsLeft(rule, qs, comment);
    }
  }

  lemma WindowQualifiers(from: nat, until: nat)
    requires 0 < from < Pow10(MAX_DIGITS) && 0 < until < Pow10(MAX_DIGITS)
    ensures var qs := QualifiersOf(Policy(0, from, until, None, None));
            qs == [Qualifier(From, from), Qualifier(Until, until)] && AllRenderable(qs)
  {
  }

  /** An empty window is refused only after the line was cut: the words are gone, the rule fails. */
  lemma EmptyWindowStillCuts(rule: string, from: nat, until: nat)
    requires '#' !in rule && StopsAt(Trim(rule)) && 0 < until <= from < Pow10(MAX_DIGITS)
    ensures var policy := Policy(0, from, until, None, None);
            && !WindowValid(policy)
            && Extracted(rule + Text(Spaced(QualifiersOf(policy))) + "") == Done(Some(|rule| + 1), policy)
  {
    hide Extracted, StopsAt, Trim, Text, Spaced, QualifiersOf, AllRenderable;
    WindowQualifiers(from, until);
    RoundTrip(rule, Policy(0, from, until, None, None), "");
  }

  // ---- In plain characters -------------------------------------------------------------------

  /** The five words, letter by letter, and where each puts its number. */
  lemma WordsByText(digits: string)
    requires 1 <= |digits| <= 18 && forall i | 0 <= i < |digits| :: '0' <= digits[i] <= '9'
    ensures AllDigits(digits)
    ensures var n := Value(digits);
            && ParseWord("@first=" + digits) == (if n > 0 then Some(Qualifier(First, n)) else None)
            && ParseWord("@from=" + digits) == Some(Qualifier(From, n))
            && ParseWord("@until=" + digits) == Some(Qualifier(Until, n))
            && ParseWord("@size>" + digits) == Some(Qualifier(Above, n))
            && ParseWord("@size<" + digits) == Some(Qualifier(Below, n))
  {
    SpellsText(First, "@first=", digits);
    SpellsText(From, "@from=", digits);
    SpellsText(Until, "@until=", digits);
    SpellsText(Above, "@size>", digits);
    SpellsText(Below, "@size<", digits);
  }

  lemma SpellsText(kind: Kind, key: string, digits: string)
    requires key == Keyword(kind) && IsNumber(digits)
    ensures ParseWord(key + digits) ==
            if kind.First? && Value(digits) == 0 then None else Some(Qualifier(kind, Value(digits)))
  {
    assert (key + digits)[|key|..] == digits;
    SpelledFirst(key + digits, kind);
  }

  ghost predicate SpacesAndTabs(text: string) {
    forall i | 0 <= i < |text| :: text[i] == ' ' || text[i] == '\t'
  }

  ghost predicate SpacesTabsAndReturns(text: string) {
    forall i | 0 <= i < |text| :: text[i] == ' ' || text[i] == '\t' || text[i] == '\r'
  }

  /** A word may stand behind any spaces and tabs, and before any of them and carriage returns. */
  lemma OneWordBehindBlanks(rule: string, gap: string, q: Qualifier, trailing: string)
    requires IsRule(rule) && '#' !in rule && Renderable(q)
    requires gap != "" && SpacesAndTabs(gap) && SpacesTabsAndReturns(trailing)
    ensures Extracted(rule + gap + Rendered(q) + trailing) == Done(Some(|rule| + |gap|), Apply(NO_POLICY, q))
  {
    hide Extracted, IsRule, Rendered, Renderable, Text, Layout, Parsed, ApplyAll, IsItem;
    var item := Item(gap, Rendered(q));
    RenderedIsItem(q, gap);
    OneItemLayout(rule, item, trailing);
    var body := rule + gap + Rendered(q) + trailing;
    NoCommentIn(rule, item, trailing);
    LayoutExtracted(body, "", rule, [item], trailing);
    assert body + "" == body;
    ParsesItsRendering(q);
    OneParsed(item, q);
  }

  lemma NoCommentIn(rule: string, item: Item, trailing: string)
    requires '#' !in rule && SpacesAndTabs(item.gap) && '#' !in item.word && SpacesTabsAndReturns(trailing)
    ensures '#' !in rule + item.gap + item.word + trailing
  {
  }

  lemma OneItemLayout(rule: string, item: Item, trailing: string)
    requires IsRule(rule) && IsItem(item) && SpacesTabsAndReturns(trailing)
    ensures Layout(rule + item.gap + item.word + trailing, rule, [item], trailing)
  {
    hide IsRule, IsItem;
    assert [item][..0] == [];
    assert Text([]) == "";
    assert Text([item]) == item.gap + item.word;
    assert rule + (item.gap + item.word) == rule + item.gap + item.word;
  }

  lemma OneParsed(item: Item, q: Qualifier)
    requires ParseWord(item.word) == Some(q)
    ensures Parsed([item]) == Some([q]) && ApplyAll(NO_POLICY, [q]) == Apply(NO_POLICY, q)
  {
    hide Apply, ParseWord;
    assert [item][..|[item]| - 1] == [];
    assert [item][|[item]| - 1] == item;
    assert Parsed([]) == Some([]);
    assert [] + [q] == [q];
    assert [q][1..] == [];
    assert ApplyAll(NO_POLICY, []) == NO_POLICY;
  }

  lemma {:induction false} NoSeparator(text: string)
    requires forall i | 0 <= i < |text| :: !Separator(text[i])
    ensures LastWord(text) == 0
  {
    if text != "" {
      NoSeparator(text[..|text| - 1]);
    }
  }

  /** A line without a space or a tab before its comment has no qualifiers. */
  lemma NoBlankNoQualifier(text: string)
    requires forall i | 0 <= i < |BeforeComment(text)| :: text[i] != ' ' && text[i] != '\t'
    ensures Extracted(text) == Done(None, NO_POLICY)
  {
    var body := BeforeComment(text);
    var trimmed := Trim(body);
    assert forall i | 0 <= i < |body| :: body[i] == text[i];
    assert forall i | 0 <= i < |trimmed| :: trimmed[i] == body[i];
    NoSeparator(trimmed);
  }
}
