/** DNS selectors: which names they match and which of the matching rules wins. */
module DnsRules {
  import opened Options
  import opened TextSplit

  datatype Kind = AnyName | Exact | Suffix
  datatype Domain = Lookup | Reverse

  /** A selector: its pattern, and the length of the selector as it was written. */
  datatype Selector = Selector(kind: Kind, domain: Domain, text: string, written: nat)
  datatype Rule = Rule(effect: nat, selector: Selector)

  // ---- Text without case -------------------------------------------------------------------

  function LowerChar(c: char): char {
    if 'A' <= c <= 'Z' then (c as int + 32) as char else c
  }

  function Lower(text: string): (lower: string)
    ensures |lower| == |text|
    ensures forall i | 0 <= i < |text| :: lower[i] == LowerChar(text[i])
  {
    seq(|text|, i requires 0 <= i < |text| => LowerChar(text[i]))
  }

  const UPPER := "ABCDEFGHIJKLMNOPQRSTUVWXYZ"
  const LOWER := "abcdefghijklmnopqrstuvwxyz"

  /** The same character, or the same letter of the alphabet in two cases. */
  ghost predicate SameLetter(c: char, d: char) {
    c == d || exists k :: IsLetter(k, c, d) || IsLetter(k, d, c)
  }

  ghost predicate IsLetter(k: nat, upper: char, lower: char) {
    k < 26 && upper == UPPER[k] && lower == LOWER[k]
  }

  lemma LetterAt(k: nat, upper: char, lower: char)
    ensures IsLetter(k, upper, lower) <==> k < 26 && upper as int == 'A' as int + k && lower as int == 'a' as int + k
  {
  }

  lemma LowerMeansSameLetter(c: char, d: char)
    ensures LowerChar(c) == LowerChar(d) <==> SameLetter(c, d)
  {
    hide IsLetter;
    if LowerChar(c) == LowerChar(d) && c != d {
      var k := LowerChar(c) as int - 'a' as int;
      LetterAt(k, c, d);
      LetterAt(k, d, c);
    }
    if k: nat :| IsLetter(k, c, d) || IsLetter(k, d, c) {
      LetterAt(k, c, d);
      LetterAt(k, d, c);
    }
  }

  /** Compares character by character until one text ends. */
  method CaseEqual(left: string, right: string) returns (equal: bool)
    ensures equal <==> Lower(left) == Lower(right)
    ensures equal <==> |left| == |right| && forall i | 0 <= i < |left| :: SameLetter(left[i], right[i])
  {
    var i := 0;
    while i < |left| && i < |right|
      invariant i <= |left| && i <= |right|
      invariant forall k | 0 <= k < i :: LowerChar(left[k]) == LowerChar(right[k])
    {
      if LowerChar(left[i]) != LowerChar(right[i]) {
        LowerMeansSameLetter(left[i], right[i]);
        assert Lower(left)[i] != Lower(right)[i];
        return false;
      }
      i := i + 1;
    }
    forall k | 0 <= k < i ensures SameLetter(left[k], right[k]) {
      LowerMeansSameLetter(left[k], right[k]);
    }
    return i == |left| && i == |right|;
  }

  // ---- Matching ----------------------------------------------------------------------------

  /** The labels of a name, in lower case. */
  function Labels(name: string): (labels: Pieces)
    ensures |labels| >= 1
  {
    Split(Lower(name), '.')
  }

  /** `suffix` is what some, but not all, of the trailing pieces of `whole` are. */
  ghost predicate ProperSuffix(suffix: Pieces, whole: Pieces) {
    |suffix| < |whole| && whole[|whole| - |suffix|..] == suffix
  }

  /** What a selector is meant to match, and how specifically. */
  ghost function Rank(selector: Selector, domain: Domain, name: string): nat {
    if name == "" || selector.domain != domain then 0
    else match selector.kind
      case AnyName => 1
      case Exact => if Lower(selector.text) == Lower(name) then 3 else 0
      case Suffix => if domain == Lookup && ProperSuffix(Labels(selector.text), Labels(name)) then 2 else 0
  }

  /** A text that ends with a separator and another text has the other's pieces last. */
  lemma EndsWithPieces(name: string, suffix: string)
    requires |name| > |suffix| && name[|name| - |suffix|..] == suffix && name[|name| - |suffix| - 1] == '.'
    ensures ProperSuffix(Split(suffix, '.'), Split(name, '.'))
  {
    var front := name[..|name| - |suffix| - 1];
    assert name == front + ['.'] + suffix;
    SplitAtSeparator(front, suffix, '.');
  }

  lemma FrontAndSuffix(name: string, front: Pieces, suffix: string)
    requires front != [] && Split(name, '.') == front + Split(suffix, '.')
    ensures name == Join(front, '.') + ['.'] + suffix
  {
    JoinSplit(name, '.');
    JoinSplit(suffix, '.');
    JoinCat(front, Split(suffix, '.'), '.');
  }

  /** Pieces that come last come from the end of the text, behind a separator. */
  lemma PiecesEndWith(name: string, suffix: string) returns (front: string)
    requires ProperSuffix(Split(suffix, '.'), Split(name, '.'))
    ensures name == front + ['.'] + suffix
  {
    hide Split, Join;
    var pieces, last := Split(name, '.'), Split(suffix, '.');
    PiecesInFront(last, pieces);
    FrontAndSuffix(name, pieces[..|pieces| - |last|], suffix);
    front := Join(pieces[..|pieces| - |last|], '.');
  }

  lemma PiecesInFront(suffix: Pieces, whole: Pieces)
    requires ProperSuffix(suffix, whole)
    ensures whole == whole[..|whole| - |suffix|] + suffix
  {
  }

  lemma TextEndsWith(name: string, front: string, suffix: string)
    requires name == front + ['.'] + suffix
    ensures |name| > |suffix| && name[|name| - |suffix|..] == suffix && name[|name| - |suffix| - 1] == '.'
  {
  }

  /** The textual suffix test is the test on labels. */
  lemma SuffixIsLabels(name: string, suffix: string)
    ensures (|name| > |suffix| && Lower(name[|name| - |suffix|..]) == Lower(suffix) && name[|name| - |suffix| - 1] == '.')
            <==> ProperSuffix(Labels(suffix), Labels(name))
  {
    var lower, lowerSuffix := Lower(name), Lower(suffix);
    if |name| > |suffix| {
      assert Lower(name[|name| - |suffix|..]) == lower[|name| - |suffix|..];
      if lower[|name| - |suffix|..] == lowerSuffix && lower[|name| - |suffix| - 1] == '.' {
        EndsWithPieces(lower, lowerSuffix);
      }
    }
    if ProperSuffix(Labels(suffix), Labels(name)) {
      var front := PiecesEndWith(lower, lowerSuffix);
      TextEndsWith(lower, front, lowerSuffix);
    }
  }

  /** The rank of a selector for a name; zero means no match. */
  method MatchSelector(selector: Selector, domain: Domain, name: string) returns (rank: nat)
    ensures rank == Rank(selector, domain, name)
  {
    if name == "" || selector.domain != domain {
      return 0;
    }
    if selector.kind == AnyName {
      return 1;
    }
    if selector.kind == Exact {
      var equal := CaseEqual(selector.text, name);
      return if equal then 3 else 0;
    }
    SuffixIsLabels(name, selector.text);
    if domain != Lookup || |name| <= |selector.text| {
      return 0;
    }
    var ends := CaseEqual(name[|name| - |selector.text|..], selector.text);
    if !ends || name[|name| - |selector.text| - 1] != '.' {
      return 0;
    }
    return 2;
  }

  // ---- Selection ---------------------------------------------------------------------------

  ghost function RuleRank(rules: seq<Rule>, i: nat, effect: nat, domain: Domain, name: string): nat
    requires i < |rules|
  {
    if rules[i].effect == effect then Rank(rules[i].selector, domain, name) else 0
  }

  /** More specific: a higher rank, or the longer selector among equals. */
  predicate Beats(rank: nat, written: nat, otherRank: nat, otherWritten: nat) {
    rank > otherRank || (rank == otherRank && written > otherWritten)
  }

  /** The earliest of the most specific matching rules among the first `n`. */
  ghost predicate LeadsFirst(rules: seq<Rule>, n: nat, i: nat, effect: nat, domain: Domain, name: string)
    requires n <= |rules|
  {
    && i < n
    && var rank := RuleRank(rules, i, effect, domain, name);
       rank > 0
       && forall j | 0 <= j < n ::
            var other := RuleRank(rules, j, effect, domain, name);
            other > 0 ==>
              if j < i then Beats(rank, rules[i].selector.written, other, rules[j].selector.written)
              else !Beats(other, rules[j].selector.written, rank, rules[i].selector.written)
  }

  ghost predicate IsWinner(rules: seq<Rule>, i: nat, effect: nat, domain: Domain, name: string) {
    LeadsFirst(rules, |rules|, i, effect, domain, name)
  }

  /** There is no second winner. */
  lemma WinnerIsUnique(rules: seq<Rule>, i: nat, j: nat, effect: nat, domain: Domain, name: string)
    requires IsWinner(rules, i, effect, domain, name) && IsWinner(rules, j, effect, domain, name)
    ensures i == j
  {
    hide Rank;
    assert RuleRank(rules, i, effect, domain, name) > 0 && RuleRank(rules, j, effect, domain, name) > 0;
  }

  /** Whether a rule of the effect and domain matches by a selector of this kind, by the texts alone. */
  ghost predicate MatchesBy(kind: Kind, rule: Rule, effect: nat, domain: Domain, name: string) {
    && name != "" && rule.effect == effect && rule.selector.domain == domain && rule.selector.kind == kind
    && match kind
       case AnyName => true
       case Exact => Lower(rule.selector.text) == Lower(name)
       case Suffix => domain == Lookup && ProperSuffix(Labels(rule.selector.text), Labels(name))
  }

  ghost predicate SomeMatch(kind: Kind, rules: seq<Rule>, effect: nat, domain: Domain, name: string) {
    exists j :: 0 <= j < |rules| && MatchesBy(kind, rules[j], effect, domain, name)
  }

  lemma RankByKind(rules: seq<Rule>, j: nat, effect: nat, domain: Domain, name: string)
    requires j < |rules|
    ensures RuleRank(rules, j, effect, domain, name) ==
              if MatchesBy(Exact, rules[j], effect, domain, name) then 3
              else if MatchesBy(Suffix, rules[j], effect, domain, name) then 2
              else if MatchesBy(AnyName, rules[j], effect, domain, name) then 1 else 0
  {
  }

  /** A rule without a rank matches in no way. */
  lemma UnrankedMatchesNothing(rules: seq<Rule>, effect: nat, domain: Domain, name: string, kind: Kind)
    requires forall j | 0 <= j < |rules| :: RuleRank(rules, j, effect, domain, name) == 0
    ensures !SomeMatch(kind, rules, effect, domain, name)
  {
    forall j | 0 <= j < |rules| ensures !MatchesBy(kind, rules[j], effect, domain, name) {
      RankByKind(rules, j, effect, domain, name);
    }
  }

  /**
   * Who wins, by the selectors' kinds and texts: a rule with the very name if there is one; else a
   * rule with a suffix of it if there is one; else a rule for any name. Within a kind the longest
   * selector wins, and the earliest of equally long ones.
   */
  lemma WinnerByKind(rules: seq<Rule>, i: nat, effect: nat, domain: Domain, name: string)
    requires IsWinner(rules, i, effect, domain, name)
    ensures i < |rules|
    ensures var kind := if SomeMatch(Exact, rules, effect, domain, name) then Exact
                        else if SomeMatch(Suffix, rules, effect, domain, name) then Suffix else AnyName;
            && MatchesBy(kind, rules[i], effect, domain, name)
            && forall j | 0 <= j < |rules| && MatchesBy(kind, rules[j], effect, domain, name) ::
                 && rules[j].selector.written <= rules[i].selector.written
                 && (rules[j].selector.written == rules[i].selector.written ==> i <= j)
  {
    forall j | 0 <= j < |rules|
      ensures RuleRank(rules, j, effect, domain, name) ==
                if MatchesBy(Exact, rules[j], effect, domain, name) then 3
                else if MatchesBy(Suffix, rules[j], effect, domain, name) then 2
                else if MatchesBy(AnyName, rules[j], effect, domain, name) then 1 else 0
    {
      RankByKind(rules, j, effect, domain, name);
    }
    hide Rank, RuleRank;
    assert RuleRank(rules, i, effect, domain, name) > 0;
  }

  /** Scans all rules, keeping the best so far. */
  method SelectRule(rules: seq<Rule>, effect: nat, domain: Domain, name: string) returns (best: Option<nat>)
    ensures best.None? ==> forall j | 0 <= j < |rules| :: RuleRank(rules, j, effect, domain, name) == 0
    ensures best.None? <==> forall kind :: !SomeMatch(kind, rules, effect, domain, name)
    ensures best.Some? ==> IsWinner(rules, best.value, effect, domain, name)
  {
    hide Rank;
    best := None;
    var bestRank, bestWritten := 0, 0;
    for index := 0 to |rules|
      invariant best.None? ==> forall j | 0 <= j < index :: RuleRank(rules, j, effect, domain, name) == 0
      invariant best.Some? ==> best.value < index && LeadsFirst(rules, index, best.value, effect, domain, name)
      invariant best.Some? ==> bestRank == RuleRank(rules, best.value, effect, domain, name)
      invariant best.Some? ==> bestWritten == rules[best.value].selector.written
    {
      if rules[index].effect == effect {
        var rank := MatchSelector(rules[index].selector, domain, name);
        if rank > 0 && (best.None? || Beats(rank, rules[index].selector.written, bestRank, bestWritten)) {
          best, bestRank, bestWritten := Some(index), rank, rules[index].selector.written;
        }
      }
    }
    if best.Some? {
      WinnerByKind(rules, best.value, effect, domain, name);
      assert SomeMatch(rules[best.value].selector.kind, rules, effect, domain, name);
    } else {
      forall kind ensures !SomeMatch(kind, rules, effect, domain, name) {
        UnrankedMatchesNothing(rules, effect, domain, name, kind);
      }
    }
  }

  // A suffix selector as the parser makes it: eight characters before its text.
  ghost predicate WrittenSuffix(selector: Selector) {
    selector.kind.Suffix? ==> selector.written == |selector.text| + 8
  }

  lemma {:induction false} MorePiecesAreLonger(a: Pieces, b: Pieces)
    requires |a| >= 1 && ProperSuffix(a, b)
    ensures |Join(a, '.')| < |Join(b, '.')|
  {
    var k := |b| - |a|;
    assert b == b[..k] + a;
    JoinCat(b[..k], a, '.');
  }

  lemma SuffixesNest(a: Pieces, b: Pieces, whole: Pieces)
    requires ProperSuffix(a, whole) && ProperSuffix(b, whole)
    ensures if |a| < |b| then ProperSuffix(a, b) else if |a| == |b| then a == b else ProperSuffix(b, a)
  {
    if |a| < |b| {
      assert whole[|whole| - |b|..][|b| - |a|..] == a;
    } else if |b| < |a| {
      assert whole[|whole| - |a|..][|a| - |b|..] == b;
    }
  }

  /** When a suffix rule wins, no matching suffix rule names more labels. */
  lemma DeepestSuffixWins(rules: seq<Rule>, i: nat, j: nat, effect: nat, name: string)
    requires IsWinner(rules, i, effect, Lookup, name) && j < |rules|
    requires rules[i].selector.kind.Suffix? && rules[j].selector.kind.Suffix?
    requires RuleRank(rules, j, effect, Lookup, name) > 0
    requires WrittenSuffix(rules[i].selector) && WrittenSuffix(rules[j].selector)
    ensures |Labels(rules[j].selector.text)| <= |Labels(rules[i].selector.text)|
    ensures |Labels(rules[j].selector.text)| == |Labels(rules[i].selector.text)| ==>
              Lower(rules[j].selector.text) == Lower(rules[i].selector.text) && i <= j
  {
    var a, b := Labels(rules[j].selector.text), Labels(rules[i].selector.text);
    SuffixesNest(a, b, Labels(name));
    JoinSplit(Lower(rules[i].selector.text), '.');
    JoinSplit(Lower(rules[j].selector.text), '.');
    if ProperSuffix(b, a) {
      MorePiecesAreLonger(b, a);
    }
  }
}
