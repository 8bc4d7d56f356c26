/** The parser that strips qualifiers off a NUL-terminated line in place. */
module QualifierParser {
  import opened CStrings
  import opened Decimals
  import opened Options
  import opened Qualifiers

  /** A NUL-terminated word inside a line. */
  ghost predicate WordAt(line: seq<char>, start: nat, word: string) {
    && '\0' !in word && start + |word| < |line|
    && line[start..start + |word|] == word && line[start + |word|] == '\0'
  }

  lemma WordChars(line: seq<char>, start: nat, word: string)
    requires WordAt(line, start, word)
    ensures forall i | 0 <= i < |word| :: line[start + i] == word[i] && word[i] != '\0'
  {
    forall i | 0 <= i < |word| ensures line[start + i] == word[i] && word[i] != '\0' {
      assert line[start..start + |word|][i] == line[start + i];
      assert word[i] in word;
    }
  }

  /** Compares a word with a prefix, character by character up to its end. */
  method StartsWith(line: array<char>, start: nat, prefix: string, ghost word: string) returns (starts: bool)
    requires WordAt(line[..], start, word) && '\0' !in prefix
    ensures starts <==> prefix <= word
  {
    WordChars(line[..], start, word);
    var i := 0;
    while i < |prefix|
      invariant i <= |prefix| && i <= |word| && prefix[..i] == word[..i]
    {
      assert prefix[i] in prefix;
      if line[start + i] != prefix[i] {
        return false;
      }
      i := i + 1;
    }
    return true;
  }

  /** Reads 1 to 18 digits up to the NUL. */
  method ReadNumber(line: array<char>, start: nat, ghost word: string) returns (number: Option<nat>)
    requires WordAt(line[..], start, word)
    ensures number == ParseNumber(word)
  {
    WordChars(line[..], start, word);
    if line[start] == '\0' {
      return None;
    }
    var i, result := 0, 0;
    while line[start + i] != '\0'
      invariant i <= |word| && i <= MAX_DIGITS && AllDigits(word[..i]) && result == Value(word[..i])
      decreases |word| - i
    {
      if !IsDigit(line[start + i]) || i >= MAX_DIGITS {
        return None;
      }
      assert word[..i + 1] == word[..i] + [word[i]];
      assert word[..i + 1][..i] == word[..i];
      result := result * 10 + DigitValue(line[start + i]);
      i := i + 1;
    }
    assert word[..i] == word;
    return Some(result);
  }

  /** Reads a word as a qualifier of one kind. */
  method ReadKind(kind: Kind, line: array<char>, start: nat, ghost word: string) returns (q: Option<Qualifier>)
    requires WordAt(line[..], start, word)
    ensures q == Spelled(kind, word)
  {
    var keyword := Keyword(kind);
    var starts := StartsWith(line, start, keyword, word);
    if !starts {
      return None;
    }
    RestAt(line[..], start, word, |keyword|);
    var amount := ReadNumber(line, start + |keyword|, word[|keyword|..]);
    if amount.None? || !Allowed(Qualifier(kind, amount.value)) {
      return None;
    }
    return Some(Qualifier(kind, amount.value));
  }

  lemma RestAt(line: seq<char>, start: nat, word: string, n: nat)
    requires WordAt(line, start, word) && n <= |word|
    ensures WordAt(line, start + n, word[n..])
  {
    assert line[start..start + |word|][n..] == line[start + n..start + |word|];
  }

  /** Tries the kinds in turn. */
  method ReadWord(line: array<char>, start: nat, ghost word: string) returns (q: Option<Qualifier>)
    requires WordAt(line[..], start, word)
    ensures q == ParseWord(word)
  {
    hide Spelled, WordAt;
    q := ReadKind(First, line, start, word);
    if q.Some? {
      return;
    }
    q := ReadKind(From, line, start, word);
    if q.Some? {
      return;
    }
    q := ReadKind(Until, line, start, word);
    if q.Some? {
      return;
    }
    q := ReadKind(Above, line, start, word);
    if q.Some? {
      return;
    }
    q := ReadKind(Below, line, start, word);
  }

  // ---- Scanning the line -------------------------------------------------------------------

  /** Where the rule and its qualifiers end: at the first '#', or at the NUL. */
  method FindBody(line: array<char>) returns (end: nat)
    requires '\0' in line[..]
    ensures end < line.Length && line[..end] == BeforeComment(TextOf(line[..]))
  {
    ghost var text := TextOf(line[..]);
    TextEnds(line[..]);
    end := 0;
    while line[end] != '\0' && line[end] != '#'
      invariant end <= |text| && '#' !in line[..end]
      decreases |text| - end
    {
      assert line[..end + 1] == line[..end] + [line[end]];
      assert line[end] == text[end];
      end := end + 1;
    }
    assert line[..end] == text[..end];
    assert text == text[..end] + text[end..];
    BodyEndsAtComment(text[..end], text[end..]);
  }

  method TrimEnd(line: array<char>, end: nat) returns (wordEnd: nat)
    requires end <= line.Length
    ensures wordEnd <= end && line[..wordEnd] == Trim(line[..end])
  {
    wordEnd := end;
    while wordEnd > 0 && Blank(line[wordEnd - 1])
      invariant wordEnd <= end && Trim(line[..wordEnd]) == Trim(line[..end])
    {
      assert line[..wordEnd][..wordEnd - 1] == line[..wordEnd - 1];
      wordEnd := wordEnd - 1;
    }
  }

  method WordStart(line: array<char>, wordEnd: nat) returns (start: nat)
    requires wordEnd <= line.Length
    ensures start == LastWord(line[..wordEnd])
  {
    start := wordEnd;
    while start > 0 && !Separator(line[start - 1])
      invariant start <= wordEnd
      invariant forall i | start <= i < wordEnd :: !Separator(line[i])
    {
      start := start - 1;
    }
    if start > 0 {
      assert line[..wordEnd] == line[..start] + line[start..wordEnd];
      LastWordIs(line[..start], line[start..wordEnd]);
    } else {
      NoSeparator(line[..wordEnd]);
    }
  }

  /** Reads the word between two positions, terminated in place for the time of the reading. */
  method ReadBetween(line: array<char>, start: nat, wordEnd: nat) returns (q: Option<Qualifier>)
    requires start < wordEnd < line.Length && '\0' !in line[start..wordEnd]
    modifies line
    ensures line[..] == old(line[..])
    ensures q == ParseWord(line[start..wordEnd])
  {
    ghost var word := line[start..wordEnd];
    var saved := line[wordEnd];
    line[wordEnd] := '\0';
    assert line[start..start + |word|] == word;
    q := ReadWord(line, start, word);
    line[wordEnd] := saved;
    assert line[start..wordEnd] == word;
  }

  datatype Step = Stop | Refuse | Take(start: nat, q: Qualifier)

  /** One round of the scan: the last word before `end`, if it is a qualifier. */
  method TakeWord(line: array<char>, end: nat, ghost cut: Option<nat>, ghost policy: Policy) returns (step: Step)
    requires end < line.Length && '\0' !in line[..end]
    modifies line
    ensures line[..] == old(line[..])
    ensures step.Stop? ==> Scan(line[..end], cut, policy) == Done(cut, policy)
    ensures step.Refuse? ==> Scan(line[..end], cut, policy) == Malformed
    ensures step.Take? ==>
              && step.start < end
              && Scan(line[..end], cut, policy) == Scan(line[..step.start], Some(step.start), Apply(policy, step.q))
  {
    hide ParseWord, Apply, Blank, Separator, Trim, LastWord;
    var wordEnd := TrimEnd(line, end);
    var start := WordStart(line, wordEnd);
    ghost var trimmed := line[..wordEnd];
    if start == wordEnd || line[start] != '@' || start == 0 {
      return Stop;
    }
    assert trimmed[start..] == line[start..wordEnd] && trimmed[..start] == line[..start];
    NoNulInside(line[..], start, wordEnd, end);
    ghost var before := line[..];
    var q := ReadBetween(line, start, wordEnd);
    assert line[..end] == before[..end] && line[..start] == before[..start];
    return if q.None? then Refuse else Take(start, q.value);
  }

  lemma NoNulInside(line: seq<char>, start: nat, stop: nat, end: nat)
    requires start <= stop <= end <= |line| && '\0' !in line[..end]
    ensures '\0' !in line[start..stop]
  {
    forall i | start <= i < stop ensures line[i] != '\0' {
      assert line[..end][i] == line[i];
    }
  }

  /** What the cut leaves of a text. */
  function Left(text: string, cut: Option<nat>): string {
    if cut.Some? && cut.value <= |text| then text[..cut.value] else text
  }

  /** The buffer with a NUL at the cut. */
  function CutLine(line: seq<char>, cut: Option<nat>): seq<char> {
    if cut.Some? && cut.value < |line| then line[cut.value := '\0'] else line
  }

  /** What extraction does to a line: nothing when a word is malformed, else one NUL at the cut. */
  ghost predicate Stripped(before: seq<char>, after: seq<char>, ok: bool, policy: Policy) {
    match Extracted(TextOf(before))
    case Malformed => !ok && after == before
    case Done(cut, applied) =>
      && policy == applied && (ok <==> WindowValid(applied))
      && after == CutLine(before, cut) && TextOf(after) == Left(TextOf(before), cut)
  }

  /** Writes the NUL at the cut. */
  method Cut(line: array<char>, cut: Option<nat>)
    requires '\0' in line[..] && (cut.Some? ==> cut.value <= |TextOf(line[..])|)
    modifies line
    ensures line[..] == CutLine(old(line[..]), cut) && TextOf(line[..]) == Left(TextOf(old(line[..])), cut)
  {
    if cut.Some? {
      CutAt(line[..], cut.value);
      line[cut.value] := '\0';
    }
  }

  lemma BodyHasNoNul(buffer: seq<char>, end: nat)
    requires '\0' in buffer && end < |buffer| && buffer[..end] == BeforeComment(TextOf(buffer))
    ensures end <= |TextOf(buffer)| && forall i | 0 <= i <= end :: '\0' !in buffer[..i]
  {
    TextEnds(buffer);
    forall i | 0 <= i <= end ensures '\0' !in buffer[..i] {
      NoNulInside(buffer, 0, i, |TextOf(buffer)|);
      assert buffer[0..i] == buffer[..i];
    }
  }

  /**
   * Strips the qualifiers off a line and applies them. A malformed word leaves the line as it was.
   * Otherwise the line is cut, whether or not the window then turns out to be empty.
   */
  method Extract(line: array<char>) returns (ok: bool, policy: Policy)
    requires '\0' in line[..]
    modifies line
    ensures Stripped(old(line[..]), line[..], ok, policy)
  {
    hide Scan, Apply, CutLine, Left, TextOf, BeforeComment;
    var end: nat := FindBody(line);
    ghost var body := end;
    BodyHasNoNul(line[..], body);
    var cut: Option<nat>;
    cut, policy := None, NO_POLICY;
    while true
      invariant end <= body && line[..] == old(line[..])
      invariant cut.Some? ==> cut.value <= body
      invariant Scan(line[..end], cut, policy) == Extracted(TextOf(old(line[..])))
      decreases end
    {
      var step := TakeWord(line, end, cut, policy);
      if step.Stop? {
        break;
      } else if step.Refuse? {
        return false, policy;
      }
      policy, cut, end := Apply(policy, step.q), Some(step.start), step.start;
    }
    Cut(line, cut);
    return WindowValid(policy), policy;
  }

  /** An empty window was read from some word, so the line has a cut, at a character of its text. */
  lemma EmptyWindowHasCut(text: string)
    requires Extracted(text).Done? && !WindowValid(Extracted(text).policy)
    ensures Extracted(text).cut.Some? && Extracted(text).cut.value < |text|
  {
    ScanCuts(BeforeComment(text), None, NO_POLICY);
  }

  /**
   * Extraction fails on a line and yet changes it exactly when every word is well formed and the
   * window they give is empty.
   */
  lemma FailureCutsEmptyWindows(before: seq<char>, after: seq<char>, ok: bool, policy: Policy)
    requires '\0' in before && Stripped(before, after, ok, policy)
    ensures !ok && after != before <==>
            Extracted(TextOf(before)).Done? && !WindowValid(Extracted(TextOf(before)).policy)
  {
    hide Extracted, WindowValid;
    var text := TextOf(before);
    if Extracted(text).Done? && !WindowValid(Extracted(text).policy) {
      EmptyWindowHasCut(text);
      TextEnds(before);
      var at := Extracted(text).cut.value;
      assert before[at] in before[..|text|];
      assert after[at] == '\0' != before[at];
    }
  }

  /** The leftmost @from and the leftmost @until are both given, with until not after from and not 0. */
  predicate EmptyWindow(qs: seq<Qualifier>) {
    var from, until := Leftmost(qs, From), Leftmost(qs, Until);
    from.Some? && until.Some? && 0 < until.value <= from.value
  }

  /**
   * In terms of the line, however its part before the comment divides into a rule, words and blanks:
   * extraction fails exactly when some word is no qualifier or the words make an empty window, and
   * it changes a line it fails on exactly in the second case.
   */
  lemma FailureByWords(before: seq<char>, after: seq<char>, ok: bool, policy: Policy,
                       rule: string, items: seq<Item>, trailing: string)
    requires '\0' in before && Stripped(before, after, ok, policy)
    requires Layout(BeforeComment(TextOf(before)), rule, items, trailing)
    ensures !ok <==> Parsed(items).None? || EmptyWindow(Parsed(items).value)
    ensures !ok && after != before <==> Parsed(items).Some? && EmptyWindow(Parsed(items).value)
  {
    hide Layout, Scan, TextOf, BeforeComment, Parsed, ApplyAll, Leftmost;
    FailureCutsEmptyWindows(before, after, ok, policy);
    LayoutDecides(BeforeComment(TextOf(before)), rule, items, trailing, None, NO_POLICY);
    if Parsed(items).Some? {
      LeftmostWins(Parsed(items).value);
    }
  }
}
