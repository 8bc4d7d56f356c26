/** The descending Fisher-Yates sweep, as a function of its draws. */
module Shuffling {
  function Swap<T>(s: seq<T>, i: nat, j: nat): (r: seq<T>)
    requires i < |s| && j < |s|
    ensures |r| == |s| && r[i] == s[j] && r[j] == s[i]
    ensures forall k | 0 <= k < |s| && k != i && k != j :: r[k] == s[k]
  {
    s[i := s[j]][j := s[i]]
  }

  /** The position drawn for `index`: a word modulo `index + 1`. */
  function Drawn(draws: nat -> nat, index: nat): (j: nat)
    ensures j <= index
    ensures draws(index) <= index ==> j == draws(index)
  {
    draws(index) % (index + 1)
  }

  /** Swaps each position from `index` down with a drawn one not above it. */
  function Swept<T>(s: seq<T>, draws: nat -> nat, index: nat): (r: seq<T>)
    requires index < |s|
    ensures |r| == |s|
    decreases index
  {
    if index == 0 then s else Swept(Swap(s, index, Drawn(draws, index)), draws, index - 1)
  }

  lemma SwapPermutes<T>(s: seq<T>, i: nat, j: nat)
    requires i < |s| && j < |s|
    ensures multiset(Swap(s, i, j)) == multiset(s)
  {
  }

  /** Whatever is drawn, the sweep permutes. */
  lemma {:induction false} SweepPermutes<T>(s: seq<T>, draws: nat -> nat, index: nat)
    requires index < |s|
    ensures multiset(Swept(s, draws, index)) == multiset(s)
    decreases index
  {
    if index > 0 {
      var j := Drawn(draws, index);
      SwapPermutes(s, index, j);
      SweepPermutes(Swap(s, index, j), draws, index - 1);
    }
  }

  lemma {:induction false} SweepsAgree<T>(s: seq<T>, d: nat -> nat, e: nat -> nat, index: nat)
    requires index < |s| && forall i | 0 <= i <= index :: d(i) == e(i)
    ensures Swept(s, d, index) == Swept(s, e, index)
    decreases index
  {
    if index > 0 {
      SweepsAgree(Swap(s, index, Drawn(d, index)), d, e, index - 1);
    }
  }

  lemma DropLast<T>(s: seq<T>, n: nat)
    requires n < |s|
    ensures multiset(s[..n]) == multiset(s[..n + 1]) - multiset{s[n]}
  {
    assert s[..n + 1] == s[..n] + [s[n]];
  }

  lemma FrontOfSwap<T>(s: seq<T>, index: nat, j: nat)
    requires index < |s| && j <= index
    ensures multiset(Swap(s, index, j)[..index + 1]) == multiset(s[..index + 1])
  {
    hide Swap;
    SwapPermutes(s[..index + 1], index, j);
    assert Swap(s, index, j)[..index + 1] == Swap(s[..index + 1], index, j);
  }

  lemma AfterSwap<T>(s: seq<T>, target: seq<T>, index: nat, j: nat)
    requires 0 < index < |s| == |target| && j <= index && s[j] == target[index]
    requires multiset(s[..index + 1]) == multiset(target[..index + 1]) && s[index + 1..] == target[index + 1..]
    ensures multiset(Swap(s, index, j)[..index]) == multiset(target[..index])
    ensures Swap(s, index, j)[index..] == target[index..]
  {
    hide Swap;
    FrontOfSwap(s, index, j);
    DropLast(Swap(s, index, j), index);
    DropLast(target, index);
    SameTail(s, target, Swap(s, index, j), index);
  }

  lemma SameTail<T>(s: seq<T>, target: seq<T>, swapped: seq<T>, index: nat)
    requires index < |s| == |target| == |swapped| && swapped[index] == target[index]
    requires s[index + 1..] == target[index + 1..]
    requires forall k | index < k < |s| :: swapped[k] == s[k]
    ensures swapped[index..] == target[index..]
  {
    assert swapped[index..] == [target[index]] + s[index + 1..];
  }

  /** Some draws produce any given order. */
  lemma {:induction false} EveryOrderIsReached<T>(s: seq<T>, target: seq<T>, index: nat) returns (draws: nat -> nat)
    requires index < |s| == |target| && s[index + 1..] == target[index + 1..]
    requires multiset(s[..index + 1]) == multiset(target[..index + 1])
    ensures Swept(s, draws, index) == target
    decreases index
  {
    hide Swap, Drawn;
    if index == 0 {
      draws := i => 0;
      SameHead(s, target);
    } else {
      var j := PickFor(s, target, index);
      AfterSwap(s, target, index, j);
      var swapped := Swap(s, index, j);
      var later := EveryOrderIsReached(swapped, target, index - 1);
      draws := i => if i == index then j else later(i);
      SweepsAgree(swapped, later, draws, index - 1);
      assert Swept(s, draws, index) == Swept(swapped, draws, index - 1);
    }
  }

  lemma SameHead<T>(s: seq<T>, t: seq<T>)
    requires |s| == |t| > 0 && s[1..] == t[1..] && multiset(s[..1]) == multiset(t[..1])
    ensures s == t
  {
    assert s[..1] == [s[0]] && t[..1] == [t[0]];
    assert s[0] in multiset(t[..1]);
    assert s == s[..1] + s[1..] && t == t[..1] + t[1..];
  }

  /** Where the element wanted at `index` is now. */
  lemma PickFor<T>(s: seq<T>, target: seq<T>, index: nat) returns (j: nat)
    requires index < |s| == |target| && multiset(s[..index + 1]) == multiset(target[..index + 1])
    ensures j <= index && s[j] == target[index]
  {
    assert target[index] == target[..index + 1][index];
    assert target[index] in multiset(s[..index + 1]);
    assert target[index] in s[..index + 1];
    j :| 0 <= j <= index && s[..index + 1][j] == target[index];
  }

  // ---- Order and repetition ----------------------------------------------------------------

  ghost predicate NoRepeats<T>(s: seq<T>) {
    forall i, j | 0 <= i < j < |s| :: s[i] != s[j]
  }

  lemma {:induction false} NoRepeatsCounts<T>(s: seq<T>)
    requires NoRepeats(s)
    ensures forall x | x in multiset(s) :: multiset(s)[x] == 1
  {
    if s != [] {
      var init, last := s[..|s| - 1], s[|s| - 1];
      NoRepeatsCounts(init);
      assert s == init + [last];
      assert last !in init;
    }
  }

  /** A permutation of distinct elements has distinct elements. */
  lemma PermutationKeepsDistinct<T>(s: seq<T>, t: seq<T>)
    requires NoRepeats(s) && multiset(s) == multiset(t)
    ensures NoRepeats(t) && forall x :: x in s <==> x in t
  {
    NoRepeatsCounts(s);
    forall x ensures x in s <==> x in t {
      assert x in s <==> x in multiset(s);
      assert x in t <==> x in multiset(t);
    }
    forall i, j | 0 <= i < j < |t| ensures t[i] != t[j] {
      RepeatCounts(t, i, j);
    }
  }

  lemma RepeatCounts<T>(t: seq<T>, i: nat, j: nat)
    requires i < j < |t|
    ensures t[i] == t[j] ==> multiset(t)[t[i]] >= 2
  {
    assert t == t[..j] + [t[j]] + t[j + 1..];
    assert t[i] in t[..j];
  }
}
