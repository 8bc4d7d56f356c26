/**
 * Best-match selection over a rule list: the loop that every rule lookup runs once per call.
 *
 * A rule that does not match the call has no key; a matching rule has one. The scan keeps the
 * first rule it meets and replaces it only by a strictly larger key.
 */
module Selection {
  import opened Options

  /** One iteration of the scan: rule `index`, whose key is `key`, against the best so far. */
  function Better(best: Option<nat>, bestKey: nat, index: nat, key: Option<nat>): Option<nat> {
    if key.Some? && (best.None? || key.value > bestKey) then Some(index) else best
  }

  /** Index of the rule the scan ends on. */
  function Best(keys: seq<Option<nat>>): (r: Option<nat>)
    ensures r.Some? ==> r.value < |keys| && keys[r.value].Some?
  {
    if keys == [] then None
    else
      var last := |keys| - 1;
      var best := Best(keys[..last]);
      Better(best, if best.Some? then keys[best.value].value else 0, last, keys[last])
  }

  /** `i` is the earliest index that carries the largest key. */
  ghost predicate IsEarliestMaximum(keys: seq<Option<nat>>, i: nat) {
    && i < |keys| && keys[i].Some?
    && (forall j | 0 <= j < |keys| && keys[j].Some? :: keys[j].value <= keys[i].value)
    && (forall j | 0 <= j < i && keys[j].Some? :: keys[j].value < keys[i].value)
  }

  /** What one more key makes of the earliest largest one. */
  lemma EarliestGrows(keys: seq<Option<nat>>, best: Option<nat>, i: nat)
    requires keys != [] && var front := keys[..|keys| - 1];
             if best.None? then forall j | 0 <= j < |front| :: front[j].None? else IsEarliestMaximum(front, best.value)
    ensures var last := |keys| - 1;
            Better(best, if best.Some? then keys[best.value].value else 0, last, keys[last]) == Some(i)
            <==> IsEarliestMaximum(keys, i)
  {
    var front := keys[..|keys| - 1];
    assert forall j | 0 <= j < |front| :: keys[j] == front[j];
  }

  lemma BestSnoc(keys: seq<Option<nat>>)
    requires keys != []
    ensures var last := |keys| - 1;
            var best := Best(keys[..last]);
            Best(keys) == Better(best, if best.Some? then keys[best.value].value else 0, last, keys[last])
  {
  }

  /** The scan finds the earliest largest key, and finds nothing only when no rule matches. */
  lemma {:induction false} BestIsEarliestMaximum(keys: seq<Option<nat>>)
    ensures Best(keys).None? <==> forall j | 0 <= j < |keys| :: keys[j].None?
    ensures forall i: nat :: Best(keys) == Some(i) <==> IsEarliestMaximum(keys, i)
  {
    if keys != [] {
      var front := keys[..|keys| - 1];
      BestIsEarliestMaximum(front);
      BestSnoc(keys);
      assert forall j | 0 <= j < |front| :: keys[j] == front[j];
      hide Best, IsEarliestMaximum;
      forall i: nat ensures Best(keys) == Some(i) <==> IsEarliestMaximum(keys, i) {
        EarliestGrows(keys, Best(front), i);
      }
    }
  }

  /** Before the first rule nothing is selected. */
  lemma NoneBest(keys: seq<Option<nat>>)
    ensures Best(keys[..0]) == None
  {
  }

  /** Scanning one more rule extends the answer by one comparison. */
  lemma BestStep(keys: seq<Option<nat>>, n: nat)
    requires n < |keys|
    ensures var best := Best(keys[..n]);
            Best(keys[..n + 1]) == Better(best, if best.Some? then keys[best.value].value else 0, n, keys[n])
  {
    assert keys[..n + 1][..n] == keys[..n];
  }
}
