/**
 * The hit-slot pool: slots handed to rules by text on reload, released when a rule leaves.
 *
 * The pool is an array of slots updated in place; a C pointer into it is an index here and a
 * NULL slot pointer is `None`. `used` flags belong to the reload owner alone.
 */
module HitPool {
  import opened Options
  import opened Sets

  const MAX_RULES: nat := 256
  /** Twice the rule limit: one snapshot's worth for the active and one for the next. */
  const POOL_SIZE: nat := 512
  const TWO32: nat := 0x1_0000_0000

  /** Per-rule state that outlives a reload; `generation` outdates copies of departed rules. */
  datatype Slot = Slot(count: nat, claimed: nat, state: nat, generation: nat, used: bool)

  /** One rule of a snapshot: text as written, its slot and the slot's generation. */
  datatype Rule = Rule(text: string, slot: Option<nat>, generation: nat)

  // ---- The claim word: generation tag in the high half, claim count in the low half ----

  function ClaimsNone(generation: nat): nat {
    generation % TWO32 * TWO32
  }

  function Claims(claimed: nat): nat {
    claimed % TWO32
  }

  function Tag(claimed: nat): nat {
    claimed / TWO32
  }

  /**
   * A fresh claim word carries no claims and the low half of its generation; two generations
   * are told apart by the tag exactly when they differ modulo 2^32.
   */
  lemma FreshClaimWord(g: nat, h: nat)
    ensures Claims(ClaimsNone(g)) == 0 && Tag(ClaimsNone(g)) == g % TWO32
    ensures ClaimsNone(g) == ClaimsNone(h) <==> (g - h) % TWO32 == 0
  {
    var a, b := g % TWO32, h % TWO32;
    assert a * TWO32 % TWO32 == 0;
    assert (g - h) == (g / TWO32 - h / TWO32) * TWO32 + (a - b);
    if (g - h) % TWO32 == 0 {
      assert (a - b) % TWO32 == 0;
    }
  }

  /** Claiming below the saturation point counts one claim and leaves the tag alone. */
  lemma ClaimOnce(claimed: nat)
    requires Claims(claimed) != TWO32 - 1
    ensures Claims(claimed + 1) == Claims(claimed) + 1
    ensures Tag(claimed + 1) == Tag(claimed)
  {
  }

  // ---- Assignment --------------------------------------------------------------------------

  /** Slot of the first active rule with this text that has one. */
  function FindActive(active: seq<Rule>, text: string): (r: Option<nat>)
    ensures r.Some? <==> exists i :: 0 <= i < |active| && active[i].slot.Some? && active[i].text == text
    ensures r.Some? ==> exists i :: 0 <= i < |active| && active[i].slot == r && active[i].text == text
  {
    if active == [] then None
    else if active[0].slot.Some? && active[0].text == text then active[0].slot
    else
      var r := FindActive(active[1..], text);
      assert forall i | 0 < i < |active| :: active[i] == active[1..][i - 1];
      assert r.Some? ==> exists i :: 0 <= i < |active[1..]| && active[1..][i].slot == r && active[1..][i].text == text;
      r
  }

  /** No active rule before the one found has the text and a slot. */
  lemma {:induction false} FindsTheFirst(active: seq<Rule>, text: string) returns (found: nat)
    requires exists i :: 0 <= i < |active| && active[i].slot.Some? && active[i].text == text
    ensures found < |active| && active[found].text == text && active[found].slot.Some?
    ensures FindActive(active, text) == active[found].slot
    ensures forall i | 0 <= i < found :: active[i].text != text || active[i].slot.None?
  {
    if active[0].slot.Some? && active[0].text == text {
      found := 0;
    } else {
      var i :| 0 <= i < |active| && active[i].slot.Some? && active[i].text == text;
      assert active[1..][i - 1] == active[i];
      found := FindsTheFirst(active[1..], text);
      found := found + 1;
    }
  }

  /** First unused slot at or after the cursor; the pool's size when there is none. */
  function NextFree(pool: seq<Slot>, cursor: nat): (r: nat)
    requires cursor <= |pool|
    ensures cursor <= r <= |pool|
    ensures forall s | cursor <= s < r :: pool[s].used
    ensures r < |pool| ==> !pool[r].used
    decreases |pool| - cursor
  {
    if cursor < |pool| && pool[cursor].used then NextFree(pool, cursor + 1) else cursor
  }

  function Cleared(slot: Slot): Slot {
    Slot(0, ClaimsNone(slot.generation), 0, slot.generation, slot.used)
  }

  /** Progress of an assignment: the pool, a slot per rule handled so far, the scan cursor. */
  datatype Progress = Progress(pool: seq<Slot>, next: seq<Option<nat>>, cursor: nat)

  ghost predicate InPool(active: seq<Rule>, size: nat) {
    forall rule | rule in active && rule.slot.Some? :: rule.slot.value < size
  }

  lemma KeptSlotInPool(active: seq<Rule>, text: string, size: nat)
    requires InPool(active, size)
    ensures FindActive(active, text).Some? ==> FindActive(active, text).value < size
  {
    if FindActive(active, text).Some? {
      var i :| 0 <= i < |active| && active[i].slot == FindActive(active, text);
      assert active[i] in active;
    }
  }

  /** Assigns one more rule. */
  function AssignOne(p: Progress, active: seq<Rule>, text: string): (r: Progress)
    requires p.cursor <= |p.pool| && InPool(active, |p.pool|)
    ensures |r.pool| == |p.pool| && |r.next| == |p.next| + 1 && p.cursor <= r.cursor <= |p.pool|
  {
    var kept := FindActive(active, text);
    if kept.Some? then
      assert exists i :: 0 <= i < |active| && active[i].slot == kept && active[i] in active;
      Progress(p.pool[kept.value := p.pool[kept.value].(used := true)], p.next + [kept], p.cursor)
    else
      var free := NextFree(p.pool, p.cursor);
      if free == |p.pool| then Progress(p.pool, p.next + [None], free)
      else Progress(p.pool[free := Cleared(p.pool[free]).(used := true)], p.next + [Some(free)], free)
  }

  /** What assigning slots to the rules `texts` does. */
  function AssignAll(pool: seq<Slot>, active: seq<Rule>, texts: seq<string>): (r: Progress)
    requires InPool(active, |pool|)
    ensures |r.pool| == |pool| && |r.next| == |texts| && r.cursor <= |pool|
  {
    if texts == [] then Progress(pool, [], 0)
    else AssignOne(AssignAll(pool, active, texts[..|texts| - 1]), active, texts[|texts| - 1])
  }

  method SearchActive(active: seq<Rule>, text: string) returns (r: Option<nat>)
    ensures r == FindActive(active, text)
  {
    var previous := 0;
    while previous < |active|
      invariant previous <= |active|
      invariant FindActive(active, text) == FindActive(active[previous..], text)
    {
      if active[previous].slot.Some? && active[previous].text == text {
        return active[previous].slot;
      }
      assert active[previous..][1..] == active[previous + 1..];
      previous := previous + 1;
    }
    return None;
  }

  lemma AssignNext(pool: seq<Slot>, active: seq<Rule>, texts: seq<string>, index: nat)
    requires InPool(active, |pool|) && index < |texts|
    ensures AssignAll(pool, active, texts[..index + 1]) ==
            AssignOne(AssignAll(pool, active, texts[..index]), active, texts[index])
  {
    assert texts[..index + 1][..index] == texts[..index];
  }

  method Assign(pool: array<Slot>, active: seq<Rule>, next: array<Option<nat>>, texts: seq<string>)
    requires next.Length == |texts| && InPool(active, pool.Length)
    modifies pool, next
    ensures pool[..] == AssignAll(old(pool[..]), active, texts).pool
    ensures next[..] == AssignAll(old(pool[..]), active, texts).next
  {
    var cursor := 0;
    var index := 0;
    while index < |texts|
      invariant index <= |texts| && cursor <= pool.Length
      invariant Progress(pool[..], next[..index], cursor) == AssignAll(old(pool[..]), active, texts[..index])
    {
      hide FindActive, AssignAll, Cleared;
      AssignNext(old(pool[..]), active, texts, index);
      ghost var before := Progress(pool[..], next[..index], cursor);
      ghost var after := AssignOne(before, active, texts[index]);
      var kept := SearchActive(active, texts[index]);
      next[index] := kept;
      if kept.None? {
        while cursor < pool.Length && pool[cursor].used
          invariant cursor <= pool.Length
          invariant NextFree(pool[..], before.cursor) == NextFree(pool[..], cursor)
        {
          cursor := cursor + 1;
        }
        if cursor == pool.Length {
          assert next[..index + 1] == before.next + [None];
          index := index + 1;
          continue;
        }
        next[index] := Some(cursor);
        pool[cursor] := Cleared(pool[cursor]);
      } else {
        assert exists i :: 0 <= i < |active| && active[i].slot == kept && active[i] in active;
      }
      var slot := next[index].value;
      pool[slot] := pool[slot].(used := true);
      assert next[..index + 1] == before.next + [next[index]];
      assert pool[..] == after.pool;
      index := index + 1;
    }
    assert texts[..|texts|] == texts;
  }

  // ---- What an assignment guarantees -------------------------------------------------------

  function HeldSlots(rules: seq<Rule>): set<nat> {
    set r | r in rules && r.slot.Some? :: r.slot.value
  }

  lemma {:induction false} HeldSlotsBound(rules: seq<Rule>)
    ensures |HeldSlots(rules)| <= |rules|
  {
    if rules == [] {
      assert HeldSlots(rules) == {};
    } else {
      var rest := rules[..|rules| - 1];
      var last := rules[|rules| - 1];
      HeldSlotsBound(rest);
      assert rules == rest + [last];
      if last.slot.Some? {
        assert HeldSlots(rules) == HeldSlots(rest) + {last.slot.value};
      } else {
        assert HeldSlots(rules) == HeldSlots(rest);
      }
    }
  }

  function GivenSlots(next: seq<Option<nat>>): set<nat> {
    set o | o in next && o.Some? :: o.value
  }

  lemma {:induction false} GivenSlotsBound(next: seq<Option<nat>>)
    ensures |GivenSlots(next)| <= |next|
  {
    if next == [] {
      assert GivenSlots(next) == {};
    } else {
      var rest := next[..|next| - 1];
      var last := next[|next| - 1];
      GivenSlotsBound(rest);
      assert next == rest + [last];
      if last.Some? {
        assert GivenSlots(next) == GivenSlots(rest) + {last.value};
      } else {
        assert GivenSlots(next) == GivenSlots(rest);
      }
    }
  }

  function Below(n: nat): (r: set<nat>)
    ensures |r| == n && forall i: nat :: i in r <==> i < n
  {
    if n == 0 then {} else Below(n - 1) + {n - 1}
  }

  /** While the two rule lists together are smaller than the pool, a free slot remains. */
  lemma FreeSlotRemains(pool: seq<Slot>, active: seq<Rule>, next: seq<Option<nat>>)
    requires |active| + |next| < |pool|
    requires forall s | 0 <= s < |pool| :: pool[s].used ==> s in HeldSlots(active) || s in GivenSlots(next)
    ensures exists s :: 0 <= s < |pool| && !pool[s].used
  {
    HeldSlotsBound(active);
    GivenSlotsBound(next);
    var taken := HeldSlots(active) + GivenSlots(next);
    assert |taken| <= |HeldSlots(active)| + |GivenSlots(next)|;
    if Below(|pool|) <= taken {
      SubsetSize(Below(|pool|), taken);
    }
  }

  /** The pool and the active snapshot agree: exactly the active rules' slots are in use. */
  ghost predicate Settled(pool: seq<Slot>, active: seq<Rule>) {
    && (forall r | r in active && r.slot.Some? :: r.slot.value < |pool|)
    && (forall s | 0 <= s < |pool| :: pool[s].used <==> s in HeldSlots(active))
  }

  /**
   * What every assignment promises about rule `i`: it has a slot; a surviving text keeps the very
   * slot it had; any other rule gets a slot that no active rule holds and no other rule got.
   */
  ghost predicate WellAssigned(active: seq<Rule>, texts: seq<string>, next: seq<Option<nat>>, i: nat)
    requires |next| <= |texts| && i < |next|
  {
    && next[i].Some?
    && (FindActive(active, texts[i]).Some? ==> next[i] == FindActive(active, texts[i]))
    && (FindActive(active, texts[i]).None? ==>
          && next[i].value !in HeldSlots(active)
          && forall j | 0 <= j < |next| && j != i :: next[j] != next[i])
  }

  /** The pool part way through an assignment, relative to the pool it started from. */
  ghost predicate PoolSoFar(pool: seq<Slot>, active: seq<Rule>, p: Progress) {
    && |p.pool| == |pool| && p.cursor <= |pool|
    && (forall i | 0 <= i < |p.next| :: p.next[i].Some? && p.next[i].value < |pool|)
    && (forall s | 0 <= s < |pool| :: p.pool[s].used <==> s in HeldSlots(active) || s in GivenSlots(p.next))
    && (forall s | 0 <= s < p.cursor :: p.pool[s].used)
    && (forall s | 0 <= s < |pool| :: p.pool[s] ==
          if s in HeldSlots(active) || s !in GivenSlots(p.next) then pool[s] else Cleared(pool[s]).(used := true))
  }

  lemma GivenSlotsSnoc(next: seq<Option<nat>>, slot: nat)
    ensures GivenSlots(next + [Some(slot)]) == GivenSlots(next) + {slot}
  {
    assert Some(slot) in next + [Some(slot)];
    assert forall o | o in next :: o in next + [Some(slot)];
  }

  lemma HeldActive(active: seq<Rule>, text: string)
    requires FindActive(active, text).Some?
    ensures FindActive(active, text).value in HeldSlots(active)
  {
    var i :| 0 <= i < |active| && active[i].slot == FindActive(active, text);
    assert active[i] in active;
  }

  /** One assignment advances the pool and is well assigned. */
  lemma AssignOneKeeps(pool: seq<Slot>, active: seq<Rule>, p: Progress, text: string)
    requires Settled(pool, active) && InPool(active, |pool|) && PoolSoFar(pool, active, p)
    requires |active| + |p.next| < |pool|
    ensures var r := AssignOne(p, active, text);
            && PoolSoFar(pool, active, r)
            && r.next == p.next + [r.next[|p.next|]]
            && r.next[|p.next|].Some?
            && if FindActive(active, text).Some? then r.next[|p.next|] == FindActive(active, text)
               else r.next[|p.next|].value !in HeldSlots(active) + GivenSlots(p.next)
  {
    var r := AssignOne(p, active, text);
    var kept := FindActive(active, text);
    if kept.Some? {
      HeldActive(active, text);
      GivenSlotsSnoc(p.next, kept.value);
    } else {
      FreeSlotRemains(p.pool, active, p.next);
      var free := NextFree(p.pool, p.cursor);
      GivenSlotsSnoc(p.next, free);
    }
  }

  /** The whole assignment leaves every rule well assigned. */
  lemma {:induction false} AssignAllKeeps(pool: seq<Slot>, active: seq<Rule>, texts: seq<string>)
    requires Settled(pool, active) && InPool(active, |pool|)
    requires |active| + |texts| <= |pool|
    ensures var r := AssignAll(pool, active, texts);
            && PoolSoFar(pool, active, r)
            && forall i | 0 <= i < |texts| :: WellAssigned(active, texts, r.next, i)
  {
    hide WellAssigned, AssignOne;
    if texts != [] {
      var last := |texts| - 1;
      var front := texts[..last];
      AssignAllKeeps(pool, active, front);
      var p := AssignAll(pool, active, front);
      var r := AssignAll(pool, active, texts);
      AssignOneKeeps(pool, active, p, texts[last]);
      forall i | 0 <= i < |texts| ensures WellAssigned(active, texts, r.next, i) {
        WellAssignedSnoc(active, texts, p.next, r.next, i);
      }
    }
  }

  lemma WellAssignedSnoc(active: seq<Rule>, texts: seq<string>, next: seq<Option<nat>>, longer: seq<Option<nat>>, i: nat)
    requires |texts| == |longer| == |next| + 1 && longer[..|next|] == next && i < |texts|
    requires forall j | 0 <= j < |next| :: WellAssigned(active, texts[..|next|], next, j)
    requires var o := longer[|next|];
             && o.Some?
             && if FindActive(active, texts[|next|]).Some? then o == FindActive(active, texts[|next|])
                else o.value !in HeldSlots(active) + GivenSlots(next)
    ensures WellAssigned(active, texts, longer, i)
  {
    var last := |next|;
    assert forall j | 0 <= j < last :: longer[j] == next[j] && next[j] in next;
    if FindActive(active, texts[last]).Some? {
      HeldActive(active, texts[last]);
    }
    if i < last {
      assert WellAssigned(active, texts[..last], next, i);
      assert longer[i].value in GivenSlots(next);
    } else {
      forall j | 0 <= j < last && longer[j].Some? ensures longer[j].value in GivenSlots(next) {
        assert next[j] in next;
      }
      assert forall j | 0 <= j < last :: WellAssigned(active, texts[..last], next, j);
    }
  }

  // ---- Release -----------------------------------------------------------------------------

  function ReleaseSlot(slot: Slot, held: bool): Slot {
    if slot.used && !held then slot.(used := false, generation := slot.generation + 1) else slot
  }

  /** Frees and outdates every used slot that `kept` does not hold. */
  function ReleaseAll(pool: seq<Slot>, kept: seq<Option<nat>>): seq<Slot> {
    seq(|pool|, s requires 0 <= s < |pool| => ReleaseSlot(pool[s], Some(s) in kept))
  }

  method Release(pool: array<Slot>, kept: seq<Option<nat>>)
    modifies pool
    ensures pool[..] == ReleaseAll(old(pool[..]), kept)
    ensures forall s | 0 <= s < pool.Length ::
              && pool[s].count == old(pool[s].count) && pool[s].claimed == old(pool[s].claimed)
              && pool[s].state == old(pool[s].state)
              && pool[s].used == (old(pool[s].used) && Some(s) in kept)
              && pool[s].generation ==
                 old(pool[s].generation) + if old(pool[s].used) && Some(s) !in kept then 1 else 0
  {
    var index := 0;
    while index < pool.Length
      invariant index <= pool.Length
      invariant forall s | 0 <= s < index :: pool[s] == ReleaseSlot(old(pool[s]), Some(s) in kept)
      invariant forall s | index <= s < pool.Length :: pool[s] == old(pool[s])
    {
      if pool[index].used {
        var held := 0;
        while held < |kept| && kept[held] != Some(index)
          invariant held <= |kept|
          invariant Some(index) !in kept[..held]
        {
          held := held + 1;
        }
        assert kept[..|kept|] == kept;
        if held == |kept| {
          pool[index] := pool[index].(used := false, generation := pool[index].generation + 1);
        }
      }
      index := index + 1;
    }
  }

  /** The rules of a snapshot built from `texts`, as they stand once slots are attached. */
  function Attach(texts: seq<string>, next: seq<Option<nat>>, pool: seq<Slot>): (rules: seq<Rule>)
    requires |texts| == |next|
    ensures |rules| == |texts|
  {
    seq(|texts|, i requires 0 <= i < |texts| =>
      Rule(texts[i], next[i], if next[i].Some? && next[i].value < |pool| then pool[next[i].value].generation else 0))
  }

  lemma AttachedSlots(texts: seq<string>, next: seq<Option<nat>>, pool: seq<Slot>)
    requires |texts| == |next|
    ensures HeldSlots(Attach(texts, next, pool)) == GivenSlots(next)
  {
    var rules := Attach(texts, next, pool);
    forall s | s in GivenSlots(next) ensures s in HeldSlots(rules) {
      var i :| 0 <= i < |next| && next[i] == Some(s);
      assert rules[i].slot == Some(s) && rules[i] in rules;
    }
    forall s | s in HeldSlots(rules) ensures s in GivenSlots(next) {
      var i :| 0 <= i < |rules| && rules[i].slot == Some(s);
      assert next[i] in next;
    }
  }

  /**
   * A whole reload of the pool: from a settled pool, assigning the new rules and then releasing
   * the departed ones leaves a pool settled for the new snapshot. Every surviving text keeps its
   * slot with its count, claims and generation untouched; every slot that left is free and one
   * generation later; every slot newly taken starts with no hits, no claims and no state, tagged
   * with its generation; every other slot is as it was.
   */
  lemma ReloadSettles(pool: seq<Slot>, active: seq<Rule>, texts: seq<string>)
    requires Settled(pool, active) && InPool(active, |pool|)
    requires |active| + |texts| <= |pool|
    ensures var r := AssignAll(pool, active, texts);
            var after := ReleaseAll(r.pool, r.next);
            var rules := Attach(texts, r.next, r.pool);
            && Settled(after, rules)
            && (forall i | 0 <= i < |texts| :: WellAssigned(active, texts, r.next, i))
            && (forall i | 0 <= i < |texts| :: rules[i].slot.Some? && rules[i].generation == after[rules[i].slot.value].generation)
            && (forall s | 0 <= s < |pool| && s in HeldSlots(active) && s in HeldSlots(rules) :: after[s] == pool[s])
            && (forall i | 0 <= i < |texts| :: rules[i].text == texts[i] && rules[i].slot == r.next[i])
            && (forall s | 0 <= s < |pool| && s in HeldSlots(active) && s !in HeldSlots(rules) ::
                  after[s] == pool[s].(used := false, generation := pool[s].generation + 1))
            && (forall s | 0 <= s < |pool| && s !in HeldSlots(active) && s in HeldSlots(rules) ::
                  && after[s].used && after[s].generation == pool[s].generation
                  && after[s].count == 0 && after[s].state == 0
                  && Claims(after[s].claimed) == 0 && Tag(after[s].claimed) == after[s].generation % TWO32)
            && (forall s | 0 <= s < |pool| && s !in HeldSlots(active) && s !in HeldSlots(rules) :: after[s] == pool[s])
  {
    AssignAllKeeps(pool, active, texts);
    var r := AssignAll(pool, active, texts);
    AttachedSlots(texts, r.next, r.pool);
    forall s | 0 <= s < |pool| ensures Some(s) in r.next <==> s in GivenSlots(r.next) {
    }
    forall i | 0 <= i < |texts| ensures r.next[i].value in GivenSlots(r.next) {
      assert r.next[i] in r.next;
    }
    var after := ReleaseAll(r.pool, r.next);
    forall s | 0 <= s < |pool| && s !in HeldSlots(active) && s in GivenSlots(r.next)
      ensures after[s] == Cleared(pool[s]).(used := true)
      ensures Claims(after[s].claimed) == 0 && Tag(after[s].claimed) == pool[s].generation % TWO32
    {
      FreshClaimWord(pool[s].generation, 0);
    }
  }

  lemma DifferentKept(active: seq<Rule>, x: string, y: string)
    requires x != y
    requires forall a, b | a in active && b in active && a.text != b.text && a.slot.Some? :: a.slot != b.slot
    ensures FindActive(active, x).None? || FindActive(active, x) != FindActive(active, y)
  {
    if FindActive(active, x).Some? && FindActive(active, y).Some? {
      var a :| 0 <= a < |active| && active[a].slot == FindActive(active, x) && active[a].text == x;
      var b :| 0 <= b < |active| && active[b].slot == FindActive(active, y) && active[b].text == y;
      assert active[a] in active && active[b] in active;
    }
  }

  /** Distinct texts get distinct slots, given that the active rules with distinct texts do. */
  lemma DistinctTextsDistinctSlots(active: seq<Rule>, texts: seq<string>, next: seq<Option<nat>>, i: nat, j: nat)
    requires |next| == |texts| && i < |texts| && j < |texts| && texts[i] != texts[j]
    requires WellAssigned(active, texts, next, i) && WellAssigned(active, texts, next, j)
    requires forall a, b | a in active && b in active && a.text != b.text && a.slot.Some? :: a.slot != b.slot
    ensures next[i] != next[j]
  {
    DifferentKept(active, texts[i], texts[j]);
  }

  /**
   * Only the active texts are searched, so two rules with one text share a slot exactly when an
   * active rule has that text; in a first load each gets its own.
   */
  lemma DuplicatesShareOnlyASurvivor(active: seq<Rule>, texts: seq<string>, next: seq<Option<nat>>, i: nat, j: nat)
    requires |next| == |texts| && i < |texts| && j < |texts| && i != j && texts[i] == texts[j]
    requires WellAssigned(active, texts, next, i) && WellAssigned(active, texts, next, j)
    ensures next[i] == next[j] <==> FindActive(active, texts[i]).Some?
  {
  }

  lemma DuplicatesOfAFirstLoad(pool: seq<Slot>, text: string)
    requires |pool| >= 2 && forall s | 0 <= s < |pool| :: !pool[s].used
    ensures AssignAll(pool, [], [text, text]).next == [Some(0), Some(1)]
  {
    assert [text, text][..1] == [text];
    assert [text][..0] == [];
    var p0 := AssignAll(pool, [], []);
    var p1 := AssignOne(p0, [], text);
    assert AssignAll(pool, [], [text]) == p1;
    assert p1.next == [Some(0)] && p1.cursor == 0;
    assert NextFree(p1.pool, 1) == 1;
  }

  // ---- Reset and fork ----------------------------------------------------------------------

  function ResetSlot(slot: Slot): Slot {
    Slot(0, ClaimsNone(slot.generation + 1), 0, slot.generation + 1, false)
  }

  method PoolReset(pool: array<Slot>)
    modifies pool
    ensures forall s | 0 <= s < pool.Length :: pool[s] == ResetSlot(old(pool[s]))
    ensures Settled(pool[..], [])
    ensures forall s | 0 <= s < pool.Length ::
              && pool[s].generation == old(pool[s].generation) + 1 && !pool[s].used
              && pool[s].count == 0 && pool[s].state == 0
              && Claims(pool[s].claimed) == 0 && Tag(pool[s].claimed) == pool[s].generation % TWO32
  {
    var index := 0;
    while index < pool.Length
      invariant index <= pool.Length
      invariant forall s | 0 <= s < index :: pool[s] == ResetSlot(old(pool[s]))
      invariant forall s | index <= s < pool.Length :: pool[s] == old(pool[s])
    {
      pool[index] := pool[index].(used := false);
      pool[index] := pool[index].(count := 0);
      pool[index] := pool[index].(state := 0);
      pool[index] := pool[index].(generation := pool[index].generation + 1);
      pool[index] := pool[index].(claimed := ClaimsNone(pool[index].generation));
      index := index + 1;
    }
    forall s | 0 <= s < pool.Length
      ensures Claims(pool[s].claimed) == 0 && Tag(pool[s].claimed) == pool[s].generation % TWO32
    {
      FreshClaimWord(pool[s].generation, 0);
    }
  }

  /** REGRESS state 3 (a parent thread was deciding) returns to armed; every other state stays. */
  function ForkSlot(slot: Slot): Slot {
    slot.(count := 0, claimed := ClaimsNone(slot.generation), state := if slot.state == 3 then 1 else slot.state)
  }

  method ForkReset(pool: array<Slot>)
    modifies pool
    ensures forall s | 0 <= s < pool.Length :: pool[s] == ForkSlot(old(pool[s]))
  {
    var index := 0;
    while index < pool.Length
      invariant index <= pool.Length
      invariant forall s | 0 <= s < index :: pool[s] == ForkSlot(old(pool[s]))
      invariant forall s | index <= s < pool.Length :: pool[s] == old(pool[s])
    {
      if pool[index].count != 0 {
        pool[index] := pool[index].(count := 0);
      }
      if pool[index].claimed != ClaimsNone(pool[index].generation) {
        pool[index] := pool[index].(claimed := ClaimsNone(pool[index].generation));
      }
      if pool[index].state == 3 {
        pool[index] := pool[index].(state := 1);
      }
      index := index + 1;
    }
  }

  lemma HeldByList(active: seq<Rule>, slots: seq<Option<nat>>)
    requires |slots| == |active| && forall i | 0 <= i < |active| :: slots[i] == active[i].slot
    ensures forall s: nat :: Some(s) in slots <==> s in HeldSlots(active)
  {
    forall s: nat ensures Some(s) in slots <==> s in HeldSlots(active) {
      if Some(s) in slots {
        var i :| 0 <= i < |slots| && slots[i] == Some(s);
        assert active[i] in active;
      }
      if s in HeldSlots(active) {
        var i :| 0 <= i < |active| && active[i].slot == Some(s);
        assert slots[i] == Some(s);
      }
    }
  }

  /** What a fork makes of the pool. */
  function Forked(pool: seq<Slot>, active: seq<Rule>): (child: seq<Slot>)
    ensures |child| == |pool|
    ensures forall s | 0 <= s < |pool| :: child[s] == ForkSlot(ReleaseSlot(pool[s], s in HeldSlots(active)))
  {
    seq(|pool|, s requires 0 <= s < |pool| => ForkSlot(ReleaseSlot(pool[s], s in HeldSlots(active))))
  }

  /**
   * Slot by slot, what a fork keeps and what it starts over: a used slot no active rule holds is
   * released; hits and claims restart under the slot's own tag; a REGRESS decision that a thread of the
   * parent was making is armed again and every other state stays.
   */
  lemma ForkedSlot(pool: seq<Slot>, active: seq<Rule>, s: nat)
    requires s < |pool|
    ensures var slot, departed := Forked(pool, active)[s], pool[s].used && s !in HeldSlots(active);
            && slot.count == 0 && Claims(slot.claimed) == 0 && Tag(slot.claimed) == slot.generation % TWO32
            && slot.state == (if pool[s].state == 3 then 1 else pool[s].state)
            && slot.used == (pool[s].used && s in HeldSlots(active))
            && slot.generation == pool[s].generation + if departed then 1 else 0
  {
    FreshClaimWord(Forked(pool, active)[s].generation, 0);
  }

  /** Whether every active rule's slot is still in use. */
  ghost predicate StillInUse(pool: seq<Slot>, active: seq<Rule>)
    requires InPool(active, |pool|)
  {
    forall r | r in active && r.slot.Some? :: pool[r.slot.value].used
  }

  /** The child's pool is settled exactly when the fork found every active rule's slot in use. */
  lemma ForkSettlesWhatIsInUse(pool: seq<Slot>, active: seq<Rule>)
    requires InPool(active, |pool|)
    ensures Settled(Forked(pool, active), active) <==> StillInUse(pool, active)
  {
    var child := Forked(pool, active);
    forall r | r in active && r.slot.Some? ensures child[r.slot.value].used == pool[r.slot.value].used {
    }
  }

  /**
   * The child's pool: slots of a half-built snapshot are released, counts and claims restart. It is
   * settled for `active` unless the fork fell between the release of a departed rule's slot and
   * the store of the new index, when that slot is unused although `active` still holds it.
   */
  method PoolAfterFork(pool: array<Slot>, active: seq<Rule>)
    requires InPool(active, pool.Length)
    modifies pool
    ensures pool[..] == Forked(old(pool[..]), active)
    ensures Settled(pool[..], active) <==> StillInUse(old(pool[..]), active)
  {
    hide Settled, StillInUse;
    var slots := seq(|active|, i requires 0 <= i < |active| => active[i].slot);
    HeldByList(active, slots);
    ForkSettlesWhatIsInUse(pool[..], active);
    Release(pool, slots);
    ForkReset(pool);
    assert pool[..] == Forked(old(pool[..]), active);
  }

  /** Unused slots that an assignment hands out before it comes to slot `s`. */
  function UnusedBefore(pool: seq<Slot>, s: nat): nat
    requires s <= |pool|
  {
    if s == 0 then 0 else UnusedBefore(pool, s - 1) + if pool[s - 1].used then 0 else 1
  }

  lemma {:induction false} NoneUnusedBefore(pool: seq<Slot>, s: nat)
    requires s <= |pool| && UnusedBefore(pool, s) == 0
    ensures forall i | 0 <= i < s :: pool[i].used
  {
    if s > 0 {
      NoneUnusedBefore(pool, s - 1);
    }
  }

  lemma {:induction false} LastUnusedBefore(pool: seq<Slot>, s: nat) returns (last: nat)
    requires s <= |pool| && UnusedBefore(pool, s) > 0
    ensures last < s && !pool[last].used && UnusedBefore(pool, last) == UnusedBefore(pool, s) - 1
    ensures forall i | last < i < s :: pool[i].used
  {
    if pool[s - 1].used {
      last := LastUnusedBefore(pool, s - 1);
    } else {
      last := s - 1;
    }
  }

  function Repeat(text: string, n: nat): (texts: seq<string>)
    ensures |texts| == n && forall i | 0 <= i < n :: texts[i] == text
  {
    seq(n, _ => text)
  }

  /** Assigning a text that is not active, as often as there are unused slots up to `s`, ends on `s`. */
  lemma {:induction false} FreshTextsReach(pool: seq<Slot>, active: seq<Rule>, text: string, s: nat)
    requires InPool(active, |pool|) && FindActive(active, text).None? && s < |pool| && !pool[s].used
    ensures var p := AssignAll(pool, active, Repeat(text, UnusedBefore(pool, s) + 1));
            && p.cursor == s && p.next[UnusedBefore(pool, s)] == Some(s)
            && (forall i | 0 <= i <= s :: p.pool[i].used) && forall i | s < i < |pool| :: p.pool[i] == pool[i]
    decreases s
  {
    hide FindActive, Cleared;
    var n := UnusedBefore(pool, s);
    var texts := Repeat(text, n + 1);
    assert texts[..n] == Repeat(text, n);
    if n == 0 {
      NoneUnusedBefore(pool, s);
      assert AssignAll(pool, active, texts[..0]) == Progress(pool, [], 0);
    } else {
      var last := LastUnusedBefore(pool, s);
      FreshTextsReach(pool, active, text, last);
    }
    var before := AssignAll(pool, active, texts[..n]);
    assert NextFree(before.pool, before.cursor) == s;
    AssignNext(pool, active, texts, n);
    assert texts[..n + 1] == texts;
  }

  /**
   * Whatever the pool: an unused slot that an active rule holds is handed out a second time, by a
   * reload of a text that is not active, once for every unused slot up to that one, and the rule's.
   */
  lemma {:induction false} UnusedSlotIsShared(pool: seq<Slot>, active: seq<Rule>, x: string, y: string)
    requires InPool(active, |pool|) && FindActive(active, x).Some? && FindActive(active, y).None?
    requires var s := FindActive(active, x).value; s < |pool| && !pool[s].used
    ensures var s := FindActive(active, x).value;
            var n := UnusedBefore(pool, s) + 1;
            var texts := Repeat(y, n) + [x];
            && texts[n - 1] == y != x == texts[n]
            && AssignAll(pool, active, texts).next[n - 1] == Some(s) == AssignAll(pool, active, texts).next[n]
  {
    var s := FindActive(active, x).value;
    var n := UnusedBefore(pool, s) + 1;
    FreshTextsReach(pool, active, y, s);
    hide AssignAll, FindActive, Cleared;
    var texts := Repeat(y, n) + [x];
    assert texts[..n] == Repeat(y, n) && texts[..n + 1] == texts;
    AssignNext(pool, active, texts, n);
  }

  lemma {:induction false} UnusedAfterUse(pool: seq<Slot>, v: nat, slot: Slot, s: nat)
    requires v < |pool| && slot.used && s <= |pool|
    ensures UnusedBefore(pool, s) <= UnusedBefore(pool[v := slot], s) + if v < s then 1 else 0
  {
    if s > 0 {
      UnusedAfterUse(pool, v, slot, s - 1);
    }
  }

  /** An assignment so far: slots only come into use, one for each text. */
  ghost predicate UsesSlots(pool: seq<Slot>, p: Progress) {
    && |p.pool| == |pool| && p.cursor <= |pool|
    && (forall v | 0 <= v < |pool| && pool[v].used :: p.pool[v].used)
    && (forall v | 0 <= v < p.cursor :: p.pool[v].used)
    && (forall m | 0 <= m < |p.next| && p.next[m].Some? :: p.next[m].value < |pool| && p.pool[p.next[m].value].used)
    && forall s | 0 <= s <= |pool| :: UnusedBefore(pool, s) <= UnusedBefore(p.pool, s) + |p.next|
  }

  lemma AssignOneUses(pool: seq<Slot>, p: Progress, active: seq<Rule>, text: string)
    requires InPool(active, |pool|) && UsesSlots(pool, p)
    ensures UsesSlots(pool, AssignOne(p, active, text))
  {
    hide UnusedBefore;
    var q := AssignOne(p, active, text);
    var given := q.next[|p.next|];
    KeptSlotInPool(active, text, |pool|);
    hide FindActive, InPool, Cleared;
    if given.Some? {
      forall s | 0 <= s <= |pool| ensures UnusedBefore(p.pool, s) <= UnusedBefore(q.pool, s) + 1 {
        UnusedAfterUse(p.pool, given.value, q.pool[given.value], s);
      }
    }
  }

  lemma {:induction false} AssignUses(pool: seq<Slot>, active: seq<Rule>, texts: seq<string>)
    requires InPool(active, |pool|)
    ensures UsesSlots(pool, AssignAll(pool, active, texts))
  {
    if texts != [] {
      AssignUses(pool, active, texts[..|texts| - 1]);
      AssignOneUses(pool, AssignAll(pool, active, texts[..|texts| - 1]), active, texts[|texts| - 1]);
    }
  }

  lemma {:induction false} AssignPrefix(pool: seq<Slot>, active: seq<Rule>, texts: seq<string>, k: nat)
    requires InPool(active, |pool|) && k <= |texts|
    ensures AssignAll(pool, active, texts).next[..k] == AssignAll(pool, active, texts[..k]).next
    decreases |texts|
  {
    if k == |texts| {
      assert texts[..k] == texts;
    } else {
      var init := texts[..|texts| - 1];
      AssignPrefix(pool, active, init, k);
      assert init[..k] == texts[..k];
    }
  }

  /** The slot text i gets: its active rule's, or one unused so far with none unused before it. */
  lemma GivenSlot(pool: seq<Slot>, active: seq<Rule>, texts: seq<string>, i: nat)
    requires InPool(active, |pool|) && i < |texts| && AssignAll(pool, active, texts).next[i].Some?
    ensures var s, before := AssignAll(pool, active, texts).next[i].value, AssignAll(pool, active, texts[..i]);
            if FindActive(active, texts[i]).Some? then FindActive(active, texts[i]) == Some(s)
            else s < |pool| && !before.pool[s].used && forall v | 0 <= v < s :: before.pool[v].used
  {
    AssignPrefix(pool, active, texts, i + 1);
    AssignNext(pool, active, texts, i);
    AssignUses(pool, active, texts[..i]);
    hide AssignAll, UnusedBefore, FindActive;
    assert AssignAll(pool, active, texts).next[i] == AssignAll(pool, active, texts).next[..i + 1][i];
  }

  lemma {:induction false} AllUsedBefore(pool: seq<Slot>, s: nat)
    requires s <= |pool| && forall v | 0 <= v < s :: pool[v].used
    ensures UnusedBefore(pool, s) == 0
  {
    if s > 0 {
      AllUsedBefore(pool, s - 1);
    }
  }

  /**
   * Nor is a slot shared otherwise: where different active texts have different slots, two texts get
   * one slot only if it is an unused slot of the later one's active rule, and the rules listed are at
   * least two more than the unused slots before it.
   */
  lemma SharedOnlyWhenUnused(pool: seq<Slot>, active: seq<Rule>, texts: seq<string>, i: nat, j: nat)
    requires InPool(active, |pool|) && i < j < |texts| && texts[i] != texts[j]
    requires forall a, b | a in active && b in active && a.text != b.text && a.slot.Some? :: a.slot != b.slot
    requires AssignAll(pool, active, texts).next[i] == AssignAll(pool, active, texts).next[j] != None
    ensures FindActive(active, texts[i]).None? && FindActive(active, texts[j]) == AssignAll(pool, active, texts).next[i]
    ensures var s := AssignAll(pool, active, texts).next[i].value;
            s < |pool| && !pool[s].used && UnusedBefore(pool, s) + 2 <= |texts|
  {
    var s := AssignAll(pool, active, texts).next[i].value;
    GivenSlot(pool, active, texts, i);
    GivenSlot(pool, active, texts, j);
    AssignUses(pool, active, texts[..i]);
    AssignUses(pool, active, texts[..j]);
    AssignPrefix(pool, active, texts, j);
    assert AssignAll(pool, active, texts[..j]).next[i] == AssignAll(pool, active, texts).next[..j][i];
    KeptSlotInPool(active, texts[i], |pool|);
    DifferentKept(active, texts[i], texts[j]);
    hide AssignAll, FindActive, InPool;
    if FindActive(active, texts[i]).None? {
      AllUsedBefore(AssignAll(pool, active, texts[..i]).pool, s);
    }
  }

  /** A fork keeps an unused slot unused, also when an active rule holds it. */
  lemma {:induction false} ForkKeepsUnused(pool: seq<Slot>, active: seq<Rule>, x: string)
    requires InPool(active, |pool|) && FindActive(active, x).Some?
    requires var s := FindActive(active, x).value; s < |pool| && !pool[s].used
    ensures !Forked(pool, active)[FindActive(active, x).value].used && !Settled(Forked(pool, active), active)
  {
    hide Settled;
    var i :| 0 <= i < |active| && active[i].slot == FindActive(active, x) && active[i].text == x;
    assert active[i] in active;
    ForkSettlesWhatIsInUse(pool, active);
  }

  /**
   * So after any fork that found an active rule's slot unused: from the child's pool some reload gives
   * that slot to two texts, with two rules more than there are unused slots before it.
   */
  lemma {:induction false} UnsettledForkSharesASlot(pool: seq<Slot>, active: seq<Rule>, x: string, y: string)
    requires InPool(active, |pool|) && FindActive(active, x).Some? && FindActive(active, y).None?
    requires var s := FindActive(active, x).value; s < |pool| && !pool[s].used
    ensures var child, s := Forked(pool, active), FindActive(active, x).value;
            var texts := Repeat(y, UnusedBefore(child, s) + 1) + [x];
            && !Settled(child, active) && |texts| == UnusedBefore(child, s) + 2
            && AssignAll(child, active, texts).next[|texts| - 2] == AssignAll(child, active, texts).next[|texts| - 1] == Some(s)
  {
    hide AssignAll, Settled, Forked, FindActive, UnusedBefore, Repeat;
    ForkKeepsUnused(pool, active, x);
    UnusedSlotIsShared(Forked(pool, active), active, x, y);
  }

  /** The release of a departed rule leaves its slot unused. */
  lemma ReleasedIsUnused(pool: seq<Slot>)
    requires |pool| > 0
    ensures |ReleaseAll(pool, [])| == |pool| && !ReleaseAll(pool, [])[0].used
  {
  }

  /**
   * What then goes wrong: the parent had released the slot of a departed rule `x`, and the child's
   * first reload, of a file with `y` and `x`, gives both rules that slot.
   */
  lemma {:induction false} ForkInReleaseWindowSharesASlot(parent: seq<Slot>, x: string, y: string, generation: nat)
    requires |parent| > 0 && parent[0].used && x != y
    ensures var active := [Rule(x, Some(0), generation)];
            var child := Forked(ReleaseAll(parent, []), active);
            && InPool(active, |child|) && !Settled(child, active)
            && AssignAll(child, active, [y, x]).next == [Some(0), Some(0)]
  {
    hide AssignAll, ReleaseAll, Forked, Settled, InPool, Repeat;
    var active := [Rule(x, Some(0), generation)];
    ReleasedIsUnused(parent);
    assert FindActive(active, x) == Some(0) && FindActive(active, y).None?;
    assert InPool(active, |parent|) by {
      OnlyRuleInPool(active[0], |parent|);
    }
    ForkKeepsUnused(ReleaseAll(parent, []), active, x);
    UnusedSlotIsShared(Forked(ReleaseAll(parent, []), active), active, x, y);
    OneRepeat(y);
    assert Repeat(y, 1) + [x] == [y, x];
    assert AssignAll(Forked(ReleaseAll(parent, []), active), active, [y, x]).next == [Some(0), Some(0)];
  }

  lemma OnlyRuleInPool(rule: Rule, size: nat)
    requires rule.slot.Some? && rule.slot.value < size
    ensures InPool([rule], size)
  {
  }

  lemma OneRepeat(text: string)
    ensures Repeat(text, 1) == [text]
  {
  }
}
