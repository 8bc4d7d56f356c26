/** OVERRIDE answers: the literals' real results are copied into one block and released at once. */
module DnsOverride {
  import opened DnsLists
  import opened DnsAnswers
  import opened Options

  ghost function Families(nodes: Nodes): (families: seq<int>)
    ensures |families| == |nodes|
    ensures forall i | 0 <= i < |nodes| :: families[i] == nodes[i].family
  {
    seq(|nodes|, i requires 0 <= i < |nodes| => nodes[i].family)
  }

  /** The families of several lists in a row. */
  ghost function FamiliesOfAll(contents: seq<Nodes>): seq<int> {
    if contents == [] then [] else FamiliesOfAll(contents[..|contents| - 1]) + Families(contents[|contents| - 1])
  }

  ghost function Pooled(contents: seq<Nodes>): set<AddrInfo> {
    set i, n | 0 <= i < |contents| && n in contents[i] :: n
  }

  ghost predicate AllLists(lists: seq<AddrInfo?>, contents: seq<Nodes>)
    reads Pooled(contents)
  {
    |lists| == |contents| && forall i | 0 <= i < |lists| :: IsList(lists[i], contents[i])
  }

  // ---- One block from several lists --------------------------------------------------------

  /** A list in the making, of new nodes without names. */
  ghost predicate IsCopy(block: Nodes)
    reads Set(block)
  {
    IsList(At(block, 0), block) && NameOnHead(block, None)
  }

  /** Copies one node behind a block. */
  method AppendCopy(block: Nodes, node: AddrInfo) returns (block': Nodes)
    requires IsCopy(block) && node.live
    modifies (if block == [] then {} else {block[|block| - 1]})`next
    ensures IsCopy(block') && |block'| == |block| + 1 && block <= block' && fresh(block'[|block|])
    ensures Families(block') == Families(block) + [node.family]
  {
    var copy := new AddrInfo(node.family, None);
    block' := block + [copy];
    if |block| > 0 {
      assert block[|block| - 1] == block'[|block| - 1];
      block[|block| - 1].SetNext(copy);
    }
  }

  /** Copies a whole list behind a block. */
  method CopyList(head: AddrInfo?, ghost nodes: Nodes, block: Nodes) returns (block': Nodes)
    requires IsList(head, nodes) && IsCopy(block) && Set(block) !! Set(nodes)
    modifies Set(block)`next
    ensures IsCopy(block') && |block'| == |block| + |nodes| && block <= block'
    ensures forall i | |block| <= i < |block'| :: fresh(block'[i])
    ensures Families(block') == Families(block) + Families(nodes)
  {
    hide IsCopy, IsList;
    block' := block;
    var node := head;
    ghost var i := 0;
    HeadOf(head, nodes);
    ListFacts(head, nodes);
    while node != null
      invariant i <= |nodes| && node == At(nodes, i)
      invariant IsList(head, nodes) && IsCopy(block')
      invariant |block'| == |block| + i && block <= block'
      invariant forall k | |block| <= k < |block'| :: fresh(block'[k])
      invariant Families(block') == Families(block) + Families(nodes)[..i]
      decreases |nodes| - i
    {
      NodeOf(head, nodes, i);
      assert Families(nodes)[..i + 1] == Families(nodes)[..i] + [nodes[i].family];
      assert |block'| > 0 ==> block'[|block'| - 1] !in Set(nodes);
      block' := AppendCopy(block', node);
      node := node.Next();
      i := i + 1;
    }
  }

  lemma OneMoreList(contents: seq<Nodes>, i: nat)
    requires i < |contents|
    ensures FamiliesOfAll(contents[..i + 1]) == FamiliesOfAll(contents[..i]) + Families(contents[i])
    ensures Set(contents[i]) <= Pooled(contents)
  {
    assert contents[..i + 1][..i] == contents[..i];
    forall n | n in Set(contents[i]) ensures n in Pooled(contents) {
    }
  }

  /** The first pass: how many nodes there are. */
  method CountAll(lists: seq<AddrInfo?>, ghost contents: seq<Nodes>) returns (total: nat)
    requires AllLists(lists, contents)
    ensures total == |FamiliesOfAll(contents)|
  {
    total := 0;
    for i := 0 to |lists|
      invariant total == |FamiliesOfAll(contents[..i])|
    {
      OneMoreList(contents, i);
      var count := Count(lists[i], contents[i]);
      total := total + count;
    }
    assert contents[..|lists|] == contents;
  }

  /** The second pass: the copies, in order. */
  method CopyAll(lists: seq<AddrInfo?>, ghost contents: seq<Nodes>) returns (block: Nodes)
    requires AllLists(lists, contents)
    ensures IsCopy(block) && fresh(Set(block)) && Families(block) == FamiliesOfAll(contents)
  {
    hide IsCopy, IsList;
    block := [];
    EmptyCopy();
    for i := 0 to |lists|
      invariant IsCopy(block) && fresh(Set(block)) && AllLists(lists, contents)
      invariant Families(block) == FamiliesOfAll(contents[..i])
    {
      OneMoreList(contents, i);
      ghost var before := block;
      block := CopyList(lists[i], contents[i], block);
      forall n | n in Set(block) ensures fresh(n) {
        var k :| 0 <= k < |block| && block[k] == n;
        assert k < |before| ==> n in Set(before);
      }
    }
    assert contents[..|lists|] == contents;
  }

  lemma EmptyCopy()
    ensures IsCopy([])
  {
  }

  ghost predicate Full(table: seq<Option<Nodes>>) {
    forall i | 0 <= i < |table| :: table[i].Some?
  }

  /** Names a finished block and enters it in the table, or gives it back. */
  method Publish(registry: Registry, nodes: Nodes, name: Option<string>) returns (ghost slot: nat, ok: bool)
    requires registry.Valid() && IsCopy(nodes) && nodes != [] && forall n | n in nodes :: !registry.Holds(n)
    modifies registry, Set(nodes)
    ensures registry.Valid() && (ok <==> !Full(old(registry.table)))
    ensures !ok ==> registry.table == old(registry.table)
    ensures ok ==>
              && IsList(nodes[0], nodes) && NameOnHead(nodes, name)
              && slot < MAX_OWNED && old(registry.table)[slot].None?
              && registry.table == old(registry.table)[slot := Some(nodes)]
  {
    if name.Some? {
      nodes[0].SetName(name);
    }
    hide Linked, NameOnHead;
    slot, ok := registry.Register(nodes);
    if !ok {
      ReleaseEach(nodes);
    }
  }

  /** Real lists that share no node. */
  ghost predicate Separate(registry: Registry, chosen: seq<Nodes>)
    reads registry
  {
    && (forall i | 0 <= i < |chosen| :: Uniform(registry, chosen[i], false))
    && (forall i, j | 0 <= i < j < |chosen| :: Set(chosen[i]) !! Set(chosen[j]))
  }

  /** Registering a block of new nodes leaves every real list unheld. */
  lemma StillSeparate(registry: Registry, chosen: seq<Nodes>, table: seq<Option<Nodes>>, slot: nat, block: Nodes)
    requires forall i, j, n | 0 <= i < |chosen| && 0 <= j < |table| && table[j].Some? && n in chosen[i] :: n !in table[j].value
    requires forall i, n | 0 <= i < |chosen| && n in chosen[i] :: n !in block
    requires forall i, j | 0 <= i < j < |chosen| :: Set(chosen[i]) !! Set(chosen[j])
    requires registry.table == table || (slot < |table| && registry.table == table[slot := Some(block)])
    ensures Separate(registry, chosen)
  {
    forall i | 0 <= i < |chosen| ensures Uniform(registry, chosen[i], false) {
      forall k | 0 <= k < |chosen[i]| ensures !registry.Holds(chosen[i][k]) {
        assert chosen[i][k] in chosen[i];
      }
    }
  }

  lemma NotInTable(registry: Registry, chosen: seq<Nodes>)
    requires registry.Valid() && Separate(registry, chosen)
    ensures forall i, j, n | 0 <= i < |chosen| && 0 <= j < |registry.table| && registry.table[j].Some? && n in chosen[i] ::
              n !in registry.table[j].value
  {
    forall i, j, n | 0 <= i < |chosen| && 0 <= j < |registry.table| && registry.table[j].Some? && n in chosen[i]
      ensures n !in registry.table[j].value
    {
      var k :| 0 <= k < |chosen[i]| && chosen[i][k] == n;
      assert !registry.Holds(chosen[i][k]);
      assert !registry.InSlot(j, n);
    }
  }

  /**
   * Copies the nodes of several lists into one registered block. Fails for no nodes, without
   * memory, or when the registry is full; the block is then given back.
   */
  method OwnedCopy(registry: Registry, lists: seq<AddrInfo?>, ghost contents: seq<Nodes>, name: Option<string>, memory: bool)
    returns (head: AddrInfo?, ghost block: Nodes, ghost slot: nat)
    requires registry.Valid() && AllLists(lists, contents) && Separate(registry, contents)
    modifies registry
    ensures registry.Valid() && Separate(registry, contents)
    ensures head == null <==> FamiliesOfAll(contents) == [] || !memory || Full(old(registry.table))
    ensures head == null ==> registry.table == old(registry.table)
    ensures head != null ==>
              && block != [] && IsList(head, block) && NameOnHead(block, name) && fresh(Set(block))
              && Families(block) == FamiliesOfAll(contents)
              && slot < MAX_OWNED && old(registry.table)[slot].None?
              && registry.table == old(registry.table)[slot := Some(block)]
  {
    assert |registry.table| == MAX_OWNED;
    hide NameOnHead, IsCopy, Registry.Valid, Full;
    block, slot := [], 0;
    var total := CountAll(lists, contents);
    if total == 0 || !memory {
      return null, block, slot;
    }
    var nodes := CopyAll(lists, contents);
    block := nodes;
    forall n | n in block ensures fresh(n) && !registry.Holds(n) {
      assert n in Set(block);
    }
    forall i, n | 0 <= i < |contents| && n in contents[i] ensures n !in block {
      assert !fresh(n);
    }
    var ok;
    NotInTable(registry, contents);
    ghost var table := registry.table;
    slot, ok := Publish(registry, nodes, name);
    StillSeparate(registry, contents, table, slot, block);
    head := if ok then nodes[0] else null;
  }

  // ---- Resolving the literals --------------------------------------------------------------

  /** What becomes of one literal: unusable, of a family not asked for, or the real resolver's answer. */
  datatype Literal = Malformed | OtherFamily | Answer(rc: int, list: AddrInfo?)

  datatype Gathered = Gathered(rc: int, picks: seq<nat>)

  /** The literals resolved from `k` on, `count` being resolved already, and the error that ends it. */
  function Gather(literals: seq<Literal>, k: nat, count: nat): (g: Gathered)
    requires k <= |literals| && count <= MAX_OVERRIDE
    ensures forall i | 0 <= i < |g.picks| ::
              k <= g.picks[i] < |literals| && literals[g.picks[i]].Answer? && literals[g.picks[i]].rc == 0
    ensures forall i, j | 0 <= i < j < |g.picks| :: g.picks[i] < g.picks[j]
    ensures |g.picks| + count <= MAX_OVERRIDE
    decreases |literals| - k
  {
    if k == |literals| then Gathered(0, [])
    else if literals[k].Malformed? || count == MAX_OVERRIDE then Gathered(EAI_FAIL, [])
    else if literals[k].OtherFamily? then Gather(literals, k + 1, count)
    else if literals[k].rc != 0 then Gathered(literals[k].rc, [])
    else
      var rest := Gather(literals, k + 1, count + 1);
      Gathered(rest.rc, [k] + rest.picks)
  }

  predicate Usable(literal: Literal) {
    literal.Answer? && literal.rc == 0
  }

  /** What ends the resolving at `stop`: nothing, or a malformed literal, the limit, or a refusal. */
  predicate EndsAt(literals: seq<Literal>, stop: nat, full: bool, rc: int) {
    if stop == |literals| then rc == 0
    else stop < |literals| && rc != 0 && if literals[stop].Malformed? || full then rc == EAI_FAIL
                                         else literals[stop].Answer? && rc == literals[stop].rc
  }

  /** The picks are every usable literal from `k` up to the one at `stop`, which ends it. */
  ghost predicate TakesAll(literals: seq<Literal>, k: nat, count: nat, g: Gathered, stop: nat) {
    && k <= stop <= |literals|
    && (forall i :: i in g.picks <==> k <= i < stop && Usable(literals[i]))
    && (forall i | k <= i < stop :: Usable(literals[i]) || literals[i].OtherFamily?)
    && EndsAt(literals, stop, count + |g.picks| == MAX_OVERRIDE, g.rc)
  }

  lemma SkipsOne(literals: seq<Literal>, k: nat, count: nat, g: Gathered, stop: nat)
    requires k < |literals| && literals[k].OtherFamily? && TakesAll(literals, k + 1, count, g, stop)
    ensures TakesAll(literals, k, count, g, stop)
  {
    hide EndsAt;
  }

  lemma TakesOne(literals: seq<Literal>, k: nat, count: nat, rest: Gathered, stop: nat)
    requires k < |literals| && Usable(literals[k]) && TakesAll(literals, k + 1, count + 1, rest, stop)
    ensures TakesAll(literals, k, count, Gathered(rest.rc, [k] + rest.picks), stop)
  {
    hide EndsAt;
    assert forall i :: i in [k] + rest.picks <==> i == k || i in rest.picks;
    assert count + |[k] + rest.picks| == count + 1 + |rest.picks|;
  }

  /** What is gathered is every usable literal, in order, up to the one that ends it. */
  lemma {:induction false} GatherTakesAll(literals: seq<Literal>, k: nat, count: nat) returns (stop: nat)
    requires k <= |literals| && count <= MAX_OVERRIDE
    ensures TakesAll(literals, k, count, Gather(literals, k, count), stop)
    decreases |literals| - k
  {
    if k == |literals| || literals[k].Malformed? || count == MAX_OVERRIDE {
      stop := k;
    } else if literals[k].OtherFamily? {
      stop := GatherTakesAll(literals, k + 1, count);
      SkipsOne(literals, k, count, Gather(literals, k + 1, count), stop);
    } else if literals[k].rc != 0 {
      stop := k;
    } else {
      stop := GatherTakesAll(literals, k + 1, count + 1);
      TakesOne(literals, k, count, Gather(literals, k + 1, count + 1), stop);
    }
  }

  /** Every answer of the resolver is a list of its own, in the C library's memory. */
  ghost predicate Resolved(registry: Registry, literals: seq<Literal>, contents: seq<Nodes>)
    reads registry, Pooled(contents)
  {
    && |contents| == |literals|
    && (forall i | 0 <= i < |literals| && literals[i].Answer? && literals[i].rc == 0 :: IsList(literals[i].list, contents[i]))
    && (forall i | 0 <= i < |contents| :: Uniform(registry, contents[i], false))
    && (forall i, j | 0 <= i < j < |contents| :: Set(contents[i]) !! Set(contents[j]))
  }

  ghost function Chosen(contents: seq<Nodes>, picks: seq<nat>): (chosen: seq<Nodes>)
    requires forall i | 0 <= i < |picks| :: picks[i] < |contents|
    ensures |chosen| == |picks| && forall i | 0 <= i < |picks| :: chosen[i] == contents[picks[i]]
  {
    seq(|picks|, i requires 0 <= i < |picks| => contents[picks[i]])
  }

  /** The real results that resolving the literals obtains. */
  ghost function Obtained(literals: seq<Literal>, contents: seq<Nodes>): seq<Nodes>
    requires |contents| == |literals|
  {
    Chosen(contents, Gather(literals, 0, 0).picks)
  }

  function Prepend(picks: seq<nat>, g: Gathered): Gathered {
    Gathered(g.rc, picks + g.picks)
  }

  /** One literal's part in what is gathered. */
  lemma GatherStep(literals: seq<Literal>, k: nat, picks: seq<nat>)
    requires k < |literals| && |picks| <= MAX_OVERRIDE
    ensures var all := Prepend(picks, Gather(literals, k, |picks|));
            if literals[k].Malformed? || |picks| == MAX_OVERRIDE then all == Gathered(EAI_FAIL, picks)
            else if literals[k].OtherFamily? then all == Prepend(picks, Gather(literals, k + 1, |picks|))
            else if literals[k].rc != 0 then all == Gathered(literals[k].rc, picks)
            else all == Prepend(picks + [k], Gather(literals, k + 1, |picks| + 1))
  {
    assert picks + [] == picks;
    if literals[k].Answer? && literals[k].rc == 0 && |picks| < MAX_OVERRIDE {
      var rest := Gather(literals, k + 1, |picks| + 1).picks;
      assert picks + ([k] + rest) == picks + [k] + rest;
    }
  }

  ghost predicate Picked(literals: seq<Literal>, picks: seq<nat>, partials: seq<AddrInfo?>) {
    && |picks| == |partials|
    && forall i | 0 <= i < |picks| :: picks[i] < |literals| && literals[picks[i]].Answer? && partials[i] == literals[picks[i]].list
  }

  /** Resolves one literal after another, until one fails. */
  method ResolveLiterals(literals: seq<Literal>) returns (rc: int, partials: seq<AddrInfo?>)
    ensures var g := Gather(literals, 0, 0); rc == g.rc && Picked(literals, g.picks, partials)
  {
    hide Gather;
    rc, partials := 0, [];
    var k := 0;
    ghost var picks: seq<nat> := [];
    ghost var all := Gather(literals, 0, 0);
    assert all == Prepend([], all);
    while k < |literals| && rc == 0
      invariant k <= |literals| && |picks| <= MAX_OVERRIDE && Picked(literals, picks, partials)
      invariant all == if rc == 0 then Prepend(picks, Gather(literals, k, |picks|)) else Gathered(rc, picks)
      decreases |literals| - k, rc == 0
    {
      GatherStep(literals, k, picks);
      if literals[k].Malformed? || |partials| == MAX_OVERRIDE {
        rc := EAI_FAIL;
      } else {
        if literals[k].Answer? {
          rc := literals[k].rc;
          if rc == 0 {
            partials := partials + [literals[k].list];
            picks := picks + [k];
          }
        }
        k := k + 1;
      }
    }
    if rc == 0 {
      GatherEnd(literals, picks);
    }
  }

  lemma GatherEnd(literals: seq<Literal>, picks: seq<nat>)
    requires |picks| <= MAX_OVERRIDE
    ensures Prepend(picks, Gather(literals, |literals|, |picks|)) == Gathered(0, picks)
  {
    assert picks + [] == picks;
  }

  lemma ChosenAreLists(registry: Registry, literals: seq<Literal>, contents: seq<Nodes>, partials: seq<AddrInfo?>)
    requires Resolved(registry, literals, contents) && Picked(literals, Gather(literals, 0, 0).picks, partials)
    ensures var chosen := Obtained(literals, contents); AllLists(partials, chosen) && Separate(registry, chosen)
  {
    hide Gather, IsList, Uniform;
  }

  ghost predicate EachReleased(chosen: seq<Nodes>)
    reads Pooled(chosen)`live
  {
    forall i | 0 <= i < |chosen| :: AllReleased(chosen[i])
  }

  /** Releases the real results, each once. */
  method ReleaseAll(registry: Registry, partials: seq<AddrInfo?>, ghost chosen: seq<Nodes>)
    requires registry.Valid() && AllLists(partials, chosen) && Separate(registry, chosen)
    modifies Pooled(chosen)
    ensures EachReleased(chosen)
  {
    for i := 0 to |partials|
      invariant forall j | 0 <= j < i :: AllReleased(chosen[j])
      invariant forall j | i <= j < |chosen| :: IsList(partials[j], chosen[j])
    {
      OneMoreList(chosen, i);
      CallRealFree(registry, partials[i], chosen[i], false);
    }
  }

  /** Copies the real results, if all of them came, and releases them. */
  method CopyThenRelease(registry: Registry, copy: bool, partials: seq<AddrInfo?>, name: Option<string>, memory: bool,
                         ghost chosen: seq<Nodes>)
    returns (head: AddrInfo?, ghost block: Nodes, ghost slot: nat)
    requires registry.Valid() && AllLists(partials, chosen) && Separate(registry, chosen)
    modifies registry, Pooled(chosen)
    ensures registry.Valid() && EachReleased(chosen)
    ensures head == null <==> !copy || FamiliesOfAll(chosen) == [] || !memory || Full(old(registry.table))
    ensures head == null ==> registry.table == old(registry.table)
    ensures head != null ==>
              && block != [] && IsList(head, block) && NameOnHead(block, name) && fresh(Set(block))
              && Families(block) == FamiliesOfAll(chosen)
              && slot < MAX_OWNED && old(registry.table)[slot].None?
              && registry.table == old(registry.table)[slot := Some(block)]
  {
    hide NameOnHead, Registry.Valid, Full, EachReleased, Separate;
    head, block, slot := null, [], 0;
    if copy {
      head, block, slot := OwnedCopy(registry, partials, chosen, name, memory);
    }
    ReleaseAll(registry, partials, chosen);
  }

  /** The outcome: a literal's error, no literal that fits, no memory or slot for a block, or success. */
  ghost function OverrideCode(g: Gathered, chosen: seq<Nodes>, memory: bool, table: seq<Option<Nodes>>): int {
    if g.rc != 0 then g.rc
    else if g.picks == [] then EAI_NONAME
    else if FamiliesOfAll(chosen) == [] || !memory || Full(table) then EAI_MEMORY
    else 0
  }

  /**
   * Builds an OVERRIDE answer. Whatever the outcome, every real result is released once; on success
   * the answer is one block of new nodes, one per real node and of its family, with the queried name.
   */
  method ApplyOverride(registry: Registry, literals: seq<Literal>, name: Option<string>, memory: bool,
                       ghost contents: seq<Nodes>, ghost chosen: seq<Nodes>)
    returns (rc: int, head: AddrInfo?, ghost block: Nodes, ghost slot: nat)
    requires registry.Valid() && Resolved(registry, literals, contents) && chosen == Obtained(literals, contents)
    modifies registry, Pooled(chosen)
    ensures registry.Valid()
    ensures var g := Gather(literals, 0, 0);
            && EachReleased(chosen)
            && rc == OverrideCode(g, chosen, memory, old(registry.table))
            && (rc == 0 ==> Families(block) == FamiliesOfAll(chosen))
    ensures rc == 0 ==>
              && head != null && block != [] && IsList(head, block) && NameOnHead(block, name) && fresh(Set(block))
              && slot < MAX_OWNED && old(registry.table)[slot].None?
              && registry.table == old(registry.table)[slot := Some(block)]
    ensures rc != 0 ==> head == null && registry.table == old(registry.table)
  {
    hide NameOnHead, Registry.Valid, Full, EachReleased, Gather, FamiliesOfAll;
    var partials;
    rc, partials := ResolveLiterals(literals);
    ChosenAreLists(registry, literals, contents, partials);
    hide Resolved, Separate, AllLists;
    if rc == 0 && |partials| == 0 {
      rc := EAI_NONAME;
    }
    head, block, slot := CopyThenRelease(registry, rc == 0, partials, name, memory, chosen);
    if rc == 0 && head == null {
      rc := EAI_MEMORY;
    }
  }

  // ---- The outcome in terms of the literals ---------------------------------------------------

  /** The first list's nodes come first. */
  lemma {:induction false} FamiliesFromFirst(first: Nodes, rest: seq<Nodes>)
    ensures FamiliesOfAll([first] + rest) == Families(first) + FamiliesOfAll(rest)
  {
    var all := [first] + rest;
    if rest == [] {
      assert all[..0] == [];
    } else {
      assert all[..|all| - 1] == [first] + rest[..|rest| - 1];
      FamiliesFromFirst(first, rest[..|rest| - 1]);
    }
  }

  lemma {:induction false} NoFamilies(contents: seq<Nodes>)
    ensures FamiliesOfAll(contents) == [] <==> forall i | 0 <= i < |contents| :: contents[i] == []
  {
    if contents != [] {
      NoFamilies(contents[..|contents| - 1]);
      var last := contents[|contents| - 1];
      assert Families(last) == [] <==> last == [];
    }
  }

  /**
   * The result code: -4 for a malformed literal and for one beyond the thirty-second, the resolver's own
   * code for one that it refuses, -2 when no literal is usable, -10 when the usable ones have no
   * addresses or there is no memory or no free slot for the block, and otherwise 0.
   */
  lemma CodeByLiterals(literals: seq<Literal>, contents: seq<Nodes>, memory: bool, table: seq<Option<Nodes>>)
    returns (stop: nat)
    requires |contents| == |literals|
    ensures stop <= |literals| && forall i | 0 <= i < stop :: Usable(literals[i]) || literals[i].OtherFamily?
    ensures var code := OverrideCode(Gather(literals, 0, 0), Obtained(literals, contents), memory, table);
            if stop < |literals| then
              if literals[stop].Malformed? || |Obtained(literals, contents)| == 32 then code == -4
              else literals[stop].Answer? && code == literals[stop].rc != 0
            else if forall i | 0 <= i < |literals| :: !Usable(literals[i]) then code == -2
            else if (forall i | 0 <= i < |literals| && Usable(literals[i]) :: contents[i] == []) || !memory
                    || (forall i | 0 <= i < |table| :: table[i].Some?) then code == -10
            else code == 0
  {
    stop := GatherTakesAll(literals, 0, 0);
    var g := Gather(literals, 0, 0);
    hide Gather, FamiliesOfAll, IsList;
    NoFamilies(Obtained(literals, contents));
    if stop == |literals| {
      UsableAreObtained(literals, contents, g);
    }
  }

  lemma UsableAreObtained(literals: seq<Literal>, contents: seq<Nodes>, g: Gathered)
    requires |contents| == |literals| && g == Gather(literals, 0, 0) && TakesAll(literals, 0, 0, g, |literals|)
    ensures g.picks == [] <==> forall i | 0 <= i < |literals| :: !Usable(literals[i])
    ensures (forall i | 0 <= i < |g.picks| :: Obtained(literals, contents)[i] == [])
            <==> forall i | 0 <= i < |literals| && Usable(literals[i]) :: contents[i] == []
  {
    if g.picks != [] {
      assert g.picks[0] in g.picks;
    }
    var obtained := Obtained(literals, contents);
    if forall i | 0 <= i < |g.picks| :: obtained[i] == [] {
      forall i | 0 <= i < |literals| && Usable(literals[i]) ensures contents[i] == [] {
        assert i in g.picks;
        var k :| 0 <= k < |g.picks| && g.picks[k] == i;
        assert obtained[k] == contents[i];
      }
    }
    if forall i | 0 <= i < |literals| && Usable(literals[i]) :: contents[i] == [] {
      forall k | 0 <= k < |g.picks| ensures obtained[k] == [] {
        assert g.picks[k] in g.picks;
      }
    }
  }
}
