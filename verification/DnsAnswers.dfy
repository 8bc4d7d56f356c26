/**
 * The answer pipeline of a lookup: OVERRIDE or the resolver, then FILTER, SHUFFLE and LIMIT, and
 * the application's freeaddrinfo.
 */
module DnsAnswers {
  import opened DnsLists
  import opened Options
  import Shuffling

  const EAI_NONAME: int := -2
  const EAI_FAIL: int := -4
  const EAI_MEMORY: int := -10
  /** Literals of one OVERRIDE rule (CHAOS_DNS_MAX_OVERRIDE). */
  const MAX_OVERRIDE: nat := 32

  // ---- Transforms --------------------------------------------------------------------------

  /** The transforms whose rules matched and triggered. */
  datatype Rules = Rules(filter: Option<Family>, shuffle: Option<nat -> nat>, memory: bool, limit: Option<nat>)

  /** FILTER_FAMILY with family ANY is skipped. */
  predicate Filters(rules: Rules) {
    rules.filter.Some? && !rules.filter.value.Any?
  }

  ghost function Kept(nodes: Nodes, rules: Rules): Nodes {
    if Filters(rules) then Keep(nodes, AddressFamily(rules.filter.value)) else nodes
  }

  /** SHUFFLE sweeps a list of two or more, when there is memory for it. */
  ghost function Ordered(kept: Nodes, rules: Rules): Nodes {
    if rules.shuffle.Some? && rules.memory && |kept| >= 2 then Shuffling.Swept(kept, rules.shuffle.value, |kept| - 1) else kept
  }

  ghost function Limited(order: Nodes, rules: Rules): Nodes {
    if rules.limit.Some? then Prefix(order, rules.limit.value) else order
  }

  /** The answer is emptied by FILTER, or by LIMIT. */
  ghost predicate Emptied(nodes: Nodes, rules: Rules) {
    || (Filters(rules) && Kept(nodes, rules) == [])
    || (rules.limit.Some? && (rules.limit.value == 0 || Kept(nodes, rules) == []))
  }

  /** Where a list's memory is: a block in a slot of the registry, or the C library's heap. */
  ghost predicate Backed(registry: Registry, nodes: Nodes, slot: Option<nat>)
    reads registry
  {
    if slot.Some? then
      && slot.value < |registry.table| && registry.table[slot.value].Some?
      && Set(registry.table[slot.value].value) == Set(nodes)
    else forall n | n in nodes :: !registry.Holds(n)
  }

  /** Everything outside `final` is released, or still in its block. */
  ghost predicate Accounted(nodes: Nodes, final: Nodes, owned: bool)
    reads Set(nodes)`live
  {
    forall n | n in nodes :: n in final || n.live == owned
  }

  /** FILTER, when its rule triggered. */
  method FilterStep(registry: Registry, head: AddrInfo?, rules: Rules, ghost nodes: Nodes, ghost owned: bool, ghost name: Option<string>)
    returns (head': AddrInfo?, emptied: bool)
    requires registry.Valid() && Uniform(registry, nodes, owned) && IsList(head, nodes)
    modifies Set(nodes)
    ensures IsList(head', Kept(nodes, rules)) && Accounted(nodes, Kept(nodes, rules), owned)
    ensures emptied <==> Filters(rules) && Kept(nodes, rules) == []
    ensures old(NameOnHead(nodes, name)) ==> NameOnHead(Kept(nodes, rules), name)
  {
    hide IsList, NameOnHead, Keep, Uniform;
    if !Filters(rules) {
      return head, false;
    }
    var found;
    found, head' := Filter(registry, head, rules.filter.value, nodes, owned, name);
    emptied := !found;
  }

  method ShuffleStep(head: AddrInfo?, rules: Rules, ghost nodes: Nodes, ghost name: Option<string>)
    returns (head': AddrInfo?, ghost order: Nodes)
    requires IsList(head, nodes)
    modifies Set(nodes)
    ensures IsList(head', order) && order == Ordered(nodes, rules) && multiset(order) == multiset(nodes)
    ensures old(NameOnHead(nodes, name)) ==> NameOnHead(order, name)
  {
    hide IsList, NameOnHead, Shuffling.Swept;
    if rules.shuffle.None? {
      return head, nodes;
    }
    head', order := Shuffle(head, rules.shuffle.value, rules.memory, nodes, name);
  }

  method LimitStep(registry: Registry, head: AddrInfo?, rules: Rules, ghost nodes: Nodes, ghost owned: bool, ghost name: Option<string>)
    returns (head': AddrInfo?, emptied: bool)
    requires registry.Valid() && Uniform(registry, nodes, owned) && IsList(head, nodes)
    modifies Set(nodes)
    ensures IsList(head', Limited(nodes, rules)) && Accounted(nodes, Limited(nodes, rules), owned)
    ensures emptied <==> rules.limit.Some? && Limited(nodes, rules) == []
    ensures old(NameOnHead(nodes, name)) ==> NameOnHead(Limited(nodes, rules), name)
  {
    hide IsList, Uniform;
    if rules.limit.None? {
      return head, false;
    }
    ghost var named := NameOnHead(nodes, name);
    head' := Limit(registry, head, rules.limit.value, nodes, owned);
    ghost var final := Limited(nodes, rules);
    assert named ==> forall i | 0 <= i < |final| :: final[i] == nodes[i] && final[i] in final;
    emptied := head' == null;
    HeadOf(head', final);
  }

  lemma SameNodes(kept: Nodes, order: Nodes)
    requires multiset(kept) == multiset(order)
    ensures forall n :: n in kept <==> n in order
    ensures kept == [] <==> order == []
  {
    forall n ensures n in kept <==> n in order {
      assert n in kept <==> n in multiset(kept);
      assert n in order <==> n in multiset(order);
    }
    assert |multiset(kept)| == |kept| && |multiset(order)| == |order|;
  }

  lemma UniformSubset(registry: Registry, nodes: Nodes, some: Nodes, owned: bool)
    requires Uniform(registry, nodes, owned) && forall n | n in some :: n in nodes
    ensures Uniform(registry, some, owned)
  {
    forall i | 0 <= i < |some| ensures registry.Holds(some[i]) == owned {
      assert some[i] in nodes;
    }
  }

  lemma KeptIsSome(nodes: Nodes, rules: Rules)
    ensures forall n | n in Kept(nodes, rules) :: n in nodes
  {
  }

  /**
   * FILTER, then SHUFFLE, then LIMIT: what is left is a prefix of some order of the kept nodes, and
   * every other node is accounted for.
   */
  method Shape(registry: Registry, head: AddrInfo?, rules: Rules, ghost nodes: Nodes, ghost owned: bool, ghost name: Option<string>)
    returns (head': AddrInfo?, emptied: bool, ghost order: Nodes, ghost final: Nodes)
    requires registry.Valid() && Uniform(registry, nodes, owned) && IsList(head, nodes)
    modifies Set(nodes)
    ensures emptied <==> Emptied(nodes, rules)
    ensures IsList(head', final) && Accounted(nodes, final, owned) && (emptied ==> final == [])
    ensures forall n | n in final :: n in nodes
    ensures !emptied ==> final == Limited(order, rules) && order == Ordered(Kept(nodes, rules), rules)
    ensures !emptied ==> multiset(order) == multiset(Kept(nodes, rules))
    ensures !emptied && old(NameOnHead(nodes, name)) ==> NameOnHead(final, name)
  {
    hide IsList, NameOnHead, Uniform, Keep, Registry.Valid, Registry.Holds, Kept, Ordered;
    ghost var kept := Kept(nodes, rules);
    KeptIsSome(nodes, rules);
    UniformSubset(registry, nodes, kept, owned);
    head', emptied := FilterStep(registry, head, rules, nodes, owned, name);
    if emptied {
      order, final := [], [];
      return head', true, [], [];
    }
    head', order := ShuffleStep(head', rules, kept, name);
    SameNodes(kept, order);
    UniformSubset(registry, kept, order, owned);
    head', emptied := LimitStep(registry, head', rules, order, owned, name);
    final := Limited(order, rules);
  }

  // ---- What the rules mean -----------------------------------------------------------------

  /** The family rule lets the node through: 2 is AF_INET and 10 is AF_INET6. */
  ghost predicate Wanted(rules: Rules, node: AddrInfo) {
    && (rules.filter == Some(Inet4) ==> node.family == 2)
    && (rules.filter == Some(Inet6) ==> node.family == 10)
  }

  lemma KeptAreWanted(nodes: Nodes, rules: Rules)
    ensures forall n :: n in Kept(nodes, rules) <==> n in nodes && Wanted(rules, n)
    ensures Kept(nodes, rules) == [] <==> forall n | n in nodes :: !Wanted(rules, n)
  {
    if Filters(rules) {
      KeepsFamily(nodes, AddressFamily(rules.filter.value));
    }
    hide Keep;
    if Kept(nodes, rules) != [] {
      assert Kept(nodes, rules)[0] in nodes;
    } else {
      assert forall n :: n !in Kept(nodes, rules);
    }
  }

  /** The filter keeps the order of the nodes. */
  lemma KeptSplits(nodes: Nodes, i: nat, rules: Rules)
    requires i <= |nodes|
    ensures Kept(nodes, rules) == Kept(nodes[..i], rules) + Kept(nodes[i..], rules)
  {
    hide Keep;
    assert nodes == nodes[..i] + nodes[i..];
    if Filters(rules) {
      KeepSplits(nodes[..i], nodes[i..], AddressFamily(rules.filter.value));
    }
  }

  /**
   * The transformed answer by its rules: the wanted nodes and no others, as far as the limit goes, in
   * their own order unless they are shuffled.
   */
  lemma AnswerByRules(head: AddrInfo?, nodes: Nodes, order: Nodes, final: Nodes, rules: Rules, owned: bool, i: nat)
    requires Shaped(head, nodes, order, final, rules, owned) && i <= |nodes|
    ensures forall n :: n in order <==> n in nodes && Wanted(rules, n)
    ensures final == order[..|final|]
    ensures if rules.limit.Some? && rules.limit.value < |order| then |final| == rules.limit.value else final == order
    ensures rules.shuffle.None? || !rules.memory ==>
              order == Kept(nodes[..i], rules) + Kept(nodes[i..], rules)
  {
    hide Keep, Shuffling.Swept, IsList, Accounted, Kept, Wanted;
    KeptAreWanted(nodes, rules);
    SameNodes(Kept(nodes, rules), order);
    KeptSplits(nodes, i, rules);
  }

  /** A lookup ends in EAI_NONAME when a family filter or a limit leaves nothing of its answer. */
  lemma EmptiedByRules(nodes: Nodes, rules: Rules)
    ensures Emptied(nodes, rules) <==>
              && (rules.filter == Some(Inet4) || rules.filter == Some(Inet6) || rules.limit.Some?)
              && (rules.limit == Some(0) || forall n | n in nodes :: !Wanted(rules, n))
  {
    hide Keep;
    KeptAreWanted(nodes, rules);
  }

  // ---- Releasing answers -------------------------------------------------------------------

  ghost predicate AllReleased(nodes: Nodes)
    reads Set(nodes)`live
  {
    forall n | n in nodes :: !n.live
  }

  ghost function TableWithout(table: seq<Option<Nodes>>, slot: Option<nat>): seq<Option<Nodes>> {
    if slot.Some? && slot.value < |table| then table[slot.value := None] else table
  }

  lemma BackedUniform(registry: Registry, nodes: Nodes, slot: Option<nat>)
    requires Backed(registry, nodes, slot)
    ensures Uniform(registry, nodes, slot.Some?)
  {
    forall i | 0 <= i < |nodes| ensures registry.Holds(nodes[i]) == slot.Some? {
      if slot.Some? {
        assert nodes[i] in Set(nodes);
        assert registry.InSlot(slot.value, nodes[i]);
      }
    }
  }

  /** A block's slot holds each of its nodes, and all of them are live while its list is accounted for. */
  lemma BlockIsLive(registry: Registry, head: AddrInfo?, nodes: Nodes, final: Nodes, slot: nat, node: AddrInfo)
    requires Backed(registry, nodes, Some(slot)) && node in nodes
    requires IsList(head, final) && Accounted(nodes, final, true)
    ensures registry.InSlot(slot, node) && Live(registry.table[slot].value)
  {
    assert node in Set(nodes);
    AllLive(head, final);
    var block := registry.table[slot].value;
    forall i | 0 <= i < |block| ensures block[i].live {
      assert block[i] in Set(block);
    }
  }

  /** Frees the block that a node of an accounted list lies in. */
  method FreeBlock(registry: Registry, node: AddrInfo?, ghost head: AddrInfo?, ghost nodes: Nodes,
                   ghost final: Nodes, ghost slot: Option<nat>)
    returns (freed: bool)
    requires registry.Valid() && Backed(registry, nodes, slot)
    requires IsList(head, final) && Accounted(nodes, final, slot.Some?)
    requires node != null ==> node in nodes
    modifies registry, Set(nodes)
    ensures registry.Valid() && (freed <==> node != null && slot.Some?)
    ensures freed ==> AllReleased(nodes) && registry.table == TableWithout(old(registry.table), slot)
    ensures !freed ==> registry.table == old(registry.table) && IsList(head, final) && Accounted(nodes, final, slot.Some?)
    ensures !freed ==> Backed(registry, nodes, slot)
  {
    if node != null && slot.Some? {
      BlockIsLive(registry, head, nodes, final, slot.value, node);
      forall n | n in nodes ensures n in registry.table[slot.value].value {
        assert n in Set(nodes);
      }
    }
    hide IsList, Accounted, Registry.Valid;
    freed := registry.Free(node, if slot.Some? then slot.value else 0);
    if !freed && slot.None? {
      forall n | n in nodes ensures !registry.Holds(n) {
        assert forall i :: registry.InSlot(i, n) == old(registry.InSlot(i, n));
      }
    }
  }

  /** What the transforms leave: a prefix of some order of the kept nodes, all others accounted for. */
  ghost predicate Shaped(head: AddrInfo?, nodes: Nodes, order: Nodes, final: Nodes, rules: Rules, owned: bool)
    reads Set(nodes)`live, Set(final)`live, Set(final)`next
  {
    && IsList(head, final) && Accounted(nodes, final, owned) && (forall n | n in final :: n in nodes)
    && final == Limited(order, rules) && order == Ordered(Kept(nodes, rules), rules)
    && multiset(order) == multiset(Kept(nodes, rules))
  }

  /** The transforms on a fresh answer; an emptied answer is released here, whole block or all. */
  method Transform(registry: Registry, head: AddrInfo?, block: AddrInfo?, rules: Rules,
                   ghost nodes: Nodes, ghost slot: Option<nat>, ghost name: Option<string>)
    returns (rc: int, head': AddrInfo?, ghost order: Nodes, ghost final: Nodes)
    requires registry.Valid() && IsList(head, nodes) && Backed(registry, nodes, slot)
    requires block == if slot.Some? then head else null
    requires slot.Some? ==> nodes != []
    modifies registry, Set(nodes)
    ensures registry.Valid() && rc == if Emptied(nodes, rules) then EAI_NONAME else 0
    ensures rc == 0 ==>
              && Shaped(head', nodes, order, final, rules, slot.Some?)
              && registry.table == old(registry.table) && Backed(registry, nodes, slot)
              && (old(NameOnHead(nodes, name)) ==> NameOnHead(final, name))
    ensures rc != 0 ==> AllReleased(nodes) && registry.table == TableWithout(old(registry.table), slot)
  {
    BackedUniform(registry, nodes, slot);
    HeadOf(head, nodes);
    assert block != null ==> block in nodes;
    hide IsList, NameOnHead, Registry.Valid, Registry.Holds, Emptied, Limited, Kept, Ordered;
    var emptied;
    head', emptied, order, final := Shape(registry, head, rules, nodes, slot.Some?, name);
    if emptied {
      var freed := FreeBlock(registry, block, head', nodes, final, slot);
      return EAI_NONAME, head', order, final;
    }
    rc := 0;
  }

  /** The application's freeaddrinfo: the whole block of an OVERRIDE answer, or a real list. */
  method FreeAddrInfo(registry: Registry, head: AddrInfo?, ghost nodes: Nodes, ghost final: Nodes, ghost slot: Option<nat>)
    requires registry.Valid() && IsList(head, final) && Backed(registry, nodes, slot)
    requires Accounted(nodes, final, slot.Some?) && (forall n | n in final :: n in nodes)
    requires slot.Some? ==> final != []
    modifies registry, Set(nodes)
    ensures registry.Valid() && AllReleased(nodes) && registry.table == TableWithout(old(registry.table), slot)
  {
    HeadOf(head, final);
    assert head != null ==> head in nodes by {
      ListFacts(head, final);
      assert head != null ==> head in final;
    }
    hide IsList, Registry.Valid, Registry.Holds, Uniform, Backed;
    var freed := FreeBlock(registry, head, head, nodes, final, slot);
    if !freed {
      BackedUniform(registry, nodes, slot);
      UniformSubset(registry, nodes, final, slot.Some?);
      CallRealFree(registry, head, final, false);
    }
  }
}
