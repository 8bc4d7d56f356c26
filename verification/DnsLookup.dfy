/** A whole lookup: an answer is made, shaped, handed out, and freed by the application. */
module DnsLookup {
  import opened DnsAnswers
  import opened DnsLists
  import opened DnsOverride
  import opened Options

  lemma UniformBacked(registry: Registry, nodes: Nodes)
    requires Uniform(registry, nodes, false)
    ensures Backed(registry, nodes, None)
  {
    forall n | n in nodes ensures !registry.Holds(n) {
      var i :| 0 <= i < |nodes| && nodes[i] == n;
    }
  }

  lemma SomeLeft(head: AddrInfo?, nodes: Nodes, order: Nodes, final: Nodes, rules: Rules, owned: bool)
    requires !Emptied(nodes, rules) && nodes != []
    requires Shaped(head, nodes, order, final, rules, owned)
    ensures final != []
  {
    hide Keep;
    SameNodes(Kept(nodes, rules), order);
  }

  lemma ShapedFacts(head: AddrInfo?, nodes: Nodes, order: Nodes, final: Nodes, rules: Rules, owned: bool)
    requires Shaped(head, nodes, order, final, rules, owned)
    ensures IsList(head, final) && Accounted(nodes, final, owned) && forall n | n in final :: n in nodes
  {
  }

  // ---- Answers of the resolver -------------------------------------------------------------

  /** The resolver's answer, transformed. */
  method ResolveReal(registry: Registry, rc: int, list: AddrInfo?, rules: Rules, ghost nodes: Nodes, ghost name: Option<string>)
    returns (code: int, head: AddrInfo?, ghost order: Nodes, ghost final: Nodes)
    requires registry.Valid() && Uniform(registry, nodes, false) && IsList(if rc == 0 then list else null, nodes)
    modifies registry, Set(nodes)
    ensures registry.Valid() && registry.table == old(registry.table)
    ensures code == if rc != 0 then rc else if Emptied(nodes, rules) then EAI_NONAME else 0
    ensures code == 0 ==>
              && Backed(registry, nodes, None) && Shaped(head, nodes, order, final, rules, false)
              && (old(NameOnHead(nodes, name)) ==> NameOnHead(final, name))
    ensures code != 0 ==> AllReleased(nodes)
  {
    order, final := [], [];
    HeadOf(if rc == 0 then list else null, nodes);
    if rc != 0 {
      return rc, null, order, final;
    }
    UniformBacked(registry, nodes);
    hide IsList, NameOnHead, Registry.Valid, Uniform, Emptied, Shaped;
    code, head, order, final := Transform(registry, list, null, rules, nodes, None, name);
  }

  /** A lookup answered by the resolver, until the application frees it: every node is released. */
  method RealLookup(registry: Registry, rc: int, list: AddrInfo?, rules: Rules, ghost nodes: Nodes)
    returns (code: int)
    requires registry.Valid() && Uniform(registry, nodes, false) && IsList(if rc == 0 then list else null, nodes)
    modifies registry, Set(nodes)
    ensures registry.Valid() && registry.table == old(registry.table)
    ensures code == if rc != 0 then rc else if Emptied(nodes, rules) then EAI_NONAME else 0
    ensures AllReleased(nodes)
  {
    hide IsList, NameOnHead, Registry.Valid, Emptied, Shaped;
    var head;
    ghost var order, final;
    code, head, order, final := ResolveReal(registry, rc, list, rules, nodes, None);
    if code == 0 {
      ShapedFacts(head, nodes, order, final, rules, false);
      FreeAddrInfo(registry, head, nodes, final, None);
    }
  }

  lemma Registered(registry: Registry, table: seq<Option<Nodes>>, slot: nat, block: Nodes)
    requires slot < |table| && table[slot].None? && registry.table == table[slot := Some(block)]
    ensures Backed(registry, block, Some(slot)) && TableWithout(registry.table, Some(slot)) == table
  {
  }

  // ---- Answers of OVERRIDE -----------------------------------------------------------------

  /** Transforms a block that has just been registered. */
  method ShapeBlock(registry: Registry, head: AddrInfo?, rules: Rules, ghost block: Nodes, ghost slot: nat,
                    ghost queried: Option<string>, ghost table: seq<Option<Nodes>>)
    returns (code: int, head': AddrInfo?, ghost order: Nodes, ghost final: Nodes)
    requires registry.Valid() && IsList(head, block) && block != [] && NameOnHead(block, queried)
    requires slot < |table| && table[slot].None? && registry.table == table[slot := Some(block)]
    modifies registry, Set(block)
    ensures registry.Valid() && code == if Emptied(block, rules) then EAI_NONAME else 0
    ensures code == 0 ==>
              && Backed(registry, block, Some(slot)) && Shaped(head', block, order, final, rules, true) && final != []
              && NameOnHead(final, queried) && registry.table == old(registry.table)
    ensures code != 0 ==> registry.table == table && AllReleased(block)
  {
    hide IsList, NameOnHead, Registry.Valid, Emptied, Shaped, Backed, TableWithout;
    Registered(registry, table, slot, block);
    code, head', order, final := Transform(registry, head, head, rules, block, Some(slot), queried);
    if code == 0 {
      SomeLeft(head', block, order, final, rules, true);
    }
  }

  /** An OVERRIDE answer, transformed; `block` is the block it was built as. */
  method ResolveOverride(registry: Registry, literals: seq<Literal>, queried: Option<string>, memory: bool, rules: Rules,
                         ghost contents: seq<Nodes>, ghost chosen: seq<Nodes>)
    returns (code: int, head: AddrInfo?, ghost block: Nodes, ghost slot: nat, ghost order: Nodes, ghost final: Nodes)
    requires registry.Valid() && Resolved(registry, literals, contents) && chosen == Obtained(literals, contents)
    modifies registry, Pooled(chosen)
    ensures registry.Valid() && EachReleased(chosen)
    ensures var built := OverrideCode(Gather(literals, 0, 0), chosen, memory, old(registry.table));
            code == if built != 0 then built else if Emptied(block, rules) then EAI_NONAME else 0
    ensures code == 0 ==>
              && fresh(Set(block)) && Families(block) == FamiliesOfAll(chosen)
              && Backed(registry, block, Some(slot)) && Shaped(head, block, order, final, rules, true) && final != []
              && NameOnHead(final, queried)
              && slot < |old(registry.table)| && old(registry.table)[slot].None?
              && registry.table == old(registry.table)[slot := Some(block)]
    ensures code != 0 ==> registry.table == old(registry.table) && fresh(Set(block)) && AllReleased(block)
  {
    assert |registry.table| == MAX_OWNED;
    hide IsList, NameOnHead, Registry.Valid, Emptied, Shaped, Resolved, Gather, Families,
         FamiliesOfAll, Full, EachReleased, Obtained, Backed, TableWithout, OverrideCode;
    order, final := [], [];
    code, head, block, slot := ApplyOverride(registry, literals, queried, memory, contents, chosen);
    if code != 0 {
      block := [];
      return;
    }
    assert Pooled(chosen) !! Set(block);
    code, head, order, final := ShapeBlock(registry, head, rules, block, slot, queried, old(registry.table));
  }

  /**
   * A lookup answered by OVERRIDE, until the application frees it: the real results and the block
   * are all released, and the registry is as before.
   */
  method OverrideLookup(registry: Registry, literals: seq<Literal>, queried: Option<string>, memory: bool, rules: Rules,
                        ghost contents: seq<Nodes>, ghost chosen: seq<Nodes>) returns (code: int, ghost block: Nodes)
    requires registry.Valid() && Resolved(registry, literals, contents) && chosen == Obtained(literals, contents)
    modifies registry, Pooled(chosen)
    ensures registry.Valid() && registry.table == old(registry.table)
    ensures EachReleased(chosen) && fresh(Set(block)) && AllReleased(block)
  {
    hide IsList, NameOnHead, Registry.Valid, Shaped, Resolved, Gather, Families, FamiliesOfAll,
         EachReleased, Obtained;
    var head;
    ghost var slot, order, final;
    code, head, block, slot, order, final := ResolveOverride(registry, literals, queried, memory, rules, contents, chosen);
    if code == 0 {
      assert Pooled(chosen) !! Set(block);
      ShapedFacts(head, block, order, final, rules, true);
      FreeAddrInfo(registry, head, block, final, Some(slot));
      assert registry.table == old(registry.table);
    }
  }
}
