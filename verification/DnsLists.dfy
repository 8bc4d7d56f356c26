/**
 * Address lists on the heap: the nodes a resolver hands out, the registry of blocks built by
 * OVERRIDE, and the in-place transforms FILTER, LIMIT and SHUFFLE.
 *
 * A node is read and written through accessors that demand it to be live, so no verified method
 * touches a released node or releases one twice.
 */
module DnsLists {
  import opened Options
  import opened Shuffling

  const AF_INET: int := 2
  const AF_INET6: int := 10
  /** Blocks alive at once (CHAOS_DNS_MAX_OWNED). */
  const MAX_OWNED: nat := 256

  datatype Family = Any | Inet4 | Inet6

  class AddrInfo {
    const family: int
    var next: AddrInfo?
    var canonname: Option<string>
    ghost var live: bool

    constructor (family: int, canonname: Option<string>)
      ensures this.family == family && next == null && this.canonname == canonname && live
    {
      this.family := family;
      next := null;
      this.canonname := canonname;
      live := true;
    }

    function Next(): AddrInfo?
      requires live
      reads this
    {
      next
    }

    function Name(): Option<string>
      requires live
      reads this
    {
      canonname
    }

    method SetNext(node: AddrInfo?)
      requires live
      modifies this`next
      ensures next == node
    {
      next := node;
    }

    method SetName(name: Option<string>)
      requires live
      modifies this`canonname
      ensures canonname == name
    {
      canonname := name;
    }

    /** Gives the memory back; what it then holds is unknown. */
    ghost method Release()
      requires live
      modifies this
      ensures !live
    {
      live := false;
    }
  }

  type Nodes = seq<AddrInfo>

  // ---- Lists -------------------------------------------------------------------------------

  ghost function Set(nodes: Nodes): set<AddrInfo> {
    set n | n in nodes
  }

  ghost predicate Live(nodes: Nodes)
    reads Set(nodes)`live
  {
    forall i | 0 <= i < |nodes| :: nodes[i].live
  }

  function At(nodes: Nodes, i: nat): AddrInfo? {
    if i < |nodes| then nodes[i] else null
  }

  ghost predicate Linked(nodes: Nodes)
    reads Set(nodes)`next
  {
    forall i {:trigger nodes[i].next} | 0 <= i < |nodes| :: nodes[i].next == At(nodes, i + 1)
  }

  /** `head` starts the acyclic list of exactly these live nodes. */
  ghost predicate IsList(head: AddrInfo?, nodes: Nodes)
    reads Set(nodes)`live, Set(nodes)`next
  {
    NoRepeats(nodes) && Live(nodes) && Linked(nodes) && head == At(nodes, 0)
  }

  /** At most the head carries a canonical name, and it carries this one. */
  ghost predicate NameOnHead(nodes: Nodes, name: Option<string>)
    reads Set(nodes)`canonname
  {
    forall i | 0 <= i < |nodes| :: nodes[i].canonname == if i == 0 then name else None
  }

  // ---- The registry of blocks --------------------------------------------------------------

  /** The table of OVERRIDE blocks; a block is its nodes, freed together. */
  class Registry {
    var table: seq<Option<Nodes>>

    ghost predicate Valid()
      reads this
    {
      && |table| == MAX_OWNED
      && (forall i | 0 <= i < |table| && table[i].Some? :: NoRepeats(table[i].value))
      && (forall i, j | 0 <= i < j < |table| && table[i].Some? && table[j].Some? ::
            forall n | n in table[i].value :: n !in table[j].value)
    }

    ghost predicate InSlot(i: nat, node: AddrInfo)
      reads this
    {
      i < |table| && table[i].Some? && node in table[i].value
    }

    ghost predicate Holds(node: AddrInfo)
      reads this
    {
      exists i :: InSlot(i, node)
    }

    lemma OneSlot(i: nat, j: nat, node: AddrInfo)
      requires Valid() && InSlot(i, node) && InSlot(j, node)
      ensures i == j
    {
    }

    /** The slot of the block that a node lies in; the table's length when there is none. */
    method Find(node: AddrInfo?) returns (index: nat)
      requires Valid()
      ensures index <= MAX_OWNED
      ensures index < MAX_OWNED <==> node != null && Holds(node)
      ensures index < MAX_OWNED ==> InSlot(index, node)
    {
      index := 0;
      while index < MAX_OWNED
        invariant index <= MAX_OWNED
        invariant node != null ==> forall i | 0 <= i < index :: !InSlot(i, node)
      {
        if node != null && table[index].Some? && node in table[index].value {
          assert InSlot(index, node);
          return;
        }
        index := index + 1;
      }
    }

    method Contains(node: AddrInfo?) returns (held: bool)
      requires Valid()
      ensures held <==> node != null && Holds(node)
    {
      var index := Find(node);
      return index < MAX_OWNED;
    }

    /** Enters a block in the first free slot; refuses when there is none. */
    method Register(block: Nodes) returns (ghost slot: nat, ok: bool)
      requires Valid() && NoRepeats(block) && forall n | n in block :: !Holds(n)
      modifies this
      ensures Valid()
      ensures ok <==> exists i :: 0 <= i < MAX_OWNED && old(table[i]).None?
      ensures ok ==> slot < MAX_OWNED && old(table[slot]).None? && table == old(table)[slot := Some(block)]
      ensures !ok ==> table == old(table)
    {
      var index := 0;
      while index < MAX_OWNED && table[index].Some?
        invariant index <= MAX_OWNED && forall i | 0 <= i < index :: table[i].Some?
      {
        index := index + 1;
      }
      slot := index;
      if index == MAX_OWNED {
        return slot, false;
      }
      forall i, n | 0 <= i < MAX_OWNED && table[i].Some? && n in table[i].value ensures n !in block {
        assert InSlot(i, n);
      }
      table := table[index := Some(block)];
      return slot, true;
    }

    /** Frees the whole block of a node, if it lies in one. */
    method Free(node: AddrInfo?, ghost slot: nat) returns (freed: bool)
      requires Valid() && (node != null && Holds(node) ==> InSlot(slot, node) && Live(table[slot].value))
      modifies this, if node != null && Holds(node) then Set(table[slot].value) else {}
      ensures Valid()
      ensures freed <==> node != null && old(Holds(node))
      ensures freed ==> table == old(table)[slot := None] && forall n | n in old(table[slot]).value :: !n.live
      ensures !freed ==> table == old(table)
    {
      var index := Find(node);
      if index == MAX_OWNED {
        return false;
      }
      OneSlot(index, slot, node);
      var block := table[index].value;
      table := table[index := None];
      ReleaseEach(block);
      return true;
    }
  }

  /** Releases the nodes of one block together. */
  ghost method ReleaseEach(nodes: Nodes)
    requires NoRepeats(nodes) && Live(nodes)
    modifies nodes
    ensures forall n | n in nodes :: !n.live
  {
    var i := 0;
    while i < |nodes|
      invariant i <= |nodes|
      invariant forall k | 0 <= k < i :: !nodes[k].live
      invariant forall k | i <= k < |nodes| :: nodes[k].live
    {
      nodes[i].Release();
      i := i + 1;
    }
  }

  // ---- Releasing ---------------------------------------------------------------------------

  /** The C library's freeaddrinfo: releases a node and everything it links to. */
  method RealFree(head: AddrInfo?, ghost nodes: Nodes)
    requires IsList(head, nodes)
    modifies nodes
    ensures forall n | n in nodes :: !n.live
  {
    var current := head;
    ghost var i := 0;
    while current != null
      invariant i <= |nodes| && current == At(nodes, i)
      invariant forall k | 0 <= k < i :: !nodes[k].live
      invariant forall k {:trigger nodes[k].next} {:trigger nodes[k].live} | i <= k < |nodes| ::
                  nodes[k].live && nodes[k].next == At(nodes, k + 1)
      decreases |nodes| - i
    {
      var next := current.Next();
      current.Release();
      current := next;
      i := i + 1;
    }
  }

  /** All nodes of a list are in the registry, or none is. */
  ghost predicate Uniform(registry: Registry, nodes: Nodes, owned: bool)
    reads registry
  {
    forall i | 0 <= i < |nodes| :: registry.Holds(nodes[i]) == owned
  }

  /** Releases a real list; a node of a block stays until its block goes. */
  method CallRealFree(registry: Registry, head: AddrInfo?, ghost nodes: Nodes, ghost owned: bool)
    requires registry.Valid() && Uniform(registry, nodes, owned) && IsList(head, nodes)
    modifies nodes
    ensures owned ==> forall n | n in nodes :: n.live && n.next == old(n.next) && n.canonname == old(n.canonname)
    ensures !owned ==> forall n | n in nodes :: !n.live
  {
    if head == null {
      return;
    }
    var held := registry.Contains(head);
    if held {
      assert registry.Holds(nodes[0]);
      return;
    }
    assert !registry.Holds(nodes[0]);
    RealFree(head, nodes);
  }

  // ---- FILTER ------------------------------------------------------------------------------

  /** The nodes of a family, in order. */
  ghost function Keep(nodes: Nodes, family: int): (kept: Nodes)
    ensures forall n | n in kept :: n in nodes && n.family == family
    ensures |kept| <= |nodes|
  {
    if nodes == [] then []
    else
      var n := nodes[|nodes| - 1];
      Keep(nodes[..|nodes| - 1], family) + if n.family == family then [n] else []
  }

  /** Exactly the nodes of the family are kept. */
  lemma {:induction false} KeepsFamily(nodes: Nodes, family: int)
    ensures forall n :: n in Keep(nodes, family) <==> n in nodes && n.family == family
  {
    if nodes != [] {
      KeepsFamily(nodes[..|nodes| - 1], family);
      assert nodes == nodes[..|nodes| - 1] + [nodes[|nodes| - 1]];
    }
  }

  lemma KeepLast(nodes: Nodes, node: AddrInfo, family: int)
    ensures Keep(nodes + [node], family) == Keep(nodes, family) + if node.family == family then [node] else []
  {
    assert (nodes + [node])[..|nodes|] == nodes;
  }

  lemma Regroup(a: Nodes, b: Nodes, c: Nodes)
    ensures a + (b + c) == a + b + c
  {
  }

  /** They stay in order: what is kept of a list is what is kept of a first part, then of the rest. */
  lemma {:induction false} KeepSplits(front: Nodes, rest: Nodes, family: int)
    ensures Keep(front + rest, family) == Keep(front, family) + Keep(rest, family)
    decreases |rest|
  {
    hide Keep;
    if rest == [] {
      assert front + rest == front;
      assert Keep(rest, family) == [];
    } else {
      var init, n := rest[..|rest| - 1], rest[|rest| - 1];
      assert rest == init + [n];
      KeepSplits(front, init, family);
      Regroup(front, init, [n]);
      KeepLast(front + init, n, family);
      KeepLast(init, n, family);
      Regroup(Keep(front, family), Keep(init, family), if n.family == family then [n] else []);
    }
  }

  lemma {:induction false} KeepSnoc(nodes: Nodes, i: nat, family: int)
    requires i < |nodes|
    ensures Keep(nodes[..i + 1], family) ==
            Keep(nodes[..i], family) + if nodes[i].family == family then [nodes[i]] else []
  {
    assert nodes[..i + 1][..i] == nodes[..i];
  }

  /** A list without its node `p`. */
  ghost function Remove(list: Nodes, p: nat): (left: Nodes)
    requires p < |list|
    ensures |left| + 1 == |list|
    ensures forall i | 0 <= i < |left| :: left[i] == list[if i < p then i else i + 1]
  {
    list[..p] + list[p + 1..]
  }

  lemma RemoveKeepsDistinct(list: Nodes, p: nat)
    requires p < |list| && NoRepeats(list)
    ensures NoRepeats(Remove(list, p)) && list[p] !in Remove(list, p)
  {
  }

  /** Hands the canonical name of a node on to the next one, unless that has its own. */
  method HandOnName(current: AddrInfo, next: AddrInfo?, ghost list: Nodes, ghost p: nat, ghost name: Option<string>)
    requires p < |list| && current == list[p] && next == At(list, p + 1) && NoRepeats(list) && Live(list)
    modifies Set(list)`canonname
    ensures old(NameOnHead(list, name)) ==> NameOnHead(Remove(list, p), name)
  {
    if current.Name().Some? && next != null && next.Name().None? {
      next.SetName(current.Name());
      current.SetName(None);
    }
  }

  /** Makes the neighbours skip a node, and isolates it. */
  method Unlink(head: AddrInfo?, previous: AddrInfo?, current: AddrInfo, next: AddrInfo?, ghost list: Nodes, ghost p: nat)
    returns (head': AddrInfo?)
    requires p < |list| && IsList(head, list) && current == list[p] && next == At(list, p + 1)
    requires previous == if p == 0 then null else list[p - 1]
    modifies Set(list)`next
    ensures IsList(head', Remove(list, p)) && IsList(current, [current])
  {
    RemoveKeepsDistinct(list, p);
    head' := head;
    if previous == null {
      head' := next;
    } else {
      previous.SetNext(next);
    }
    current.SetNext(null);
  }

  /**
   * Takes node `p` out of a list: its name goes on to the next node, its neighbours skip it, and
   * it is isolated before it is released.
   */
  method Drop(registry: Registry, head: AddrInfo?, previous: AddrInfo?, current: AddrInfo,
              ghost list: Nodes, ghost p: nat, ghost owned: bool, ghost name: Option<string>)
    returns (head': AddrInfo?)
    requires registry.Valid() && Uniform(registry, [current], owned)
    requires p < |list| && IsList(head, list) && current == list[p]
    requires previous == if p == 0 then null else list[p - 1]
    modifies Set(list)
    ensures IsList(head', Remove(list, p))
    ensures forall n | n in list :: n.live == (owned || n != current)
    ensures old(NameOnHead(list, name)) ==> NameOnHead(Remove(list, p), name)
  {
    AllLive(head, list);
    var next := current.Next();
    HandOnName(current, next, list, p, name);
    head' := Unlink(head, previous, current, next, list, p);
    RemoveKeepsDistinct(list, p);
    hide IsList, NameOnHead, NoRepeats, Live, Linked, Remove, Registry.Valid, Registry.Holds;
    CallRealFree(registry, current, [current], owned);
    assert current in [current];
  }

  lemma AllLive(head: AddrInfo?, list: Nodes)
    requires IsList(head, list)
    ensures forall n | n in list :: n.live
  {
  }

  lemma NodeOf(head: AddrInfo?, list: Nodes, p: nat)
    requires IsList(head, list) && p < |list|
    ensures list[p].live && list[p].next == At(list, p + 1)
  {
  }

  function AddressFamily(family: Family): int {
    if family == Inet4 then AF_INET else AF_INET6
  }

  /** The list while node `i` is looked at: what was kept of the nodes before it, then the rest. */
  ghost predicate Midway(nodes: Nodes, i: nat, family: int, kept: Nodes, list: Nodes) {
    i <= |nodes| && kept == Keep(nodes[..i], family) && list == kept + nodes[i..]
  }

  lemma MidwayAt(nodes: Nodes, i: nat, family: int, kept: Nodes, list: Nodes)
    requires Midway(nodes, i, family, kept, list)
    ensures i <= |nodes| && |kept| <= |list| && At(list, |kept|) == At(nodes, i)
    ensures At(nodes, i) != null <==> i < |nodes|
    ensures i < |nodes| ==> At(nodes, i) == nodes[i] && |kept| < |list| && list[|kept|] == nodes[i]
    ensures i < |nodes| ==> At(list, |kept| + 1) == At(nodes, i + 1)
    ensures i == |nodes| ==> kept == list == Keep(nodes, family)
  {
    if i == |nodes| {
      assert nodes[..i] == nodes;
    }
  }

  lemma MidwayStep(nodes: Nodes, i: nat, family: int, kept: Nodes, list: Nodes)
    requires Midway(nodes, i, family, kept, list) && i < |nodes| && |kept| < |list|
    ensures nodes[i].family == family ==> Midway(nodes, i + 1, family, kept + [nodes[i]], list)
    ensures nodes[i].family != family ==> Midway(nodes, i + 1, family, kept, Remove(list, |kept|))
  {
    KeepSnoc(nodes, i, family);
    assert kept + [nodes[i]] + nodes[i + 1..] == list;
    assert list[..|kept|] == kept && list[|kept| + 1..] == nodes[i + 1..];
  }

  /** The state of the filter's walk at node `i`. */
  ghost predicate Walk(nodes: Nodes, i: nat, wanted: int, kept: Nodes, list: Nodes, owned: bool,
                       head: AddrInfo?, previous: AddrInfo?, current: AddrInfo?)
    reads Set(nodes)`live, Set(list)`live, Set(list)`next
  {
    && Midway(nodes, i, wanted, kept, list) && |kept| <= |list|
    && IsList(head, list) && current == At(nodes, i)
    && (previous == if |kept| == 0 then null else list[|kept| - 1])
    && (forall n | n in list :: n in nodes)
    && (forall n | n in nodes :: n in list || n.live == owned)
  }

  lemma WalkStarts(head: AddrInfo?, nodes: Nodes, wanted: int, owned: bool)
    requires IsList(head, nodes)
    ensures Walk(nodes, 0, wanted, [], nodes, owned, head, null, head)
  {
  }

  lemma WalkEnds(head: AddrInfo?, nodes: Nodes, i: nat, wanted: int, kept: Nodes, list: Nodes, owned: bool,
                 previous: AddrInfo?, current: AddrInfo?)
    requires Walk(nodes, i, wanted, kept, list, owned, head, previous, current)
    ensures if current == null then i == |nodes| && list == Keep(nodes, wanted) else i < |nodes|
    ensures IsList(head, list) && (forall n | n in list :: n in nodes) && forall n | n in nodes :: n in list || n.live == owned
  {
    MidwayAt(nodes, i, wanted, kept, list);
  }

  method WalkNode(registry: Registry, head: AddrInfo?, previous: AddrInfo?, current: AddrInfo, wanted: int, ghost nodes: Nodes,
                  ghost i: nat, ghost kept: Nodes, ghost list: Nodes, ghost owned: bool, ghost name: Option<string>)
    returns (head': AddrInfo?, previous': AddrInfo?, current': AddrInfo?, ghost kept': Nodes, ghost list': Nodes)
    requires registry.Valid() && Uniform(registry, nodes, owned)
    requires Walk(nodes, i, wanted, kept, list, owned, head, previous, current)
    modifies Set(list)
    ensures Walk(nodes, i + 1, wanted, kept', list', owned, head', previous', current')
    ensures old(NameOnHead(list, name)) ==> NameOnHead(list', name)
  {
    hide Midway, IsList, NameOnHead, Keep, Remove, Uniform, Registry.Valid, Registry.Holds;
    MidwayAt(nodes, i, wanted, kept, list);
    MidwayStep(nodes, i, wanted, kept, list);
    NodeOf(head, list, |kept|);
    UniformAt(registry, nodes, owned, i);
    current' := current.Next();
    kept' := if current.family == wanted then kept + [nodes[i]] else kept;
    ghost var p;
    head', previous', list', p := FilterNode(registry, head, previous, current, wanted, list, |kept|, owned, name);
  }

  /** The filter's walk along the list, with the last kept node one behind. */
  method FilterWalk(registry: Registry, head: AddrInfo?, wanted: int, ghost nodes: Nodes, ghost owned: bool, ghost name: Option<string>)
    returns (head': AddrInfo?)
    requires registry.Valid() && Uniform(registry, nodes, owned) && IsList(head, nodes)
    modifies Set(nodes)
    ensures var kept := Keep(nodes, wanted);
            && IsList(head', kept)
            && (forall n | n in nodes :: n in kept || n.live == owned)
            && (old(NameOnHead(nodes, name)) ==> NameOnHead(kept, name))
  {
    hide Walk, Midway, IsList, NameOnHead, Keep, Uniform, At, Registry.Valid, Registry.Holds;
    head' := head;
    var current, previous: AddrInfo? := head, null;
    ghost var i: nat, kept: Nodes, list := 0, [], nodes;
    WalkStarts(head, nodes, wanted, owned);
    while current != null
      invariant Walk(nodes, i, wanted, kept, list, owned, head', previous, current)
      invariant i <= |nodes|
      invariant old(NameOnHead(nodes, name)) ==> NameOnHead(list, name)
      decreases |nodes| - i
    {
      WalkEnds(head', nodes, i, wanted, kept, list, owned, previous, current);
      head', previous, current, kept, list :=
        WalkNode(registry, head', previous, current, wanted, nodes, i, kept, list, owned, name);
      i := i + 1;
    }
    WalkEnds(head', nodes, i, wanted, kept, list, owned, previous, current);
  }

  /**
   * Removes the nodes of the other family. The kept ones stay in order; a dropped real node is
   * released, a dropped block node is only unlinked. The head's canonical name ends on the new head.
   */
  method Filter(registry: Registry, head: AddrInfo?, family: Family, ghost nodes: Nodes, ghost owned: bool, ghost name: Option<string>)
    returns (found: bool, head': AddrInfo?)
    requires registry.Valid() && Uniform(registry, nodes, owned) && IsList(head, nodes)
    modifies Set(nodes)
    ensures family.Any? ==> !found && head' == head && IsList(head, nodes)
    ensures !family.Any? ==>
              var kept := Keep(nodes, AddressFamily(family));
              && IsList(head', kept) && (found <==> kept != [])
              && (forall n | n in nodes :: n in kept || n.live == owned)
              && (old(NameOnHead(nodes, name)) ==> NameOnHead(kept, name))
              && (forall n :: n in kept <==> n in nodes && n.family == if family.Inet4? then 2 else 10)
  {
    KeepsFamily(nodes, AddressFamily(family));
    if head == null || family.Any? {
      assert head == null ==> nodes == [];
      return false, head;
    }
    hide IsList, NameOnHead, Keep;
    head' := FilterWalk(registry, head, AddressFamily(family), nodes, owned, name);
    found := head' != null;
    HeadOf(head', Keep(nodes, AddressFamily(family)));
  }

  lemma HeadOf(head: AddrInfo?, list: Nodes)
    requires IsList(head, list)
    ensures head == null <==> list == []
  {
  }

  lemma RemoveLeaves(list: Nodes, p: nat)
    requires p < |list|
    ensures forall n | n in list :: n in Remove(list, p) || n == list[p]
    ensures forall n | n in Remove(list, p) :: n in list
    ensures p > 0 ==> Remove(list, p)[p - 1] == list[p - 1]
  {
    forall n | n in list ensures n in Remove(list, p) || n == list[p] {
      var i :| 0 <= i < |list| && list[i] == n;
      assert i < p ==> Remove(list, p)[i] == n;
      assert i > p ==> Remove(list, p)[i - 1] == n;
    }
  }

  /** One node of the filter's walk: kept, or dropped. */
  method FilterNode(registry: Registry, head: AddrInfo?, previous: AddrInfo?, current: AddrInfo, wanted: int,
                    ghost list: Nodes, ghost p: nat, ghost owned: bool, ghost name: Option<string>)
    returns (head': AddrInfo?, previous': AddrInfo?, ghost list': Nodes, ghost p': nat)
    requires registry.Valid() && Uniform(registry, [current], owned)
    requires p < |list| && IsList(head, list) && current == list[p]
    requires previous == if p == 0 then null else list[p - 1]
    modifies Set(list)
    ensures if current.family == wanted then list' == list && p' == p + 1 else list' == Remove(list, p) && p' == p
    ensures IsList(head', list') && p' <= |list'| && previous' == if p' == 0 then null else list'[p' - 1]
    ensures forall n | n in list :: n in list' || n.live == owned
    ensures forall n | n in list' :: n in list
    ensures old(NameOnHead(list, name)) ==> NameOnHead(list', name)
  {
    hide IsList, NameOnHead;
    if current.family != wanted {
      RemoveLeaves(list, p);
      head' := Drop(registry, head, previous, current, list, p, owned, name);
      previous', list', p' := previous, Remove(list, p), p;
    } else {
      head', previous', list', p' := head, current, list, p + 1;
    }
  }

  lemma UniformAt(registry: Registry, nodes: Nodes, owned: bool, i: nat)
    requires Uniform(registry, nodes, owned) && i < |nodes|
    ensures Uniform(registry, [nodes[i]], owned)
  {
  }

  // ---- LIMIT -------------------------------------------------------------------------------

  function Prefix(nodes: Nodes, limit: nat): Nodes {
    if limit < |nodes| then nodes[..limit] else nodes
  }

  /** Ends the list behind its node `limit` and returns the tail, a list of its own. */
  method Detach(head: AddrInfo?, last: AddrInfo, ghost nodes: Nodes, ghost limit: nat) returns (tail: AddrInfo?)
    requires IsList(head, nodes) && 0 < limit <= |nodes| && last == nodes[limit - 1]
    modifies last`next
    ensures IsList(head, nodes[..limit]) && IsList(tail, nodes[limit..])
  {
    tail := last.Next();
    assert forall i | 0 <= i < |nodes| && i != limit - 1 :: nodes[i] != last;
    last.SetNext(null);
  }

  /** The node a limit cuts behind; none when the list is not that long. */
  method FindLast(head: AddrInfo?, limit: nat, ghost nodes: Nodes) returns (last: AddrInfo?)
    requires IsList(head, nodes) && limit > 0
    ensures last == At(nodes, limit - 1)
  {
    var current, count := head, 0;
    while current != null
      invariant current == At(nodes, count) && count <= |nodes| && count < limit
      decreases |nodes| - count
    {
      NodeOf(head, nodes, count);
      count := count + 1;
      if count == limit {
        return current;
      }
      current := current.Next();
    }
    return null;
  }

  /**
   * Cuts a list behind `limit` nodes; the tail of a real list is released in one call. Limit zero
   * gives up the whole list.
   */
  method Limit(registry: Registry, head: AddrInfo?, limit: nat, ghost nodes: Nodes, ghost owned: bool)
    returns (head': AddrInfo?)
    requires registry.Valid() && Uniform(registry, nodes, owned) && IsList(head, nodes)
    modifies Set(nodes)
    ensures IsList(head', Prefix(nodes, limit))
    ensures forall n | n in nodes :: n in Prefix(nodes, limit) || n.live == owned
    ensures forall n | n in Prefix(nodes, limit) :: n.canonname == old(n.canonname)
  {
    HeadOf(head, nodes);
    if head == null || limit == 0 {
      AllLive(head, nodes);
      CallRealFree(registry, head, nodes, owned);
      return null;
    }
    var last := FindLast(head, limit, nodes);
    if last == null {
      return head;
    }
    assert last == nodes[limit - 1];
    SplitDistinct(nodes, limit);
    SuffixUniform(registry, nodes, owned, limit);
    hide IsList, Uniform, Registry.Valid, Registry.Holds;
    var tail := Detach(head, last, nodes, limit);
    CallRealFree(registry, tail, nodes[limit..], owned);
    assert Prefix(nodes, limit) == nodes[..limit];
    head' := head;
  }

  lemma SplitDistinct(nodes: Nodes, limit: nat)
    requires NoRepeats(nodes) && limit <= |nodes|
    ensures forall n | n in nodes[..limit] :: n !in nodes[limit..]
    ensures forall n | n in nodes :: n in nodes[..limit] || n in nodes[limit..]
  {
    assert nodes == nodes[..limit] + nodes[limit..];
  }

  lemma SuffixUniform(registry: Registry, nodes: Nodes, owned: bool, limit: nat)
    requires Uniform(registry, nodes, owned) && limit <= |nodes|
    ensures Uniform(registry, nodes[limit..], owned)
  {
  }

  // ---- SHUFFLE -----------------------------------------------------------------------------

  method Count(head: AddrInfo?, ghost nodes: Nodes) returns (count: nat)
    requires IsList(head, nodes)
    ensures count == |nodes|
  {
    count := 0;
    var current := head;
    while current != null
      invariant count <= |nodes| && current == At(nodes, count)
      decreases |nodes| - count
    {
      NodeOf(head, nodes, count);
      count := count + 1;
      current := current.Next();
    }
  }

  /** The node references in list order. */
  method Collect(head: AddrInfo, count: nat, ghost nodes: Nodes) returns (order: array<AddrInfo>)
    requires IsList(head, nodes) && count == |nodes|
    ensures fresh(order) && order[..] == nodes
  {
    order := new AddrInfo[count](_ => head);
    var current: AddrInfo? := head;
    var index := 0;
    while index < count
      invariant index <= count && current == At(nodes, index)
      invariant forall k | 0 <= k < index :: order[k] == nodes[k]
    {
      NodeOf(head, nodes, index);
      order[index] := current;
      current := current.Next();
      index := index + 1;
    }
  }

  /** The descending sweep over the references. */
  method Sweep(order: array<AddrInfo>, draws: nat -> nat)
    requires order.Length >= 2
    modifies order
    ensures order[..] == Swept(old(order[..]), draws, order.Length - 1)
  {
    hide Drawn, Swap;
    var index: nat := order.Length - 1;
    while index > 0
      invariant index < order.Length
      invariant Swept(order[..], draws, index) == Swept(old(order[..]), draws, order.Length - 1)
    {
      ghost var before := order[..];
      var swapIndex := Drawn(draws, index);
      var tmp := order[index];
      order[index] := order[swapIndex];
      order[swapIndex] := tmp;
      assert order[..] == Swap(before, index, swapIndex);
      index := index - 1;
    }
  }

  /** Links the nodes in their new order. */
  method Relink(order: array<AddrInfo>, ghost nodes: Nodes)
    requires order.Length > 0 && nodes == order[..] && NoRepeats(nodes) && Live(nodes)
    modifies Set(nodes)`next
    ensures IsList(order[0], nodes)
  {
    var index := 0;
    while index + 1 < order.Length
      invariant index < order.Length
      invariant forall k {:trigger nodes[k].next} | 0 <= k < index :: nodes[k].next == nodes[k + 1]
    {
      assert nodes[index] == order[index] && nodes[index + 1] == order[index + 1];
      order[index].SetNext(order[index + 1]);
      index := index + 1;
    }
    assert nodes[index] == order[index];
    order[index].SetNext(null);
  }

  /** The same nodes in another order. */
  ghost predicate Reordered(nodes: Nodes, order: Nodes) {
    nodes != [] && order != [] && NoRepeats(nodes) && NoRepeats(order) && Set(nodes) == Set(order)
  }

  lemma PermutationReorders(nodes: Nodes, order: Nodes)
    requires nodes != [] && NoRepeats(nodes) && multiset(nodes) == multiset(order)
    ensures Reordered(nodes, order)
  {
    PermutationKeepsDistinct(nodes, order);
    assert nodes[0] in order;
  }

  /** The canonical name belongs to the head: the old head's goes to the new one. */
  method SwapNames(head: AddrInfo, first: AddrInfo, ghost nodes: Nodes, ghost order: Nodes, ghost name: Option<string>)
    requires Reordered(nodes, order) && Live(nodes) && head == nodes[0] && first == order[0]
    modifies Set(nodes)`canonname
    ensures old(NameOnHead(nodes, name)) ==> NameOnHead(order, name)
  {
    assert first in Set(nodes);
    var canonname := head.Name();
    head.SetName(first.Name());
    first.SetName(canonname);
    forall i | 0 <= i < |order| ensures order[i] in Set(nodes) && (i > 0 ==> order[i] != first) {
      assert order[i] in Set(order);
    }
  }

  lemma ReorderedLive(nodes: Nodes, order: Nodes)
    requires Reordered(nodes, order) && Live(nodes)
    ensures Live(order)
  {
    forall i | 0 <= i < |order| ensures order[i].live {
      assert order[i] in Set(order);
    }
  }

  lemma ListFacts(head: AddrInfo?, nodes: Nodes)
    requires IsList(head, nodes)
    ensures NoRepeats(nodes) && Live(nodes) && head == At(nodes, 0)
  {
  }

  /** Puts the nodes in the order of the references: the name first, then the links. */
  method Reorder(head: AddrInfo, references: array<AddrInfo>, ghost nodes: Nodes, ghost name: Option<string>)
    returns (head': AddrInfo)
    requires IsList(head, nodes) && Reordered(nodes, references[..])
    modifies Set(nodes)
    ensures IsList(head', references[..]) && references[..] == old(references[..])
    ensures old(NameOnHead(nodes, name)) ==> NameOnHead(references[..], name)
  {
    ghost var order := references[..];
    ListFacts(head, nodes);
    ReorderedLive(nodes, order);
    hide NameOnHead, Linked, Live, IsList, NoRepeats;
    SwapNames(head, references[0], nodes, order, name);
    Relink(references, order);
    head' := references[0];
  }

  /** Collects the references, sweeps them and puts the nodes in that order. */
  method ShuffleMany(head: AddrInfo, count: nat, draws: nat -> nat, ghost nodes: Nodes, ghost name: Option<string>)
    returns (head': AddrInfo, ghost order: Nodes)
    requires IsList(head, nodes) && 2 <= count == |nodes|
    modifies Set(nodes)
    ensures IsList(head', order) && order == Swept(nodes, draws, |nodes| - 1)
    ensures old(NameOnHead(nodes, name)) ==> NameOnHead(order, name)
  {
    hide NameOnHead, Linked, Live, IsList, NoRepeats, Reordered, Swept;
    ListFacts(head, nodes);
    var references := Collect(head, count, nodes);
    Sweep(references, draws);
    order := references[..];
    SweepPermutes(nodes, draws, count - 1);
    PermutationReorders(nodes, order);
    head' := Reorder(head, references, nodes, name);
  }

  /**
   * Shuffles a list of two or more, when there is memory for the references. The nodes are the same
   * in another order; the head's canonical name is on the new head.
   */
  method Shuffle(head: AddrInfo?, draws: nat -> nat, memory: bool, ghost nodes: Nodes, ghost name: Option<string>)
    returns (head': AddrInfo?, ghost order: Nodes)
    requires IsList(head, nodes)
    modifies Set(nodes)
    ensures IsList(head', order) && multiset(order) == multiset(nodes)
    ensures order == if memory && |nodes| >= 2 then Swept(nodes, draws, |nodes| - 1) else nodes
    ensures old(NameOnHead(nodes, name)) ==> NameOnHead(order, name)
  {
    hide NameOnHead, IsList, Swept;
    HeadOf(head, nodes);
    if head == null {
      return head, nodes;
    }
    var count := Count(head, nodes);
    if count < 2 || !memory {
      return head, nodes;
    }
    SweepPermutes(nodes, draws, count - 1);
    head', order := ShuffleMany(head, count, draws, nodes, name);
  }
}
