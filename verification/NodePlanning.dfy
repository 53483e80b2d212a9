/** Planning the compute nodes: suggested addresses, the DHCP pool, names and node addresses. */
module NodePlanning {
  import opened Decimal
  import opened Ipv4
  import opened MacAddresses
  import opened Wrappers

  /** A configured network; an unspecified gateway is zero. */
  datatype Network = Network(address: Word, mask: Word, gateway: Word)

  function HostSpace(network: Network): nat {
    Not(network.mask, 32)
  }

  /** 32-bit addition of an offset that is cut to 32 bits first. */
  function Offset(base: Word, offset: nat): Word {
    Wrap(base + offset % 0x1_0000_0000)
  }

  function Blocked(network: Network, head: Word): set<Word> {
    {head} + if Unspecified(network.gateway) then {} else {network.gateway}
  }

  /** A host offset whose address is neither the head node's nor the gateway's. */
  predicate Usable(network: Network, head: Word, offset: nat) {
    0 < offset < HostSpace(network) && Offset(network.address, offset) !in Blocked(network, head)
  }

  predicate NoneUsable(network: Network, head: Word, offsets: seq<nat>) {
    forall i :: 0 <= i < |offsets| ==> !Usable(network, head, offsets[i])
  }

  /** The offset to suggest: the first usable preferred one, else the smallest usable one. */
  ghost predicate IsSuggestion(network: Network, head: Word, preferred: seq<nat>, offset: nat) {
    && Usable(network, head, offset)
    && if NoneUsable(network, head, preferred)
       then forall o: nat :: o < offset ==> !Usable(network, head, o)
       else exists i :: 0 <= i < |preferred| && preferred[i] == offset && NoneUsable(network, head, preferred[..i])
  }

  method SuggestAddress(network: Network, head: Word, preferred: seq<nat>) returns (r: Option<Word>)
    ensures r.Some? ==> exists offset: nat ::
      IsSuggestion(network, head, preferred, offset) && r.value == Offset(network.address, offset)
    ensures r.None? <==> forall offset: nat :: !Usable(network, head, offset)
  {
    var hostSpace := HostSpace(network);
    if hostSpace < 2 {
      return None;
    }
    var i := 0;
    while i < |preferred|
      invariant 0 <= i <= |preferred|
      invariant NoneUsable(network, head, preferred[..i])
    {
      if Usable(network, head, preferred[i]) {
        assert IsSuggestion(network, head, preferred, preferred[i]);
        return Some(Offset(network.address, preferred[i]));
      }
      assert preferred[..i + 1] == preferred[..i] + [preferred[i]];
      i := i + 1;
    }
    assert preferred[..i] == preferred;
    var offset := 1;
    while offset < hostSpace
      invariant 1 <= offset <= hostSpace
      invariant forall o: nat :: o < offset ==> !Usable(network, head, o)
    {
      if Usable(network, head, offset) {
        assert IsSuggestion(network, head, preferred, offset);
        return Some(Offset(network.address, offset));
      }
      offset := offset + 1;
    }
    return None;
  }

  /** A network as the program configures it: a mask of the CIDR table, and the address it masks to. */
  predicate Aligned(network: Network, prefix: nat)
    requires prefix <= 32
  {
    network.mask == Mask(prefix) && network.address % BlockSize(prefix) == 0
  }

  function Broadcast(network: Network): nat {
    Or(network.address, Not(network.mask, 32))
  }

  lemma AlignedArithmetic(network: Network, prefix: nat)
    requires prefix <= 32 && Aligned(network, prefix)
    ensures HostSpace(network) == BlockSize(prefix) - 1
    ensures Broadcast(network) == network.address + BlockSize(prefix) - 1 < WORDS
    ensures And(network.address, network.mask) == network.address
  {
    hide Pow2, And, Or, Not, BlockSize, Mask;
    MaskArithmetic(network.address, prefix);
    RoundDown(network.address, BlockSize(prefix));
  }

  lemma BlockSizes(prefix: nat)
    requires prefix <= 32
    ensures prefix == 32 ==> BlockSize(prefix) == 1
    ensures prefix == 31 ==> BlockSize(prefix) == 2
    ensures prefix == 30 ==> BlockSize(prefix) == 4
    ensures prefix <= 29 ==> BlockSize(prefix) >= 8
    ensures prefix <= 24 ==> BlockSize(prefix) >= 256
  {
    assert Pow2(1) == 2 && Pow2(2) == 4 && Pow2(3) == 8;
    assert Pow2(8) == 256;
    if prefix <= 29 { Pow2Monotone(3, 32 - prefix); }
    if prefix <= 24 { Pow2Monotone(8, 32 - prefix); }
  }

  /** Usable offsets are the free addresses strictly between network and broadcast; nothing wraps. */
  lemma UsableIsFreeHost(network: Network, head: Word, prefix: nat, offset: nat)
    requires prefix <= 32 && Aligned(network, prefix)
    ensures Usable(network, head, offset) <==>
      var a := network.address + offset;
      network.address < a < Broadcast(network) && a != head && (network.gateway == 0 || a != network.gateway)
    ensures Usable(network, head, offset) ==> Offset(network.address, offset) == network.address + offset
  {
    hide Pow2, And, Or, Not, BlockSize, Mask;
    AlignedArithmetic(network, prefix);
  }

  /** Outside /30 and longer prefixes there is always an address to suggest. */
  lemma SmallPrefixHasFreeHost(network: Network, head: Word, prefix: nat) returns (offset: nat)
    requires prefix <= 29 && Aligned(network, prefix)
    ensures Usable(network, head, offset) && offset <= 3
  {
    hide Pow2, And, Or, Not, BlockSize, Mask;
    AlignedArithmetic(network, prefix);
    BlockSizes(prefix);
    UsableIsFreeHost(network, head, prefix, 1);
    UsableIsFreeHost(network, head, prefix, 2);
    UsableIsFreeHost(network, head, prefix, 3);
    offset := if Usable(network, head, 1) then 1 else if Usable(network, head, 2) then 2 else 3;
  }

  /** A /30 has nothing to suggest exactly when the head node and the gateway hold its two hosts. */
  lemma TwoHostNetwork(network: Network, head: Word)
    requires Aligned(network, 30)
    ensures (forall offset: nat :: !Usable(network, head, offset)) <==>
      network.gateway != 0 && {head, network.gateway} == {network.address + 1, network.address + 2}
  {
    hide Pow2, And, Or, Not, BlockSize, Mask;
    AlignedArithmetic(network, 30);
    BlockSizes(30);
    UsableIsFreeHost(network, head, 30, 1);
    UsableIsFreeHost(network, head, 30, 2);
    forall offset: nat | Usable(network, head, offset) ensures offset == 1 || offset == 2 {
      UsableIsFreeHost(network, head, 30, offset);
    }
    var one, two := network.address + 1, network.address + 2;
    if {head, network.gateway} == {one, two} {
      assert one in {head, network.gateway} && two in {head, network.gateway};
    }
  }

  // ----- the DHCP pool

  datatype Pool = Pool(first: Word, last: Word) {
    predicate Holds(address: int) {
      first <= address <= last
    }
  }

  function DefaultDHCPDynamicRangeFor(subnet: Word, mask: Word): Option<Pool> {
    Pow2Of32();
    RangeBelow(subnet, Wrap(Or(subnet, Not(mask, 32))))
  }

  function RangeBelow(subnet: Word, broadcast: Word): Option<Pool> {
    var firstUsable := Wrap(subnet + 1);
    var lastUsable := Wrap(broadcast - 1);
    if lastUsable < firstUsable then None
    else
      var end := if lastUsable > Wrap(firstUsable + 2) then Wrap(lastUsable - 2) else lastUsable;
      var available := Wrap(end - firstUsable + 1);
      var size := if available < 100 then available else 100;
      Some(Pool(Wrap(end - size + 1), end))
  }

  lemma RangeOfNetwork(network: Network, prefix: nat)
    requires prefix <= 32 && Aligned(network, prefix)
    ensures Broadcast(network) < WORDS
    ensures DefaultDHCPDynamicRangeFor(network.address, network.mask) == RangeBelow(network.address, Broadcast(network))
  {
    hide Pow2, And, Or, Not, BlockSize, Mask, RangeBelow;
    AlignedArithmetic(network, prefix);
  }

  /** The pool ends two below the last usable address where there is room, and holds up to 100 addresses. */
  lemma PoolIsInside(network: Network, prefix: nat)
    requires prefix <= 30 && Aligned(network, prefix)
    ensures
      var r := DefaultDHCPDynamicRangeFor(network.address, network.mask);
      var reserve := if prefix <= 29 then 2 else 0;
      var available := Broadcast(network) - 1 - reserve - network.address;
      && r.Some?
      && network.address < r.value.first <= r.value.last == Broadcast(network) - 1 - reserve
      && r.value.last - r.value.first + 1 == if available < 100 then available else 100
  {
    hide Pow2, And, Or, Not, BlockSize, Mask, DefaultDHCPDynamicRangeFor;
    AlignedArithmetic(network, prefix);
    RangeOfNetwork(network, prefix);
    BlockSizes(prefix);
  }

  /** Longer prefixes are rejected, except where the guard's own arithmetic wraps around. */
  lemma TinyNetworks(network: Network, prefix: nat)
    requires 31 <= prefix <= 32 && Aligned(network, prefix)
    ensures DefaultDHCPDynamicRangeFor(network.address, network.mask).None? <==>
      prefix == 31 || 0 < network.address < WORDS - 1
  {
    hide Pow2, And, Or, Not, BlockSize, Mask, DefaultDHCPDynamicRangeFor;
    AlignedArithmetic(network, prefix);
    RangeOfNetwork(network, prefix);
    BlockSizes(prefix);
    if prefix == 31 {
      assert network.address % 2 == 0;
    }
  }

  function AddressOfNode(start: Word, number: nat): Word
    requires number > 0
  {
    Offset(start, number - 1)
  }

  ghost predicate NodesMissPool(pool: Pool, start: Word, quantity: nat) {
    forall node: nat :: 0 < node <= quantity ==> !pool.Holds(AddressOfNode(start, node))
  }

  /** The offsets preferred for the first node. */
  const PREFERRED: seq<nat> := [101, 1, 11, 2]

  lemma OneOfThreeIsFree(network: Network, head: Word, prefix: nat)
    requires prefix <= 24 && Aligned(network, prefix)
    ensures Usable(network, head, 101) || Usable(network, head, 1) || Usable(network, head, 11)
  {
    hide Pow2, And, Or, Not, BlockSize, Mask, Usable;
    AlignedArithmetic(network, prefix);
    BlockSizes(prefix);
    UsableIsFreeHost(network, head, prefix, 101);
    UsableIsFreeHost(network, head, prefix, 1);
    UsableIsFreeHost(network, head, prefix, 11);
  }

  /** From a /24 up one of the first three preferred offsets is free, and the first such is suggested. */
  lemma SuggestedStart(network: Network, head: Word, prefix: nat, offset: nat)
    requires prefix <= 24 && Aligned(network, prefix) && IsSuggestion(network, head, PREFERRED, offset)
    ensures offset == if Usable(network, head, 101) then 101 else if Usable(network, head, 1) then 1 else 11
    ensures Usable(network, head, offset) && Offset(network.address, offset) == network.address + offset
  {
    hide Pow2, And, Or, Not, BlockSize, Mask, Usable, Offset, Aligned;
    OneOfThreeIsFree(network, head, prefix);
    UsableIsFreeHost(network, head, prefix, offset);
    assert PREFERRED[0] == 101 && PREFERRED[1] == 1 && PREFERRED[2] == 11;
    assert !NoneUsable(network, head, PREFERRED);
    var i :| 0 <= i < |PREFERRED| && PREFERRED[i] == offset && NoneUsable(network, head, PREFERRED[..i]);
    assert forall k :: 0 <= k < i ==> PREFERRED[..i][k] == PREFERRED[k];
  }

  /** From a /24 up, the nodes that start at the suggested offset meet the pool exactly when they are too many. */
  lemma NodesBelowPool(network: Network, head: Word, prefix: nat, offset: nat, quantity: nat)
    requires prefix <= 24 && Aligned(network, prefix) && IsSuggestion(network, head, PREFERRED, offset)
    ensures
      var pool := DefaultDHCPDynamicRangeFor(network.address, network.mask);
      && pool.Some?
      && (NodesMissPool(pool.value, Offset(network.address, offset), quantity) <==>
            quantity == 0 || quantity + offset <= Broadcast(network) - network.address - 102)
  {
    hide Pow2, And, Or, Not, BlockSize, Mask, DefaultDHCPDynamicRangeFor, Broadcast, IsSuggestion, Usable, Offset;
    AlignedArithmetic(network, prefix);
    BlockSizes(prefix);
    PoolIsInside(network, prefix);
    SuggestedStart(network, head, prefix, offset);
    BlockMeetsPool(DefaultDHCPDynamicRangeFor(network.address, network.mask).value, network.address + offset, quantity);
  }

  lemma BlockMeetsPool(pool: Pool, start: Word, quantity: nat)
    requires start <= pool.last && pool.first <= pool.last
    ensures NodesMissPool(pool, start, quantity) <==> quantity == 0 || start + quantity <= pool.first
  {
    if quantity > 0 && start + quantity > pool.first {
      var node := if start < pool.first then pool.first - start + 1 else 1;
      assert pool.Holds(AddressOfNode(start, node));
    }
  }

  // ----- names and addresses of the nodes

  function BuildNodeName(prefix: string, index: nat, padding: nat): string {
    prefix + Padded(index, padding)
  }

  /** Zero-padded names are different for different nodes, even where the number outgrows the padding. */
  lemma NodeNamesDiffer(prefix: string, i: nat, j: nat, padding: nat)
    ensures BuildNodeName(prefix, i, padding) == BuildNodeName(prefix, j, padding) <==> i == j
  {
    var a, b := BuildNodeName(prefix, i, padding), BuildNodeName(prefix, j, padding);
    assert a[|prefix|..] == Padded(i, padding) && b[|prefix|..] == Padded(j, padding);
    PaddedValue(i, padding);
    PaddedValue(j, padding);
  }

  lemma OffsetsDiffer(base: Word, i: nat, j: nat)
    ensures Offset(base, i) == Offset(base, j) <==> i % WORDS == j % WORDS
  {
    var x, y := i % 0x1_0000_0000, j % 0x1_0000_0000;
    assert Offset(base, i) == Wrap(base + x) && Offset(base, j) == Wrap(base + y);
  }

  /** What the operator types for the BMC of a node. */
  datatype BmcField = Blank | NotAnAddress | At(address: Word)

  /** One attempt to define a node. */
  datatype Entry = Entry(mac: string, bmc: BmcField)

  datatype Node = Node(name: string, address: Word, mac: string, bmc: Option<Word>)

  /**
   * An attempt is taken unless a field is malformed or the BMC has the node's own address; and no
   * attempt is taken for a node that would get the unspecified address.
   */
  predicate Accepts(entry: Entry, address: Word) {
    && ValidateMAC(entry.mac) && !Unspecified(address)
    && !entry.bmc.NotAnAddress? && (entry.bmc.At? ==> entry.bmc.address != address)
  }

  /** What the operator is asked to plan. */
  datatype Request = Request(prefix: string, padding: nat, start: Word, quantity: nat)

  function NodeFor(r: Request, number: nat, entry: Entry): Node
    requires number > 0
  {
    Node(BuildNodeName(r.prefix, number, r.padding), AddressOfNode(r.start, number), Stored(entry.mac),
         if entry.bmc.At? then Some(entry.bmc.address) else None)
  }

  /** The nodes from this number on: each takes the next acceptable attempt. */
  function PlanNodes(r: Request, number: nat, entries: seq<Entry>): seq<Node>
    requires number > 0
    decreases |entries|
  {
    if number > r.quantity || entries == [] then []
    else if Accepts(entries[0], AddressOfNode(r.start, number)) then
      [NodeFor(r, number, entries[0])] + PlanNodes(r, number + 1, entries[1..])
    else PlanNodes(r, number, entries[1..])
  }

  /** Define the nodes one by one, asking again until the attempt is acceptable. */
  method AddNodes(r: Request, entries: seq<Entry>) returns (nodes: seq<Node>)
    ensures nodes == PlanNodes(r, 1, entries)
  {
    hide NodeFor, Accepts, AddressOfNode;
    nodes := [];
    var next := 0;
    var node := 1;
    while node <= r.quantity
      invariant 0 < node && 0 <= next <= |entries|
      invariant nodes + PlanNodes(r, node, entries[next..]) == PlanNodes(r, 1, entries)
    {
      var address := AddressOfNode(r.start, node);
      while next < |entries| && !Accepts(entries[next], address)
        invariant 0 <= next <= |entries|
        invariant nodes + PlanNodes(r, node, entries[next..]) == PlanNodes(r, 1, entries)
      {
        assert entries[next..][1..] == entries[next + 1..];
        next := next + 1;
      }
      if next == |entries| {
        return;
      }
      assert entries[next..][1..] == entries[next + 1..];
      nodes := nodes + [NodeFor(r, node, entries[next])];
      next := next + 1;
      node := node + 1;
    }
  }

  lemma {:induction false} PlannedNode(r: Request, number: nat, entries: seq<Entry>, i: nat)
    requires number > 0 && i < |PlanNodes(r, number, entries)|
    ensures
      var node := PlanNodes(r, number, entries)[i];
      && number + i <= r.quantity
      && node.name == BuildNodeName(r.prefix, number + i, r.padding)
      && node.address == AddressOfNode(r.start, number + i)
      && node.bmc != Some(node.address) && !Unspecified(node.address)
    decreases |entries|
  {
    hide ValidateMAC, BuildNodeName, AddressOfNode;
    if Accepts(entries[0], AddressOfNode(r.start, number)) {
      if i > 0 {
        PlannedNode(r, number + 1, entries[1..], i - 1);
      }
    } else {
      PlannedNode(r, number, entries[1..], i);
    }
  }

  /** Planning never gets past a node whose address would be unspecified, however often the operator tries. */
  lemma StopsAtUnspecified(r: Request, entries: seq<Entry>, number: nat)
    requires number > 0 && Unspecified(AddressOfNode(r.start, number))
    ensures |PlanNodes(r, 1, entries)| < number
  {
    hide PlanNodes, AddressOfNode;
    if |PlanNodes(r, 1, entries)| >= number {
      PlannedNode(r, 1, entries, number - 1);
    }
  }

  const GOOD_ENTRY: Entry := Entry("00:00:00:00:00:00", Blank)

  lemma GoodEntry(address: Word)
    ensures Accepts(GOOD_ENTRY, address) <==> !Unspecified(address)
  {
    assert IsSixPairs(GOOD_ENTRY.mac);
  }

  /** With an acceptable attempt for each, all nodes from this number on are planned. */
  lemma {:induction false} PlanTheRest(r: Request, number: nat) returns (entries: seq<Entry>)
    requires 0 < number <= r.quantity + 1
    requires forall k: nat :: number <= k <= r.quantity ==> !Unspecified(AddressOfNode(r.start, k))
    ensures |PlanNodes(r, number, entries)| == r.quantity + 1 - number
    decreases r.quantity + 1 - number
  {
    hide Accepts, AddressOfNode, NodeFor;
    if number > r.quantity {
      entries := [];
    } else {
      var rest := PlanTheRest(r, number + 1);
      GoodEntry(AddressOfNode(r.start, number));
      entries := [GOOD_ENTRY] + rest;
      assert entries[0] == GOOD_ENTRY && entries[1..] == rest;
    }
  }

  /** The addresses from the first to the last node stay clear of zero. */
  predicate Fits(r: Request) {
    r.quantity == 0 || (r.start > 0 && r.start + r.quantity <= WORDS)
  }

  lemma FirstUnspecified(r: Request) returns (number: nat)
    requires !Fits(r)
    ensures 0 < number <= r.quantity && Unspecified(AddressOfNode(r.start, number))
  {
    number := if r.start == 0 then 1 else WORDS - r.start + 1;
  }

  lemma NoneUnspecified(r: Request, number: nat)
    requires Fits(r) && 0 < number <= r.quantity
    ensures AddressOfNode(r.start, number) == r.start + (number - 1) > 0
  {
  }

  /** All nodes can be planned exactly when their addresses neither start at zero nor wrap around to it. */
  lemma PlanningCompletes(r: Request)
    ensures (exists entries :: |PlanNodes(r, 1, entries)| == r.quantity) <==> Fits(r)
  {
    hide AddressOfNode, PlanNodes, Fits;
    if Fits(r) {
      forall k: nat | 1 <= k <= r.quantity ensures !Unspecified(AddressOfNode(r.start, k)) {
        NoneUnspecified(r, k);
      }
      var entries := PlanTheRest(r, 1);
    } else {
      var number := FirstUnspecified(r);
      forall entries ensures |PlanNodes(r, 1, entries)| < r.quantity {
        StopsAtUnspecified(r, entries, number);
      }
    }
  }

  /** Two nodes from 255.255.255.255 on: the second one is never planned. */
  lemma LastAddress(entries: seq<Entry>)
    ensures |PlanNodes(Request("n", 2, 0xFFFF_FFFF, 2), 1, entries)| <= 1
  {
    StopsAtUnspecified(Request("n", 2, 0xFFFF_FFFF, 2), entries, 2);
  }

  /** However many are asked for, planned nodes have the addresses from the first on without a wrap, so fewer than 2^32. */
  lemma PlannedAddresses(r: Request, entries: seq<Entry>)
    ensures |PlanNodes(r, 1, entries)| <= r.quantity
    ensures PlanNodes(r, 1, entries) != [] ==> r.start > 0 && r.start + |PlanNodes(r, 1, entries)| <= WORDS
    ensures forall i :: 0 <= i < |PlanNodes(r, 1, entries)| ==> PlanNodes(r, 1, entries)[i].address == r.start + i
  {
    hide PlanNodes, AddressOfNode, Fits, BuildNodeName;
    var n := |PlanNodes(r, 1, entries)|;
    if n > 0 {
      PlannedNode(r, 1, entries, n - 1);
      var done := r.(quantity := n);
      if !Fits(done) {
        var number := FirstUnspecified(done);
        StopsAtUnspecified(r, entries, number);
      }
      FitsInWords(done);
      forall i | 0 <= i < n ensures PlanNodes(r, 1, entries)[i].address == r.start + i {
        PlannedNode(r, 1, entries, i);
        NoneUnspecified(done, i + 1);
      }
    }
  }

  lemma FitsInWords(r: Request)
    requires Fits(r)
    ensures r.quantity > 0 ==> r.start > 0 && r.start + r.quantity <= WORDS
  {
  }

  /** Planned nodes have pairwise different names and addresses, and no BMC at its node's own address. */
  lemma PlannedNodesDiffer(r: Request, entries: seq<Entry>, i: nat, j: nat)
    requires i < j < |PlanNodes(r, 1, entries)|
    ensures
      var nodes := PlanNodes(r, 1, entries);
      && nodes[i].name != nodes[j].name
      && nodes[i].address != nodes[j].address
      && nodes[i].bmc != Some(nodes[i].address)
  {
    hide PlanNodes, BuildNodeName, Offset;
    PlannedNode(r, 1, entries, i);
    PlannedNode(r, 1, entries, j);
    NodeNamesDiffer(r.prefix, 1 + i, 1 + j, r.padding);
    PlannedAddresses(r, entries);
  }

  // ----- the planned nodes in terms of what was typed

  /** An attempt that is refused for a node of this address. */
  predicate IsRefused(entry: Entry, address: nat) {
    || !ValidateMAC(entry.mac) || address == 0
    || entry.bmc.NotAnAddress? || (entry.bmc.At? && entry.bmc.address == address)
  }

  /** The node that an attempt makes. */
  predicate IsMadeFrom(node: Node, r: Request, number: nat, entry: Entry)
    requires number > 0
  {
    && !IsRefused(entry, (r.start + number - 1) % WORDS)
    && node.address == (r.start + number - 1) % WORDS
    && |node.name| >= |r.prefix| && node.name[..|r.prefix|] == r.prefix
    && IsNumeral(node.name[|r.prefix|..], number, r.padding)
    && node.mac == Stored(entry.mac)
    && node.bmc == if entry.bmc.At? then Some(entry.bmc.address) else None
  }

  lemma AddressInWords(r: Request, number: nat)
    requires 0 < number <= WORDS
    ensures AddressOfNode(r.start, number) == (r.start + number - 1) % WORDS
  {
  }

  lemma NameByParts(prefix: string, number: nat, padding: nat)
    ensures
      var name := BuildNodeName(prefix, number, padding);
      && |name| >= |prefix| && name[..|prefix|] == prefix && IsNumeral(name[|prefix|..], number, padding)
  {
    hide IsNumeral, Padded;
    PaddedIsNumeral(number, padding);
    var name := BuildNodeName(prefix, number, padding);
    assert name[..|prefix|] == prefix && name[|prefix|..] == Padded(number, padding);
  }

  lemma MadeFromEntry(r: Request, number: nat, entry: Entry)
    requires 0 < number <= WORDS
    ensures Accepts(entry, AddressOfNode(r.start, number)) <==> !IsRefused(entry, (r.start + number - 1) % WORDS)
    ensures !IsRefused(entry, (r.start + number - 1) % WORDS) ==> IsMadeFrom(NodeFor(r, number, entry), r, number, entry)
  {
    hide ValidateMAC, Stored, IsNumeral, BuildNodeName, AddressOfNode;
    AddressInWords(r, number);
    NameByParts(r.prefix, number, r.padding);
  }

  /** The nodes from this number on, each made from the first attempt that is not refused for it. */
  ghost predicate TakeInTurn(nodes: seq<Node>, r: Request, number: nat, entries: seq<Entry>)
    requires number > 0
    decreases |entries|
  {
    if number > r.quantity || entries == [] then nodes == []
    else if IsRefused(entries[0], (r.start + number - 1) % WORDS) then TakeInTurn(nodes, r, number, entries[1..])
    else nodes != [] && IsMadeFrom(nodes[0], r, number, entries[0]) && TakeInTurn(nodes[1..], r, number + 1, entries[1..])
  }

  /** What the node loop plans, in terms of the attempts: names, addresses, MACs and BMCs of all nodes. */
  lemma {:induction false} PlannedInTurn(r: Request, number: nat, entries: seq<Entry>)
    requires number > 0 && r.quantity <= WORDS
    ensures TakeInTurn(PlanNodes(r, number, entries), r, number, entries)
    decreases |entries|
  {
    hide Accepts, NodeFor, IsRefused, IsMadeFrom;
    if number <= r.quantity && entries != [] {
      MadeFromEntry(r, number, entries[0]);
      if Accepts(entries[0], AddressOfNode(r.start, number)) {
        PlannedInTurn(r, number + 1, entries[1..]);
        assert PlanNodes(r, number, entries)[1..] == PlanNodes(r, number + 1, entries[1..]);
      } else {
        PlannedInTurn(r, number, entries[1..]);
      }
    }
  }

  /** The i-th planned node is named prefix and number, the number padded with zeros. */
  lemma PlannedNames(r: Request, entries: seq<Entry>, i: nat) returns (s: string)
    requires i < |PlanNodes(r, 1, entries)|
    ensures PlanNodes(r, 1, entries)[i].name == r.prefix + s
    ensures AllDigits(s) && Value(s) == i + 1 && |s| == if |Dec(i + 1)| < r.padding then r.padding else |Dec(i + 1)|
  {
    hide PlanNodes, Padded, Dec, Value;
    PlannedNode(r, 1, entries, i);
    s := Padded(i + 1, r.padding);
    PaddedIsNumeral(i + 1, r.padding);
  }
}
