/** Whether a planned list of nodes passes the uniqueness check once it is read from an answerfile. */
module PlannedInventory {
  import opened Decimal
  import opened Ipv4
  import opened Ipv4Text
  import opened MacAddresses
  import opened NodeInventory
  import opened NodePlanning
  import opened NodeTopology
  import opened Text
  import opened Wrappers

  /** The node as the uniqueness check sees it. */
  function Dumped(node: Node): AFNode {
    AFNode(Some(node.address),
      map[Hostname := node.name, MacAddress := node.mac, BmcAddress := if node.bmc.Some? then Print(node.bmc.value) else ""])
  }

  function DumpedAll(nodes: seq<Node>): seq<AFNode> {
    seq(|nodes|, i requires 0 <= i < |nodes| => Dumped(nodes[i]))
  }

  /** A node as planning yields it. */
  predicate IsPlanned(node: Node) {
    && node.name != "" && !Unspecified(node.address) && node.bmc != Some(node.address)
    && node.mac != "" && Stored(node.mac) == node.mac
  }

  predicate ArePlanned(nodes: seq<Node>) {
    && (forall i :: 0 <= i < |nodes| ==> IsPlanned(nodes[i]))
    && (forall i, j :: 0 <= i < j < |nodes| ==> nodes[i].name != nodes[j].name && nodes[i].address != nodes[j].address)
  }

  /** No MAC twice, no BMC address twice, and no BMC at the address of another node. */
  predicate NoClash(nodes: seq<Node>) {
    && (forall i, j :: 0 <= i < j < |nodes| ==> nodes[i].mac != nodes[j].mac)
    && (forall i, j :: 0 <= i < j < |nodes| && nodes[i].bmc.Some? ==> nodes[i].bmc != nodes[j].bmc)
    && (forall i, j :: 0 <= i < |nodes| && 0 <= j < |nodes| && nodes[i].bmc.Some? ==> nodes[i].bmc.value != nodes[j].address)
  }

  function BmcText(node: Node): seq<string> {
    if node.bmc.Some? then [Print(node.bmc.value)] else []
  }

  lemma PlannedClaims(node: Node)
    requires IsPlanned(node)
    ensures Claims(HostnameKind, Dumped(node)) == [node.name]
    ensures Claims(MacKind, Dumped(node)) == [node.mac]
    ensures Claims(AnyAddressKind, Dumped(node)) == [Print(node.address)] + BmcText(node)
    ensures |node.mac| > 0
  {
    hide Print;
    PrintReadsBack(node.address);
    if node.bmc.Some? {
      PrintReadsBack(node.bmc.value);
    }
  }

  lemma SamePrint(a: Word, b: Word)
    ensures Print(a) == Print(b) <==> a == b
  {
    hide Print;
    PrintReadsBack(a);
    PrintReadsBack(b);
  }

  lemma NamesAreDistinct(nodes: seq<Node>)
    requires ArePlanned(nodes)
    ensures NoDuplicates(AllClaims(HostnameKind, DumpedAll(nodes)))
  {
    hide Claims, AllClaims, Dumped, IsPlanned;
    DistinctIsPairwise(HostnameKind, DumpedAll(nodes));
    forall i | 0 <= i < |nodes| ensures Claims(HostnameKind, DumpedAll(nodes)[i]) == [nodes[i].name] {
      PlannedClaims(nodes[i]);
    }
  }

  lemma MacsAreDistinct(nodes: seq<Node>)
    requires ArePlanned(nodes)
    ensures NoDuplicates(AllClaims(MacKind, DumpedAll(nodes))) <==>
      forall i, j :: 0 <= i < j < |nodes| ==> nodes[i].mac != nodes[j].mac
  {
    hide Claims, AllClaims, Dumped, IsPlanned;
    var dumped := DumpedAll(nodes);
    DistinctIsPairwise(MacKind, dumped);
    forall i | 0 <= i < |nodes| ensures Claims(MacKind, dumped[i]) == [nodes[i].mac] {
      PlannedClaims(nodes[i]);
    }
    if PairwiseDistinct(MacKind, dumped) {
      forall i, j | 0 <= i < j < |nodes| ensures nodes[i].mac != nodes[j].mac {
        assert nodes[i].mac in Claims(MacKind, dumped[i]);
      }
    }
  }

  /** Two nodes share no address between them. */
  predicate Apart(a: Node, b: Node) {
    && a.address != b.address && a.bmc != Some(b.address) && b.bmc != Some(a.address)
    && (a.bmc.Some? ==> a.bmc != b.bmc)
  }

  lemma ApartClaims(a: Node, b: Node)
    requires IsPlanned(a) && IsPlanned(b)
    ensures (forall v :: v in Claims(AnyAddressKind, Dumped(a)) ==> v !in Claims(AnyAddressKind, Dumped(b))) <==> Apart(a, b)
    ensures NoDuplicates(Claims(AnyAddressKind, Dumped(a)))
  {
    hide Claims, Print, Dumped;
    PlannedClaims(a);
    PlannedClaims(b);
    var xs, ys := [Print(a.address)] + BmcText(a), [Print(b.address)] + BmcText(b);
    assert xs[0] in xs && ys[0] in ys;
    SamePrint(a.address, b.address);
    if a.bmc.Some? {
      assert xs[1] in xs;
      SamePrint(a.bmc.value, b.address);
      SamePrint(a.bmc.value, a.address);
    }
    if b.bmc.Some? {
      assert ys[1] in ys;
      SamePrint(a.address, b.bmc.value);
    }
    if a.bmc.Some? && b.bmc.Some? {
      SamePrint(a.bmc.value, b.bmc.value);
    }
  }

  lemma AddressesAreDistinct(nodes: seq<Node>)
    requires ArePlanned(nodes)
    ensures NoDuplicates(AllClaims(AnyAddressKind, DumpedAll(nodes))) <==>
      forall i, j :: 0 <= i < j < |nodes| ==> Apart(nodes[i], nodes[j])
  {
    hide Claims, AllClaims, Dumped, IsPlanned, Apart, NoDuplicates;
    var dumped := DumpedAll(nodes);
    DistinctIsPairwise(AnyAddressKind, dumped);
    forall i | 0 <= i < |nodes| ensures NoDuplicates(Claims(AnyAddressKind, dumped[i])) {
      ApartClaims(nodes[i], nodes[i]);
    }
    forall i, j | 0 <= i < j < |nodes|
      ensures (forall v :: v in Claims(AnyAddressKind, dumped[i]) ==> v !in Claims(AnyAddressKind, dumped[j]))
        <==> Apart(nodes[i], nodes[j])
    {
      ApartClaims(nodes[i], nodes[j]);
    }
  }

  lemma ApartIsNoClash(nodes: seq<Node>)
    requires ArePlanned(nodes)
    ensures NoClash(nodes) <==>
      && (forall i, j :: 0 <= i < j < |nodes| ==> nodes[i].mac != nodes[j].mac)
      && (forall i, j :: 0 <= i < j < |nodes| ==> Apart(nodes[i], nodes[j]))
  {
    if (forall i, j :: 0 <= i < j < |nodes| ==> nodes[i].mac != nodes[j].mac)
      && forall i, j :: 0 <= i < j < |nodes| ==> Apart(nodes[i], nodes[j])
    {
      forall i, j | 0 <= i < |nodes| && 0 <= j < |nodes| && nodes[i].bmc.Some?
        ensures nodes[i].bmc.value != nodes[j].address
      {
        if i < j {
          assert Apart(nodes[i], nodes[j]);
        } else if j < i {
          assert Apart(nodes[j], nodes[i]);
        } else {
          assert IsPlanned(nodes[i]);
        }
      }
    }
  }

  lemma PlannedListIsPlanned(r: Request, entries: seq<Entry>)
    ensures ArePlanned(PlanNodes(r, 1, entries))
  {
    hide PlanNodes, BuildNodeName, AddressOfNode, Stored, IsPlanned;
    var nodes := PlanNodes(r, 1, entries);
    forall i | 0 <= i < |nodes| ensures IsPlanned(nodes[i]) {
      OnePlanned(r, 1, entries, i);
    }
    forall i, j | 0 <= i < j < |nodes| ensures nodes[i].name != nodes[j].name && nodes[i].address != nodes[j].address {
      PlannedNodesDiffer(r, entries, i, j);
    }
  }

  lemma {:induction false} PlannedMac(r: Request, number: nat, entries: seq<Entry>, i: nat) returns (mac: string)
    requires number > 0 && i < |PlanNodes(r, number, entries)|
    ensures ValidateMAC(mac) && PlanNodes(r, number, entries)[i].mac == Stored(mac)
    decreases |entries|
  {
    hide ValidateMAC, Stored, BuildNodeName, AddressOfNode;
    if !Accepts(entries[0], AddressOfNode(r.start, number)) {
      mac := PlannedMac(r, number, entries[1..], i);
    } else if i > 0 {
      mac := PlannedMac(r, number + 1, entries[1..], i - 1);
    } else {
      mac := entries[0].mac;
    }
  }

  lemma OnePlanned(r: Request, number: nat, entries: seq<Entry>, i: nat)
    requires number > 0 && i < |PlanNodes(r, number, entries)|
    ensures IsPlanned(PlanNodes(r, number, entries)[i])
  {
    hide PlanNodes, BuildNodeName, AddressOfNode, ValidateMAC;
    PlannedNode(r, number, entries, i);
    NameIsNotEmpty(r.prefix, number + i, r.padding);
    var mac := PlannedMac(r, number, entries, i);
    StoredTwice(mac);
    ValidIsNotEmpty(mac);
  }

  lemma NameIsNotEmpty(prefix: string, index: nat, padding: nat)
    ensures BuildNodeName(prefix, index, padding) != ""
  {
    NodeNamesDiffer(prefix, index, index + 1, padding);
    PaddedValue(index, padding);
    assert |Padded(index, padding)| > 0;
  }

  lemma StoredTwice(mac: string)
    ensures Stored(Stored(mac)) == Stored(mac) && |Stored(mac)| == |mac|
  {
  }

  lemma ValidIsNotEmpty(mac: string)
    requires ValidateMAC(mac)
    ensures mac != ""
  {
  }

  /** The node loop never compares MACs or the BMC addresses of different nodes: what it plans passes the check exactly without such a clash. */
  lemma PlannedListPasses(r: Request, entries: seq<Entry>)
    ensures
      var nodes := PlanNodes(r, 1, entries);
      Distinct(DumpedAll(nodes)) <==> NoClash(nodes)
  {
    hide PlanNodes, DumpedAll, AllClaims, NoDuplicates, NoClash, ArePlanned, Apart;
    var nodes := PlanNodes(r, 1, entries);
    PlannedListIsPlanned(r, entries);
    NamesAreDistinct(nodes);
    MacsAreDistinct(nodes);
    AddressesAreDistinct(nodes);
    ApartIsNoClash(nodes);
  }

  /** The same MAC typed for two nodes is planned, and then refused by the check. */
  lemma SameMacTwice()
    ensures
      var nodes := PlanNodes(Request("n", 2, 1, 2), 1, [GOOD_ENTRY, GOOD_ENTRY]);
      |nodes| == 2 && !Distinct(DumpedAll(nodes))
  {
    var r, entries := Request("n", 2, 1, 2), [GOOD_ENTRY, GOOD_ENTRY];
    hide Accepts, DumpedAll, Distinct, Stored, BuildNodeName;
    GoodEntry(AddressOfNode(r.start, 1));
    GoodEntry(AddressOfNode(r.start, 2));
    assert entries[1..] == [GOOD_ENTRY] && entries[1..][1..] == [];
    assert PlanNodes(r, 3, []) == [];
    assert PlanNodes(r, 2, [GOOD_ENTRY]) == [NodeFor(r, 2, GOOD_ENTRY)] + PlanNodes(r, 3, []);
    assert PlanNodes(r, 1, entries) == [NodeFor(r, 1, GOOD_ENTRY)] + PlanNodes(r, 2, [GOOD_ENTRY]);
    PlannedListPasses(r, entries);
    assert PlanNodes(r, 1, entries)[0].mac == PlanNodes(r, 1, entries)[1].mac;
  }
}
