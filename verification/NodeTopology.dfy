/** The uniqueness check over a whole node inventory. */
module NodeTopology {
  import opened Ipv4Text
  import opened MacAddresses
  import opened NodeInventory
  import opened Text
  import opened Wrappers

  /** Earlier nodes only. */
  ghost predicate OwnersBelow(seen: Seen, n: nat) {
    forall v :: v in seen ==> seen[v] < n
  }

  /** What is known once the first n nodes were entered. */
  ghost predicate Entered(
    hostnames: Seen, macs: Seen, nodeAddresses: Seen, bmcAddresses: Seen, all: Seen, nodes: seq<AFNode>, n: nat)
    requires n <= |nodes|
  {
    && Remembers(hostnames, HostnameKind, AllClaims(HostnameKind, nodes[..n]), nodes) && OwnersBelow(hostnames, n)
    && Remembers(macs, MacKind, AllClaims(MacKind, nodes[..n]), nodes) && OwnersBelow(macs, n)
    && Remembers(nodeAddresses, NodeAddressKind, AllClaims(NodeAddressKind, nodes[..n]), nodes) && OwnersBelow(nodeAddresses, n)
    && Remembers(bmcAddresses, BmcAddressKind, AllClaims(BmcAddressKind, nodes[..n]), nodes) && OwnersBelow(bmcAddresses, n)
    && Remembers(all, AnyAddressKind, AllClaims(AnyAddressKind, nodes[..n]), nodes) && OwnersBelow(all, n)
    && (forall v :: v in nodeAddresses ==> v in all)
    && (forall v :: v in bmcAddresses ==> v in all)
  }

  lemma RepeatedClaim(kind: Kind, nodes: seq<AFNode>, i: nat, part: seq<string>)
    requires i < |nodes| && part <= Claims(kind, nodes[i])
    requires !NoDuplicates(AllClaims(kind, nodes[..i]) + part)
    ensures !NoDuplicates(AllClaims(kind, nodes))
  {
    hide AllClaims, Claims, NoDuplicates;
    NextClaims(kind, nodes, i);
    ClaimsArePrefix(kind, nodes, i + 1);
    PrefixWithDuplicates(AllClaims(kind, nodes[..i]) + part, AllClaims(kind, nodes));
  }

  /** Enter one address of a node twice: among its own kind, and among all addresses. */
  method EnterAddress(
    own: Seen, all: Seen, kind: Kind, value: string, nodes: seq<AFNode>, i: nat, ghost part: seq<string>)
    returns (r: Result<(Seen, Seen), Duplicate>)
    requires i < |nodes| && (kind.NodeAddressKind? || kind.BmcAddressKind?)
    requires Claims(kind, nodes[i]) == NonEmpty(value)
    requires part + NonEmpty(value) <= Claims(AnyAddressKind, nodes[i]) && |part| <= 1
    requires Remembers(own, kind, AllClaims(kind, nodes[..i]), nodes) && OwnersBelow(own, i)
    requires forall v :: v in own ==> v in all && all[v] < i
    requires Remembers(all, AnyAddressKind, AllClaims(AnyAddressKind, nodes[..i]) + part, nodes)
    requires forall v :: v in all ==> all[v] < i || (all[v] == i && [v] == part)
    ensures r.Success? ==>
      && Remembers(r.value.0, kind, AllClaims(kind, nodes[..i]) + NonEmpty(value), nodes)
      && Remembers(r.value.1, AnyAddressKind, AllClaims(AnyAddressKind, nodes[..i]) + part + NonEmpty(value), nodes)
      && r.value.0 == (if value == "" then own else own[value := i])
      && r.value.1 == (if value == "" then all else all[value := i])
      && (value != "" ==> value !in all)
    ensures r.Failure? ==> IsDuplicate(r.error, nodes) && !NoDuplicates(AllClaims(AnyAddressKind, nodes))
  {
    hide AllClaims, Claims, NoDuplicates, Remembers, IsDuplicate;
    if value != "" && value in own {
      Collision(own, all, kind, value, nodes, i, part);
    } else if value != "" && value in all {
      CollisionInAll(all, value, nodes, i, part);
    }
    assert NonEmpty(value) == if value == "" then [] else [value];
    InAnyClaims(nodes, i, value, part);
    var mine := RememberUnique(own, kind, value, AllClaims(kind, nodes[..i]), nodes, i);
    if mine.Failure? {
      return Failure(mine.error);
    }
    var every := RememberUnique(all, AnyAddressKind, value, AllClaims(AnyAddressKind, nodes[..i]) + part, nodes, i);
    if every.Failure? {
      return Failure(every.error);
    }
    return Success((mine.value, every.value));
  }

  lemma InAnyClaims(nodes: seq<AFNode>, i: nat, value: string, part: seq<string>)
    requires i < |nodes| && part + NonEmpty(value) <= Claims(AnyAddressKind, nodes[i])
    ensures value != "" ==> value in Claims(AnyAddressKind, nodes[i])
  {
    if value != "" {
      assert (part + [value])[|part|] == Claims(AnyAddressKind, nodes[i])[|part|];
    }
  }

  /** A value that is already claimed as some address is a duplicate. */
  lemma CollisionInAll(all: Seen, value: string, nodes: seq<AFNode>, i: nat, part: seq<string>)
    requires i < |nodes| && value != "" && value in all
    requires part + NonEmpty(value) <= Claims(AnyAddressKind, nodes[i]) && |part| <= 1
    requires Remembers(all, AnyAddressKind, AllClaims(AnyAddressKind, nodes[..i]) + part, nodes)
    requires all[value] < i || (all[value] == i && [value] == part)
    ensures IsDuplicate(Duplicate(AnyAddressKind, value, all[value], i), nodes)
    ensures !NoDuplicates(AllClaims(AnyAddressKind, nodes))
  {
    hide AllClaims, Claims;
    var before, claims := AllClaims(AnyAddressKind, nodes[..i]) + part, Claims(AnyAddressKind, nodes[i]);
    var k :| 0 <= k < |before| && before[k] == value;
    var longer := AllClaims(AnyAddressKind, nodes[..i]) + (part + [value]);
    assert longer == before + [value] && longer[k] == longer[|longer| - 1];
    RepeatedClaim(AnyAddressKind, nodes, i, part + [value]);
    assert (part + [value])[|part|] == claims[|part|] == value;
    if all[value] == i {
      assert (part + [value])[0] == claims[0] == value;
    }
  }

  lemma Collision(own: Seen, all: Seen, kind: Kind, value: string, nodes: seq<AFNode>, i: nat, part: seq<string>)
    requires i < |nodes| && value != "" && value in own && value in all && all[value] < i
    requires Claims(kind, nodes[i]) == NonEmpty(value)
    requires part + NonEmpty(value) <= Claims(AnyAddressKind, nodes[i]) && |part| <= 1
    requires Remembers(own, kind, AllClaims(kind, nodes[..i]), nodes) && OwnersBelow(own, i)
    requires Remembers(all, AnyAddressKind, AllClaims(AnyAddressKind, nodes[..i]) + part, nodes)
    ensures IsDuplicate(Duplicate(kind, value, own[value], i), nodes)
    ensures !NoDuplicates(AllClaims(AnyAddressKind, nodes))
  {
    hide AllClaims, Claims;
    CollisionInAll(all, value, nodes, i, part);
  }

  method EnterAddresses(nodeAddresses: Seen, bmcAddresses: Seen, all: Seen, nodes: seq<AFNode>, i: nat)
    returns (r: Result<(Seen, Seen, Seen), Duplicate>)
    requires i < |nodes|
    requires Remembers(nodeAddresses, NodeAddressKind, AllClaims(NodeAddressKind, nodes[..i]), nodes) && OwnersBelow(nodeAddresses, i)
    requires Remembers(bmcAddresses, BmcAddressKind, AllClaims(BmcAddressKind, nodes[..i]), nodes) && OwnersBelow(bmcAddresses, i)
    requires Remembers(all, AnyAddressKind, AllClaims(AnyAddressKind, nodes[..i]), nodes) && OwnersBelow(all, i)
    requires (forall v :: v in nodeAddresses ==> v in all) && (forall v :: v in bmcAddresses ==> v in all)
    ensures r.Success? ==>
      var (nodeAddresses', bmcAddresses', all') := r.value;
      && Remembers(nodeAddresses', NodeAddressKind, AllClaims(NodeAddressKind, nodes[..i + 1]), nodes)
      && Remembers(bmcAddresses', BmcAddressKind, AllClaims(BmcAddressKind, nodes[..i + 1]), nodes)
      && Remembers(all', AnyAddressKind, AllClaims(AnyAddressKind, nodes[..i + 1]), nodes)
      && OwnersBelow(nodeAddresses', i + 1) && OwnersBelow(bmcAddresses', i + 1) && OwnersBelow(all', i + 1)
      && (forall v :: v in nodeAddresses' ==> v in all') && (forall v :: v in bmcAddresses' ==> v in all')
    ensures r.Failure? ==> IsDuplicate(r.error, nodes) && !NoDuplicates(AllClaims(AnyAddressKind, nodes))
  {
    hide AllClaims, NoDuplicates, Remembers, IsDuplicate, Claims, TextOf, NodeAddressText, NonEmpty;
    NextClaims(NodeAddressKind, nodes, i);
    NextClaims(BmcAddressKind, nodes, i);
    NextClaims(AnyAddressKind, nodes, i);
    var node := nodes[i];
    var address := if NodeAddressText(node) == [] then "" else NodeAddressText(node)[0];
    var bmc := TextOf(node, BmcAddress);
    AddressClaims(node, address, bmc);
    ghost var before := AllClaims(AnyAddressKind, nodes[..i]);
    assert before + [] == before;
    assert [] + NonEmpty(address) <= Claims(AnyAddressKind, node);
    var first := EnterAddress(nodeAddresses, all, NodeAddressKind, address, nodes, i, []);
    if first.Failure? {
      return Failure(first.error);
    }
    assert before + [] + NonEmpty(address) == before + NonEmpty(address);
    var second := EnterAddress(bmcAddresses, first.value.1, BmcAddressKind, bmc, nodes, i, NonEmpty(address));
    if second.Failure? {
      return Failure(second.error);
    }
    assert before + NonEmpty(address) + NonEmpty(bmc) == AllClaims(AnyAddressKind, nodes[..i + 1]);
    return Success((first.value.0, second.value.0, second.value.1));
  }

  lemma AddressClaims(node: AFNode, address: string, bmc: string)
    requires address == (if NodeAddressText(node) == [] then "" else NodeAddressText(node)[0]) && bmc == TextOf(node, BmcAddress)
    ensures Claims(NodeAddressKind, node) == NonEmpty(address) && Claims(BmcAddressKind, node) == NonEmpty(bmc)
    ensures Claims(AnyAddressKind, node) == NonEmpty(address) + NonEmpty(bmc)
    ensures NonEmpty(address) == if address == "" then [] else [address]
  {
    hide Print;
    PrintedIsNotEmpty(node);
  }

  lemma PrintedIsNotEmpty(node: AFNode)
    ensures NodeAddressText(node) == [] || NodeAddressText(node)[0] != ""
  {
    if NodeAddressText(node) != [] {
      PrintReadsBack(node.startIp.value);
    }
  }

  /** The check passes exactly the inventories with distinct claims, and otherwise names a duplicate. */
  method ValidateNodeInventoryTopology(nodes: seq<AFNode>) returns (r: Option<Duplicate>)
    ensures r.None? <==> Distinct(nodes)
    ensures r.Some? ==> IsDuplicate(r.value, nodes)
  {
    hide AllClaims, Remembers, NoDuplicates, IsDuplicate;
    var hostnames: Seen, macs: Seen, nodeAddresses: Seen, bmcAddresses: Seen, all: Seen := map[], map[], map[], map[], map[];
    var i := 0;
    NothingEntered(nodes);
    while i < |nodes|
      invariant 0 <= i <= |nodes|
      invariant Entered(hostnames, macs, nodeAddresses, bmcAddresses, all, nodes, i)
    {
      var host := EnterOne(hostnames, HostnameKind, TextOf(nodes[i], Hostname), nodes, i);
      if host.Failure? {
        return Some(host.error);
      }
      var mac := EnterOne(macs, MacKind, Lower(TextOf(nodes[i], MacAddress)), nodes, i);
      if mac.Failure? {
        return Some(mac.error);
      }
      var addresses := EnterAddresses(nodeAddresses, bmcAddresses, all, nodes, i);
      if addresses.Failure? {
        return Some(addresses.error);
      }
      hostnames, macs := host.value, mac.value;
      nodeAddresses, bmcAddresses, all := addresses.value.0, addresses.value.1, addresses.value.2;
      i := i + 1;
    }
    assert nodes[..i] == nodes;
    AllEnteredIsDistinct(hostnames, macs, all, nodes);
    r := None;
  }

  lemma NothingEntered(nodes: seq<AFNode>)
    ensures Entered(map[], map[], map[], map[], map[], nodes, 0)
  {
  }

  lemma AllEnteredIsDistinct(hostnames: Seen, macs: Seen, all: Seen, nodes: seq<AFNode>)
    requires Remembers(hostnames, HostnameKind, AllClaims(HostnameKind, nodes), nodes)
    requires Remembers(macs, MacKind, AllClaims(MacKind, nodes), nodes)
    requires Remembers(all, AnyAddressKind, AllClaims(AnyAddressKind, nodes), nodes)
    ensures Distinct(nodes)
  {
  }

  method EnterOne(seen: Seen, kind: Kind, value: string, nodes: seq<AFNode>, i: nat) returns (r: Result<Seen, Duplicate>)
    requires i < |nodes| && (kind.HostnameKind? || kind.MacKind?)
    requires Claims(kind, nodes[i]) == NonEmpty(value)
    requires Remembers(seen, kind, AllClaims(kind, nodes[..i]), nodes) && OwnersBelow(seen, i)
    ensures r.Success? ==>
      Remembers(r.value, kind, AllClaims(kind, nodes[..i + 1]), nodes) && OwnersBelow(r.value, i + 1)
    ensures r.Failure? ==> IsDuplicate(r.error, nodes) && !NoDuplicates(AllClaims(kind, nodes))
  {
    NextClaims(kind, nodes, i);
    r := RememberUnique(seen, kind, value, AllClaims(kind, nodes[..i]), nodes, i);
    if r.Failure? {
      RepeatedClaim(kind, nodes, i, NonEmpty(value));
    }
  }

  // ----- what distinct claims mean, pair by pair

  ghost predicate PairwiseDistinct(kind: Kind, nodes: seq<AFNode>) {
    && (forall i :: 0 <= i < |nodes| ==> NoDuplicates(Claims(kind, nodes[i])))
    && (forall i, j, v :: 0 <= i < j < |nodes| && v in Claims(kind, nodes[i]) ==> v !in Claims(kind, nodes[j]))
  }

  lemma DistinctConcat(a: seq<string>, b: seq<string>)
    ensures NoDuplicates(a + b) <==> NoDuplicates(a) && NoDuplicates(b) && forall v :: v in a ==> v !in b
  {
    var c := a + b;
    if NoDuplicates(c) {
      forall i, j | 0 <= i < j < |a| ensures a[i] != a[j] {
        assert c[i] != c[j];
      }
      forall i, j | 0 <= i < j < |b| ensures b[i] != b[j] {
        assert c[|a| + i] != c[|a| + j];
      }
      forall i, j | 0 <= i < |a| && 0 <= j < |b| ensures a[i] != b[j] {
        assert c[i] != c[|a| + j];
      }
    } else if NoDuplicates(a) && NoDuplicates(b) && forall v :: v in a ==> v !in b {
      forall i, j | 0 <= i < j < |c| ensures c[i] != c[j] {
        if i < |a| <= j {
          assert c[i] in a && c[j] in b;
        }
      }
    }
  }

  lemma {:induction false} ClaimedBySome(kind: Kind, nodes: seq<AFNode>, v: string)
    ensures v in AllClaims(kind, nodes) <==> exists i :: 0 <= i < |nodes| && v in Claims(kind, nodes[i])
  {
    hide Claims;
    if nodes != [] {
      var last := |nodes| - 1;
      ClaimedBySome(kind, nodes[..last], v);
      if v in Claims(kind, nodes[last]) {
      } else if exists i :: 0 <= i < |nodes| && v in Claims(kind, nodes[i]) {
        var i :| 0 <= i < |nodes| && v in Claims(kind, nodes[i]);
        assert nodes[..last][i] == nodes[i];
      }
    }
  }

  /** One more node keeps claims apart if its own are, and none of the others has one of them. */
  lemma PairwiseOneMore(kind: Kind, nodes: seq<AFNode>)
    requires nodes != []
    ensures
      var last := |nodes| - 1;
      PairwiseDistinct(kind, nodes) <==>
        && PairwiseDistinct(kind, nodes[..last]) && NoDuplicates(Claims(kind, nodes[last]))
        && forall v :: v in AllClaims(kind, nodes[..last]) ==> v !in Claims(kind, nodes[last])
  {
    hide Claims, AllClaims, NoDuplicates;
    var last := |nodes| - 1;
    var init := nodes[..last];
    forall v ensures v in AllClaims(kind, init) <==> exists i :: 0 <= i < last && v in Claims(kind, init[i]) {
      ClaimedBySome(kind, init, v);
    }
    assert forall i :: 0 <= i < last ==> init[i] == nodes[i];
    if PairwiseDistinct(kind, nodes) {
      forall i | 0 <= i < last ensures NoDuplicates(Claims(kind, init[i])) {
        assert init[i] == nodes[i];
      }
    }
  }

  /** No value is claimed by two nodes, or twice by one. */
  lemma {:induction false} DistinctIsPairwise(kind: Kind, nodes: seq<AFNode>)
    ensures NoDuplicates(AllClaims(kind, nodes)) <==> PairwiseDistinct(kind, nodes)
  {
    if nodes != [] {
      hide Claims, NoDuplicates, PairwiseDistinct;
      var last := |nodes| - 1;
      DistinctIsPairwise(kind, nodes[..last]);
      DistinctConcat(AllClaims(kind, nodes[..last]), Claims(kind, nodes[last]));
      PairwiseOneMore(kind, nodes);
    }
  }

  function MacOf(node: AFNode): string {
    TextOf(node, MacAddress)
  }

  /** Every MAC passes the validation that comes before storing it. */
  predicate MacsAreValid(nodes: seq<AFNode>) {
    forall i :: 0 <= i < |nodes| ==> ValidateMAC(MacOf(nodes[i]))
  }

  lemma ClaimedMac(node: AFNode)
    requires ValidateMAC(MacOf(node))
    ensures Claims(MacKind, node) == [Stored(MacOf(node))]
  {
  }

  /** The uniqueness of MACs is exactly the uniqueness of what is stored. */
  lemma StoredMacs(nodes: seq<AFNode>)
    requires MacsAreValid(nodes)
    ensures NoDuplicates(AllClaims(MacKind, nodes)) <==>
      forall i, j :: 0 <= i < j < |nodes| ==> Stored(MacOf(nodes[i])) != Stored(MacOf(nodes[j]))
  {
    hide AllClaims, Claims, MacOf, ValidateMAC;
    DistinctIsPairwise(MacKind, nodes);
    forall i | 0 <= i < |nodes| ensures Claims(MacKind, nodes[i]) == [Stored(MacOf(nodes[i]))] {
      ClaimedMac(nodes[i]);
    }
    if NoDuplicates(AllClaims(MacKind, nodes)) {
      forall i, j | 0 <= i < j < |nodes| ensures Stored(MacOf(nodes[i])) != Stored(MacOf(nodes[j])) {
        assert Stored(MacOf(nodes[i])) in Claims(MacKind, nodes[i]);
      }
    }
  }

  /** It is not the uniqueness of hardware addresses: the same one may be there in two notations. */
  lemma HardwareAddresses(nodes: seq<AFNode>)
    requires MacsAreValid(nodes)
    ensures NoDuplicates(AllClaims(MacKind, nodes)) <==>
      forall i, j :: 0 <= i < j < |nodes| && HardwareAddress(MacOf(nodes[i])) == HardwareAddress(MacOf(nodes[j])) ==>
        Notation(MacOf(nodes[i])) != Notation(MacOf(nodes[j]))
  {
    hide AllClaims, MacOf, ValidateMAC, HardwareAddress, Notation, Stored;
    StoredMacs(nodes);
    forall i, j | 0 <= i < j < |nodes|
      ensures Stored(MacOf(nodes[i])) == Stored(MacOf(nodes[j])) <==>
        && HardwareAddress(MacOf(nodes[i])) == HardwareAddress(MacOf(nodes[j]))
        && Notation(MacOf(nodes[i])) == Notation(MacOf(nodes[j]))
    {
      StoredIsAddressAndNotation(MacOf(nodes[i]), MacOf(nodes[j]));
    }
  }

  // ----- what the check accepts, field by field

  /** The same value twice; an empty text is none. */
  predicate Same(a: string, b: string) {
    a != "" && a == b
  }

  predicate IsAddressOf(node: AFNode, text: string) {
    node.startIp.Some? && node.startIp.value != 0 && text == Print(node.startIp.value)
  }

  /** Two nodes with one host name, one MAC but for the case of its letters, or one address. */
  predicate Clash(a: AFNode, b: AFNode) {
    || Same(TextOf(a, Hostname), TextOf(b, Hostname))
    || Same(Lower(TextOf(a, MacAddress)), Lower(TextOf(b, MacAddress)))
    || (a.startIp.Some? && a.startIp.value != 0 && a.startIp == b.startIp)
    || Same(TextOf(a, BmcAddress), TextOf(b, BmcAddress))
    || IsAddressOf(a, TextOf(b, BmcAddress))
    || IsAddressOf(b, TextOf(a, BmcAddress))
  }

  ghost predicate Disjoint(kind: Kind, a: AFNode, b: AFNode) {
    forall v :: v in Claims(kind, a) ==> v !in Claims(kind, b)
  }

  lemma DisjointClaims(kind: Kind, a: AFNode, b: AFNode, x: string, y: string)
    requires Claims(kind, a) == NonEmpty(x) && Claims(kind, b) == NonEmpty(y)
    ensures Disjoint(kind, a, b) <==> !Same(x, y)
  {
    hide Claims;
    assert Same(x, y) ==> x in Claims(kind, a) && x in Claims(kind, b);
  }

  lemma AddressesOf(node: AFNode, v: string)
    ensures v in Claims(AnyAddressKind, node) <==>
      IsAddressOf(node, v) || (v != "" && v == TextOf(node, BmcAddress))
  {
    hide Print;
  }

  lemma SameAddress(a: AFNode, b: AFNode, v: string)
    requires IsAddressOf(a, v)
    ensures IsAddressOf(b, v) <==> a.startIp == b.startIp
    ensures v != ""
  {
    hide Print, Parse;
    PrintReadsBack(a.startIp.value);
    if b.startIp.Some? {
      PrintReadsBack(b.startIp.value);
    }
  }

  lemma DisjointAddresses(a: AFNode, b: AFNode)
    ensures Disjoint(AnyAddressKind, a, b) <==>
      && !(a.startIp.Some? && a.startIp.value != 0 && a.startIp == b.startIp)
      && !Same(TextOf(a, BmcAddress), TextOf(b, BmcAddress))
      && !IsAddressOf(a, TextOf(b, BmcAddress)) && !IsAddressOf(b, TextOf(a, BmcAddress))
  {
    hide Print, Claims, TextOf;
    var x, y := TextOf(a, BmcAddress), TextOf(b, BmcAddress);
    forall v
      ensures v in Claims(AnyAddressKind, a) <==> IsAddressOf(a, v) || (v != "" && v == x)
      ensures v in Claims(AnyAddressKind, b) <==> IsAddressOf(b, v) || (v != "" && v == y)
      ensures IsAddressOf(a, v) ==> v != "" && (IsAddressOf(b, v) <==> a.startIp == b.startIp)
      ensures IsAddressOf(b, v) ==> v != ""
    {
      AddressesOf(a, v);
      AddressesOf(b, v);
      if IsAddressOf(a, v) {
        SameAddress(a, b, v);
      }
      if IsAddressOf(b, v) {
        SameAddress(b, a, v);
      }
    }
    if a.startIp.Some? && a.startIp.value != 0 && a.startIp == b.startIp {
      assert IsAddressOf(a, Print(a.startIp.value)) && Print(a.startIp.value) in Claims(AnyAddressKind, b);
    }
    assert IsAddressOf(a, y) ==> y in Claims(AnyAddressKind, a) && y in Claims(AnyAddressKind, b);
    assert IsAddressOf(b, x) ==> x in Claims(AnyAddressKind, a) && x in Claims(AnyAddressKind, b);
    assert Same(x, y) ==> x in Claims(AnyAddressKind, a) && x in Claims(AnyAddressKind, b);
  }

  lemma ClashIsSharedClaim(a: AFNode, b: AFNode)
    ensures Clash(a, b) <==>
      !(Disjoint(HostnameKind, a, b) && Disjoint(MacKind, a, b) && Disjoint(AnyAddressKind, a, b))
  {
    hide Same, NonEmpty, IsAddressOf, TextOf, Lower, NodeAddressText;
    DisjointClaims(HostnameKind, a, b, TextOf(a, Hostname), TextOf(b, Hostname));
    DisjointClaims(MacKind, a, b, Lower(TextOf(a, MacAddress)), Lower(TextOf(b, MacAddress)));
    DisjointAddresses(a, b);
  }

  lemma OwnClaims(node: AFNode)
    ensures NoDuplicates(Claims(HostnameKind, node)) && NoDuplicates(Claims(MacKind, node))
    ensures NoDuplicates(Claims(AnyAddressKind, node)) <==> !IsAddressOf(node, TextOf(node, BmcAddress))
  {
    hide Print, Parse, TextOf;
    if node.startIp.Some? {
      PrintReadsBack(node.startIp.value);
    }
    if IsAddressOf(node, TextOf(node, BmcAddress)) {
      var claims := Claims(AnyAddressKind, node);
      assert claims[0] == claims[1];
    }
  }

  /** Accepted are exactly the inventories where no two nodes clash and no BMC sits at its own node's address. */
  lemma DistinctInPlainTerms(nodes: seq<AFNode>)
    ensures Distinct(nodes) <==>
      && (forall i, j :: 0 <= i < j < |nodes| ==> !Clash(nodes[i], nodes[j]))
      && (forall i :: 0 <= i < |nodes| ==> !IsAddressOf(nodes[i], TextOf(nodes[i], BmcAddress)))
  {
    hide Clash, Claims, AllClaims, NoDuplicates, IsAddressOf, TextOf;
    DistinctIsPairwise(HostnameKind, nodes);
    DistinctIsPairwise(MacKind, nodes);
    DistinctIsPairwise(AnyAddressKind, nodes);
    forall i | 0 <= i < |nodes|
      ensures NoDuplicates(Claims(HostnameKind, nodes[i])) && NoDuplicates(Claims(MacKind, nodes[i]))
      ensures NoDuplicates(Claims(AnyAddressKind, nodes[i])) <==> !IsAddressOf(nodes[i], TextOf(nodes[i], BmcAddress))
    {
      OwnClaims(nodes[i]);
    }
    forall i, j | 0 <= i < j < |nodes|
      ensures Clash(nodes[i], nodes[j]) <==>
        !(Disjoint(HostnameKind, nodes[i], nodes[j]) && Disjoint(MacKind, nodes[i], nodes[j])
          && Disjoint(AnyAddressKind, nodes[i], nodes[j]))
    {
      ClashIsSharedClaim(nodes[i], nodes[j]);
    }
    PairwiseByNode(HostnameKind, nodes);
    PairwiseByNode(MacKind, nodes);
    PairwiseByNode(AnyAddressKind, nodes);
  }

  lemma PairwiseByNode(kind: Kind, nodes: seq<AFNode>)
    ensures PairwiseDistinct(kind, nodes) <==>
      && (forall i :: 0 <= i < |nodes| ==> NoDuplicates(Claims(kind, nodes[i])))
      && (forall i, j :: 0 <= i < j < |nodes| ==> Disjoint(kind, nodes[i], nodes[j]))
  {
    hide Claims, NoDuplicates;
  }
}
