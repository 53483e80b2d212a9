/** Choosing an interface for each network: which ones may share it, and what every run of choices keeps. */
module NetworkCreation {
  import opened Wrappers

  datatype Profile = External | Management | Service | Application

  datatype Kind = Ethernet | Infiniband

  datatype NetworkData = NetworkData(profile: Profile, kind: Kind, interface: string, address: string)

  datatype Error = NoUsableInterfaces | Insufficient

  predicate IsInfiniband(interface: string) {
    "ib" <= interface
  }

  predicate MatchesKind(interface: string, kind: Kind) {
    IsInfiniband(interface) <==> kind.Infiniband?
  }

  predicate CanShareInterface(existing: Profile, requested: Profile) {
    || (existing.Management? && requested.Service?)
    || (existing.Service? && requested.Management?)
  }

  // ----- what a list of networks must satisfy

  predicate HasProfile(networks: seq<NetworkData>, profile: Profile) {
    exists n :: n in networks && n.profile == profile
  }

  /** Every profile at most once, and an interface under two networks only if they are Management and Service. */
  ghost predicate Sound(networks: seq<NetworkData>) {
    forall i, j :: 0 <= i < j < |networks| ==>
      && networks[i].profile != networks[j].profile
      && (networks[i].interface == networks[j].interface ==>
            {networks[i].profile, networks[j].profile} == {Management, Service})
  }

  lemma SharersAsPair(p: Profile, q: Profile)
    ensures CanShareInterface(p, q) <==> {p, q} == {Management, Service}
  {
    if {p, q} == {Management, Service} {
      var pair := {p, q};
      assert p in pair && q in pair && Management in pair && Service in pair;
    }
  }

  predicate CanUse(networks: seq<NetworkData>, interface: string, requested: Profile) {
    forall n :: n in networks && n.interface == interface ==> CanShareInterface(n.profile, requested)
  }

  /** The check on an interface is exact: for a new profile it passes just when adding the network does no harm. */
  lemma CanUseIsExact(networks: seq<NetworkData>, data: NetworkData)
    requires Sound(networks) && !HasProfile(networks, data.profile)
    ensures CanUse(networks, data.interface, data.profile) <==> Sound(networks + [data])
  {
    var longer := networks + [data];
    if CanUse(networks, data.interface, data.profile) {
      forall i, j | 0 <= i < j < |longer|
        ensures longer[i].profile != longer[j].profile
        ensures longer[i].interface == longer[j].interface ==>
                  {longer[i].profile, longer[j].profile} == {Management, Service}
      {
        assert longer[i] in networks;
        SharersAsPair(longer[i].profile, longer[j].profile);
      }
    } else {
      var n :| n in networks && n.interface == data.interface && !CanShareInterface(n.profile, data.profile);
      var i :| 0 <= i < |networks| && networks[i] == n;
      assert longer[i] == n && longer[|networks|] == data;
      SharersAsPair(n.profile, data.profile);
    }
  }

  // ----- one request: the interfaces of the host, the operator's choice, the rest of the answers

  datatype Request = Request(profile: Profile, kind: Kind, host: seq<string>, pick: seq<string> -> string, address: string)

  ghost predicate PicksFromList(pick: seq<string> -> string) {
    forall list :: list != [] ==> pick(list) in list
  }

  predicate Usable(networks: seq<NetworkData>, interface: string, profile: Profile, kind: Kind) {
    MatchesKind(interface, kind) && CanUse(networks, interface, profile)
  }

  function PossibleInterfaces(networks: seq<NetworkData>, host: seq<string>, profile: Profile, kind: Kind): (list: seq<string>)
    ensures forall interface :: interface in list <==> interface in host && Usable(networks, interface, profile, kind)
    ensures |list| <= |host|
  {
    if host == [] then []
    else
      var rest := PossibleInterfaces(networks, host[1..], profile, kind);
      if Usable(networks, host[0], profile, kind) then [host[0]] + rest else rest
  }

  /** What one request leads to: a fatal error, an error, or the networks after it. */
  function Configured(networks: seq<NetworkData>, r: Request): Result<seq<NetworkData>, Error> {
    var list := PossibleInterfaces(networks, r.host, r.profile, r.kind);
    if list == [] then Failure(NoUsableInterfaces)
    else if |list| + |networks| < 2 then Failure(Insufficient)
    else
      var data := NetworkData(r.profile, r.kind, r.pick(list), r.address);
      Success(if HasProfile(networks, r.profile) then networks else networks + [data])
  }

  /** The first network of a kind. */
  ghost predicate IsFirst(networks: seq<NetworkData>, found: NetworkData, matches: NetworkData -> bool) {
    exists i :: 0 <= i < |networks| && networks[i] == found && matches(found)
      && forall k :: 0 <= k < i ==> !matches(networks[k])
  }

  class NetworkCreator {
    var networks: seq<NetworkData>

    constructor ()
      ensures networks == []
    {
      networks := [];
    }

    method CheckIfProfileExists(profile: Profile) returns (exists_: bool)
      ensures exists_ == HasProfile(networks, profile)
    {
      for i := 0 to |networks|
        invariant !HasProfile(networks[..i], profile)
      {
        if networks[i].profile == profile {
          return true;
        }
        assert networks[..i + 1] == networks[..i] + [networks[i]];
      }
      assert networks[..|networks|] == networks;
      return false;
    }

    method AddNetworkInformation(data: NetworkData) returns (added: bool)
      modifies this
      ensures added == !old(HasProfile(networks, data.profile))
      ensures networks == old(networks) + if added then [data] else []
    {
      var found := CheckIfProfileExists(data.profile);
      if found {
        return false;
      }
      networks := networks + [data];
      return true;
    }

    method CanUseInterface(interface: string, requested: Profile) returns (ok: bool)
      ensures ok == CanUse(networks, interface, requested)
    {
      for i := 0 to |networks|
        invariant CanUse(networks[..i], interface, requested)
      {
        assert networks[..i + 1] == networks[..i] + [networks[i]];
        if networks[i].interface == interface && !CanShareInterface(networks[i].profile, requested) {
          return false;
        }
      }
      assert networks[..|networks|] == networks;
      return true;
    }

    /** The first network on an interface. */
    method FindByInterface(interface: string) returns (found: Option<NetworkData>)
      ensures found.None? ==> forall n :: n in networks ==> n.interface != interface
      ensures found.Some? ==> IsFirst(networks, found.value, (n: NetworkData) => n.interface == interface)
      ensures found.Some? && Sound(networks) ==>
                forall n :: n in networks && n.interface == interface && n != found.value ==>
                              CanShareInterface(n.profile, found.value.profile)
    {
      for i := 0 to |networks|
        invariant forall n :: n in networks[..i] ==> n.interface != interface
        invariant forall k :: 0 <= k < i ==> networks[k].interface != interface
      {
        if networks[i].interface == interface {
          if Sound(networks) {
            SharersArePartners(networks, networks[i]);
          }
          return Some(networks[i]);
        }
        assert networks[..i + 1] == networks[..i] + [networks[i]];
      }
      assert networks[..|networks|] == networks;
      return None;
    }

    method FindByProfile(profile: Profile) returns (found: Option<NetworkData>)
      ensures found.Some? <==> HasProfile(networks, profile)
      ensures found.Some? ==> IsFirst(networks, found.value, (n: NetworkData) => n.profile == profile)
      ensures found.Some? && Sound(networks) ==>
                forall n :: n in networks && n.profile == profile ==> n == found.value
    {
      for i := 0 to |networks|
        invariant !HasProfile(networks[..i], profile)
        invariant forall k :: 0 <= k < i ==> networks[k].profile != profile
      {
        if networks[i].profile == profile {
          return Some(networks[i]);
        }
        assert networks[..i + 1] == networks[..i] + [networks[i]];
      }
      assert networks[..|networks|] == networks;
      return None;
    }
  }

  lemma SharersArePartners(networks: seq<NetworkData>, n: NetworkData)
    requires Sound(networks) && n in networks
    ensures forall m :: m in networks && m.interface == n.interface && m != n ==> CanShareInterface(m.profile, n.profile)
  {
    forall m | m in networks && m.interface == n.interface && m != n
      ensures CanShareInterface(m.profile, n.profile)
    {
      var i :| 0 <= i < |networks| && networks[i] == n;
      var j :| 0 <= j < |networks| && networks[j] == m;
      if i < j {
        PairsArePartners(networks, i, j);
      } else {
        PairsArePartners(networks, j, i);
      }
    }
  }

  /**
   * What is offered: an interface of the host whose name begins with "ib" exactly when InfiniBand is asked for,
   * and which carries no network but the other one of Management and Service.
   */
  ghost predicate IsOffered(networks: seq<NetworkData>, host: seq<string>, profile: Profile, kind: Kind, interface: string) {
    && interface in host
    && (kind == Infiniband <==> |interface| >= 2 && interface[0] == 'i' && interface[1] == 'b')
    && forall n :: n in networks && n.interface == interface ==>
         (n.profile == Management && profile == Service) || (n.profile == Service && profile == Management)
  }

  lemma OfferedInPlainTerms(networks: seq<NetworkData>, host: seq<string>, profile: Profile, kind: Kind)
    ensures forall interface ::
      interface in PossibleInterfaces(networks, host, profile, kind) <==> IsOffered(networks, host, profile, kind, interface)
  {
    forall interface: string
      ensures Usable(networks, interface, profile, kind) && interface in host <==>
        IsOffered(networks, host, profile, kind, interface)
    {
      BeginsWithIb(interface);
    }
  }

  lemma BeginsWithIb(interface: string)
    ensures IsInfiniband(interface) <==> |interface| >= 2 && interface[0] == 'i' && interface[1] == 'b'
  {
    var ib := "ib";
    assert ib[0] == 'i' && ib[1] == 'b';
    if |interface| >= 2 && interface[0] == 'i' && interface[1] == 'b' {
      assert interface[..2] == ib;
    }
  }

  /** The loop that drops interfaces of the other kind and interfaces in use. */
  method RetrievePossibleInterfaces(nc: NetworkCreator, host: seq<string>, profile: Profile, kind: Kind) returns (list: seq<string>)
    ensures list == PossibleInterfaces(nc.networks, host, profile, kind)
    ensures forall interface :: interface in list <==> IsOffered(nc.networks, host, profile, kind, interface)
  {
    OfferedInPlainTerms(nc.networks, host, profile, kind);
    list := [];
    for k := |host| downto 0
      invariant list == PossibleInterfaces(nc.networks, host[k..], profile, kind)
    {
      var usable := MatchesKind(host[k], kind);
      if usable {
        usable := nc.CanUseInterface(host[k], profile);
      }
      if usable {
        list := [host[k]] + list;
      }
    }
  }

  /**
   * One network screen. It fails when nothing is offered, or when there are not two between the networks so far
   * and the interfaces offered; otherwise it adds the network on the chosen interface, unless there is one of
   * that profile already.
   */
  method PresentNetwork(nc: NetworkCreator, r: Request) returns (outcome: Result<(), Error>)
    modifies nc
    ensures outcome.Success? ==> Configured(old(nc.networks), r) == Success(nc.networks)
    ensures outcome.Failure? ==> Configured(old(nc.networks), r) == Failure(outcome.error) && nc.networks == old(nc.networks)
    ensures outcome == Failure(NoUsableInterfaces) <==>
      forall interface :: !IsOffered(old(nc.networks), r.host, r.profile, r.kind, interface)
    ensures outcome == Failure(Insufficient) ==> old(nc.networks) == []
    ensures outcome.Success? && PicksFromList(r.pick) ==>
      if exists n :: n in old(nc.networks) && n.profile == r.profile
      then nc.networks == old(nc.networks)
      else exists interface ::
        && IsOffered(old(nc.networks), r.host, r.profile, r.kind, interface)
        && nc.networks == old(nc.networks) + [NetworkData(r.profile, r.kind, interface, r.address)]
  {
    var list := RetrievePossibleInterfaces(nc, r.host, r.profile, r.kind);
    if list == [] {
      return Failure(NoUsableInterfaces);
    }
    assert IsOffered(nc.networks, r.host, r.profile, r.kind, list[0]);
    if |list| + |nc.networks| < 2 {
      return Failure(Insufficient);
    }
    var interface := r.pick(list);
    ghost var before := nc.networks;
    assert PicksFromList(r.pick) ==> IsOffered(before, r.host, r.profile, r.kind, interface);
    var added := nc.AddNetworkInformation(NetworkData(r.profile, r.kind, interface, r.address));
    assert before + [] == before;
    assert added ==> nc.networks == before + [NetworkData(r.profile, r.kind, interface, r.address)];
    return Success(());
  }

  /** The first screen needs two interfaces, later ones need one. */
  lemma TwoInterfacesSuffice(networks: seq<NetworkData>, r: Request)
    ensures Configured(networks, r).Success? <==>
      var list := PossibleInterfaces(networks, r.host, r.profile, r.kind);
      |list| >= 2 || (|list| == 1 && networks != [])
  {
  }

  // ----- every run

  /** The networks after a series of requests; one that fails changes nothing. */
  function Run(networks: seq<NetworkData>, requests: seq<Request>): seq<NetworkData> {
    if requests == [] then networks
    else
      var before := Run(networks, requests[..|requests| - 1]);
      match Configured(before, requests[|requests| - 1])
      case Success(after) => after
      case Failure(_) => before
  }

  lemma RequestKeepsSound(networks: seq<NetworkData>, r: Request)
    requires Sound(networks) && PicksFromList(r.pick)
    ensures Configured(networks, r).Success? ==> Sound(Configured(networks, r).value)
  {
    var list := PossibleInterfaces(networks, r.host, r.profile, r.kind);
    if Configured(networks, r).Success? && !HasProfile(networks, r.profile) {
      assert r.pick(list) in list;
      CanUseIsExact(networks, NetworkData(r.profile, r.kind, r.pick(list), r.address));
    }
  }

  /** Whatever is requested and in whatever order, on whatever interfaces the host then has, the networks stay sound. */
  lemma {:induction false} RunsAreSound(requests: seq<Request>)
    requires forall i :: 0 <= i < |requests| ==> PicksFromList(requests[i].pick)
    ensures Sound(Run([], requests))
  {
    if requests != [] {
      var init := requests[..|requests| - 1];
      RunsAreSound(init);
      RequestKeepsSound(Run([], init), requests[|requests| - 1]);
    }
  }

  /** Over every series of screens, the networks on names that begin with "ib" are exactly the InfiniBand ones. */
  lemma {:induction false} KindsFollowNames(requests: seq<Request>)
    requires forall i :: 0 <= i < |requests| ==> PicksFromList(requests[i].pick)
    ensures forall n :: n in Run([], requests) ==>
      (n.kind == Infiniband <==> |n.interface| >= 2 && n.interface[0] == 'i' && n.interface[1] == 'b')
  {
    if requests != [] {
      var init, r := requests[..|requests| - 1], requests[|requests| - 1];
      KindsFollowNames(init);
      var before := Run([], init);
      OfferedInPlainTerms(before, r.host, r.profile, r.kind);
      if Configured(before, r).Success? {
        assert IsOffered(before, r.host, r.profile, r.kind, r.pick(PossibleInterfaces(before, r.host, r.profile, r.kind)));
      }
    }
  }

  /** The screens one after the other. */
  method PresentAll(nc: NetworkCreator, requests: seq<Request>)
    requires nc.networks == []
    requires forall i :: 0 <= i < |requests| ==> PicksFromList(requests[i].pick)
    modifies nc
    ensures nc.networks == Run([], requests) && Sound(nc.networks)
  {
    for i := 0 to |requests|
      invariant nc.networks == Run([], requests[..i])
    {
      assert requests[..i + 1][..i] == requests[..i];
      var _ := PresentNetwork(nc, requests[i]);
    }
    assert requests[..|requests|] == requests;
    RunsAreSound(requests);
  }

  // ----- what soundness is worth

  function Interfaces(networks: seq<NetworkData>): set<string> {
    set n | n in networks :: n.interface
  }

  lemma {:induction false} DistinctInterfaces(networks: seq<NetworkData>)
    requires forall i, j :: 0 <= i < j < |networks| ==> networks[i].interface != networks[j].interface
    ensures |Interfaces(networks)| == |networks|
  {
    if networks != [] {
      var init, last := networks[..|networks| - 1], networks[|networks| - 1];
      DistinctInterfaces(init);
      assert networks == init + [last];
      assert last.interface !in Interfaces(init) by {
        assert forall i :: 0 <= i < |init| ==> init[i] == networks[i];
      }
      assert Interfaces(networks) == Interfaces(init) + {last.interface};
    }
  }

  lemma NoThreeShare(networks: seq<NetworkData>, i: nat, j: nat, k: nat)
    requires Sound(networks) && i < j < k < |networks|
    ensures !(networks[i].interface == networks[j].interface == networks[k].interface)
  {
    hide Sound;
    PairsArePartners(networks, i, j);
    PairsArePartners(networks, i, k);
    PairsArePartners(networks, j, k);
  }

  lemma NoOtherPair(networks: seq<NetworkData>, i: nat, j: nat, x: nat, y: nat)
    requires Sound(networks) && i < j < |networks| && networks[i].interface == networks[j].interface
    requires x < y < |networks| && x != j && y != j
    ensures networks[x].interface != networks[y].interface
  {
    hide CanShareInterface;
    SharersAsPair(networks[i].profile, networks[j].profile);
    SharersAsPair(networks[x].profile, networks[y].profile);
  }

  function Without(networks: seq<NetworkData>, j: nat): seq<NetworkData>
    requires j < |networks|
  {
    networks[..j] + networks[j + 1..]
  }

  /** At most one interface carries two networks, and none carries more. */
  lemma AtMostOneShared(networks: seq<NetworkData>)
    requires Sound(networks)
    ensures |Interfaces(networks)| <= |networks| <= |Interfaces(networks)| + 1
    ensures forall i, j, k :: 0 <= i < j < k < |networks| ==>
                                !(networks[i].interface == networks[j].interface == networks[k].interface)
  {
    forall i, j, k | 0 <= i < j < k < |networks|
      ensures !(networks[i].interface == networks[j].interface == networks[k].interface)
    {
      NoThreeShare(networks, i, j, k);
    }
    hide Sound, Interfaces;
    if i, j :| 0 <= i < j < |networks| && networks[i].interface == networks[j].interface {
      var others := Without(networks, j);
      forall x, y | 0 <= x < y < |others| ensures others[x].interface != others[y].interface {
        NoOtherPair(networks, i, j, if x < j then x else x + 1, if y < j then y else y + 1);
      }
      DistinctInterfaces(others);
      SameInterfacesWithout(networks, i, j);
    } else {
      DistinctInterfaces(networks);
    }
  }

  lemma SameInterfacesWithout(networks: seq<NetworkData>, i: nat, j: nat)
    requires i < j < |networks| && networks[i].interface == networks[j].interface
    ensures Interfaces(Without(networks, j)) == Interfaces(networks)
  {
    var others := Without(networks, j);
    assert networks[i] == others[i];
    forall n | n in networks ensures n.interface in Interfaces(others) {
      var k :| 0 <= k < |networks| && networks[k] == n;
      if k != j {
        assert n == others[if k < j then k else k - 1];
      }
    }
  }

  lemma PairsArePartners(networks: seq<NetworkData>, i: nat, j: nat)
    requires Sound(networks) && i < j < |networks|
    ensures networks[i].profile != networks[j].profile
    ensures networks[i].interface == networks[j].interface ==>
              CanShareInterface(networks[i].profile, networks[j].profile)
  {
    SharersAsPair(networks[i].profile, networks[j].profile);
  }

  /** A host that still has the management interface always has one for the service network. */
  lemma ServiceNeverLacksAnInterface(networks: seq<NetworkData>, management: NetworkData, host: seq<string>)
    requires Sound(networks) && management in networks && management.profile.Management?
    requires management.interface in host && !HasProfile(networks, Service)
    requires MatchesKind(management.interface, management.kind)
    ensures management.interface in PossibleInterfaces(networks, host, Service, management.kind)
  {
    SharersArePartners(networks, management);
    forall n | n in networks && n.interface == management.interface
      ensures CanShareInterface(n.profile, Service)
    {
      assert n == management || n.profile.Service?;
    }
  }
}
