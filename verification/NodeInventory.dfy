/** The compute nodes of an answerfile: reading, resolving against the generic node, and writing. */
module NodeInventory {
  import opened Decimal
  import opened Ipv4
  import opened Ipv4Text
  import opened KeyFiles
  import opened Text
  import opened Wrappers

  /** The keys of a node section. */
  datatype Key =
    | Prefix | Padding | NodeIp | Hostname | RootPassword | MacAddress | Sockets | CoresPerSocket
    | ThreadsPerCore | CpusPerNode | RealMemory | BmcAddress | BmcUsername | BmcPassword
    | BmcSerialport | BmcSerialspeed

  type Section = KeyTable<Key>
  type Fields = map<Key, string>

  /** A node: its first address, and its other fields where they are set. */
  datatype AFNode = AFNode(startIp: Option<Word>, text: Fields)

  datatype Error =
    | NoSuchEntry(section: string, key: Key)
    | InvalidAddress(section: string)
    | InvalidNumber(section: string, key: Key)
    | PaddingOutOfRange
    | NoHostname(number: nat)
    | NoAttribute(number: nat, key: Key)
    | DuplicateValue(duplicate: Duplicate)

  const GENERIC: string := "node"

  const GENERIC_KEYS: seq<Key> :=
    [Prefix, Padding, RootPassword, Sockets, CoresPerSocket, CpusPerNode, ThreadsPerCore, RealMemory,
     BmcUsername, BmcPassword, BmcSerialport, BmcSerialspeed]

  /** The keys of a node that default to the empty text. */
  const OPTIONAL_KEYS: seq<Key> :=
    [Hostname, RootPassword, Sockets, CoresPerSocket, ThreadsPerCore, BmcAddress, BmcUsername, BmcPassword,
     BmcSerialport, BmcSerialspeed]

  /** The keys a node is written with, in order. */
  const NODE_KEYS: seq<Key> :=
    [Hostname, MacAddress, RootPassword, Sockets, CoresPerSocket, ThreadsPerCore, CpusPerNode, RealMemory,
     BmcAddress, BmcUsername, BmcPassword, BmcSerialport, BmcSerialspeed]

  const BMC_KEYS: seq<Key> := [BmcAddress, BmcUsername, BmcPassword, BmcSerialport, BmcSerialspeed]

  // ----- numbers

  /** Digits only, in the range of a 64-bit size, and not zero unless zero is allowed. */
  predicate IsUnsigned(value: string, allowZero: bool) {
    && value != "" && AllDigits(value) && Value(value) < 0x1_0000_0000_0000_0000
    && (allowZero || Value(value) != 0)
  }

  predicate AllowsZero(key: Key) {
    key.Padding? || key.BmcSerialport?
  }

  /** The first of these fields that is set to something other than a valid number. */
  function FirstInvalid(text: Fields, keys: seq<Key>): Option<Key> {
    if keys == [] then None
    else if keys[0] in text && !IsUnsigned(text[keys[0]], AllowsZero(keys[0])) then Some(keys[0])
    else FirstInvalid(text, keys[1..])
  }

  const GENERIC_NUMBERS: seq<Key> :=
    [Padding, Sockets, CoresPerSocket, CpusPerNode, ThreadsPerCore, RealMemory, BmcSerialport, BmcSerialspeed]

  const NODE_NUMBERS: seq<Key> := [Sockets, CoresPerSocket, ThreadsPerCore, BmcSerialport, BmcSerialspeed]

  /** How the section numbers are read: an optional sign, then digits; a minus sign wraps around. */
  function LexicalSize(text: string): Option<nat> {
    var signed := text != "" && (text[0] == '-' || text[0] == '+');
    var digits := if signed then text[1..] else text;
    if digits == "" || !AllDigits(digits) || Value(digits) >= 0x1_0000_0000_0000_0000 then None
    else if signed && text[0] == '-' && Value(digits) > 0 then Some(0x1_0000_0000_0000_0000 - Value(digits))
    else Some(Value(digits))
  }

  predicate HasNodePrefix(section: string) {
    |section| >= 5 && section[..5] == "node."
  }

  /** The number of a node section, if it has a positive one. */
  function NodeNumber(section: string): Option<nat> {
    if !HasNodePrefix(section) then None
    else
      match LexicalSize(section[5..])
      case Some(n) => if n > 0 then Some(n) else None
      case None => None
  }

  // ----- one section

  function GetAll(file: Section, section: string, keys: seq<Key>): Result<Fields, Error> {
    if keys == [] then Success(map[])
    else
      match file.GetStringOpt(section, keys[0])
      case None => Failure(NoSuchEntry(section, keys[0]))
      case Some(value) =>
        var rest :- GetAll(file, section, keys[1..]);
        Success(rest[keys[0] := value])
  }

  function GetWithDefault(file: Section, section: string, keys: seq<Key>): Fields {
    map key | key in keys :: file.GetStringOpt(section, key).GetOr("")
  }

  function AddressAt(file: Section, section: string): Result<Option<Word>, Error> {
    match file.GetStringOpt(section, NodeIp)
    case None => Success(None)
    case Some(text) => if Parse(text).Some? then Success(Parse(text)) else Failure(InvalidAddress(section))
  }

  function LoadGeneric(file: Section): Result<AFNode, Error> {
    var text :- GetAll(file, GENERIC, GENERIC_KEYS);
    var startIp :- AddressAt(file, GENERIC);
    if startIp.None? then Failure(NoSuchEntry(GENERIC, NodeIp))
    else
      match FirstInvalid(text, GENERIC_NUMBERS)
      case Some(key) => Failure(InvalidNumber(GENERIC, key))
      case None => Success(AFNode(startIp, text))
  }

  /** A node section as written; an absent address is unspecified. */
  function LoadNode(file: Section, section: string): Result<AFNode, Error> {
    match file.GetStringOpt(section, MacAddress)
    case None => Failure(NoSuchEntry(section, MacAddress))
    case Some(mac) =>
      var startIp :- AddressAt(file, section);
      Success(AFNode(Some(startIp.GetOr(0)), GetWithDefault(file, section, OPTIONAL_KEYS)[MacAddress := mac]))
  }

  predicate HasText(text: Fields, key: Key) {
    key in text && text[key] != ""
  }

  /** A node without a hostname is named after the generic prefix and its number. */
  function GenerateHostname(node: AFNode, generic: AFNode, number: nat): Result<AFNode, Error>
    requires Prefix in generic.text && Padding in generic.text && AllDigits(generic.text[Padding])
  {
    if HasText(node.text, Hostname) then Success(node)
    else if generic.text[Prefix] == "" || generic.text[Padding] == "" then Failure(NoHostname(number))
    else if Value(generic.text[Padding]) >= 0x8000_0000 then Failure(PaddingOutOfRange)
    else
      var name := generic.text[Prefix] + Padded(number, Value(generic.text[Padding]));
      Success(node.(text := node.text[Hostname := name]))
  }

  /** A field that is not set takes the generic value, which then must be set. */
  function ValidateAttribute(text: Fields, generic: Fields, number: nat, key: Key): Result<Fields, Error> {
    if HasText(text, key) then Success(text)
    else if HasText(generic, key) then Success(text[key := generic[key]])
    else Failure(NoAttribute(number, key))
  }

  function ValidateAttributes(text: Fields, generic: Fields, number: nat, keys: seq<Key>): Result<Fields, Error>
    decreases |keys|
  {
    if keys == [] then Success(text)
    else
      var next :- ValidateAttribute(text, generic, number, keys[0]);
      ValidateAttributes(next, generic, number, keys[1..])
  }

  function ClearIfEmpty(text: Fields, keys: seq<Key>): Fields {
    map key | key in text && !(key in keys && text[key] == "") :: text[key]
  }

  const REQUIRED_KEYS: seq<Key> := [RootPassword, Sockets, CoresPerSocket, ThreadsPerCore]

  /** Resolve a node against the generic node. */
  function ValidateNode(node: AFNode, generic: AFNode, section: string, number: nat): Result<AFNode, Error> {
    var startIp :-
      (if node.startIp.Some? && !Unspecified(node.startIp.value) then Success(node.startIp)
       else if generic.startIp.Some? && !Unspecified(generic.startIp.value) then Success(generic.startIp)
       else Failure(NoAttribute(number, NodeIp)));
    var required :- ValidateAttributes(node.text, generic.text, number, REQUIRED_KEYS);
    var text :-
      (if HasText(node.text, BmcAddress) || HasText(generic.text, BmcAddress)
       then ValidateAttributes(required, generic.text, number, BMC_KEYS)
       else Success(ClearIfEmpty(required, BMC_KEYS)));
    match FirstInvalid(text, NODE_NUMBERS)
    case Some(key) => Failure(InvalidNumber(section, key))
    case None => Success(AFNode(startIp, text))
  }

  /** The node of one numbered section. */
  function NodeOf(file: Section, generic: AFNode, section: string, number: nat): Result<AFNode, Error>
    requires Prefix in generic.text && Padding in generic.text && AllDigits(generic.text[Padding])
  {
    var node :- LoadNode(file, section);
    var named :- GenerateHostname(node, generic, number);
    ValidateNode(named, generic, section, number)
  }

  // ----- uniqueness

  datatype Kind = HostnameKind | MacKind | NodeAddressKind | BmcAddressKind | AnyAddressKind

  /** A value that two nodes use, or one node uses twice. */
  datatype Duplicate = Duplicate(kind: Kind, value: string, first: nat, second: nat)

  function NonEmpty(value: string): seq<string> {
    if value == "" then [] else [value]
  }

  function TextOf(node: AFNode, key: Key): string {
    if key in node.text then node.text[key] else ""
  }

  function NodeAddressText(node: AFNode): seq<string> {
    if node.startIp.Some? && !Unspecified(node.startIp.value) then [Print(node.startIp.value)] else []
  }

  /** The values of one kind that a node claims for itself. */
  function Claims(kind: Kind, node: AFNode): seq<string> {
    match kind
    case HostnameKind => NonEmpty(TextOf(node, Hostname))
    case MacKind => NonEmpty(Lower(TextOf(node, MacAddress)))
    case NodeAddressKind => NodeAddressText(node)
    case BmcAddressKind => NonEmpty(TextOf(node, BmcAddress))
    case AnyAddressKind => NodeAddressText(node) + NonEmpty(TextOf(node, BmcAddress))
  }

  function AllClaims(kind: Kind, nodes: seq<AFNode>): seq<string> {
    if nodes == [] then [] else AllClaims(kind, nodes[..|nodes| - 1]) + Claims(kind, nodes[|nodes| - 1])
  }

  ghost predicate NoDuplicates(s: seq<string>) {
    forall i, j :: 0 <= i < j < |s| ==> s[i] != s[j]
  }

  /** Hostnames, MACs and addresses are each claimed once. */
  ghost predicate Distinct(nodes: seq<AFNode>) {
    && NoDuplicates(AllClaims(HostnameKind, nodes))
    && NoDuplicates(AllClaims(MacKind, nodes))
    && NoDuplicates(AllClaims(AnyAddressKind, nodes))
  }

  /** The values seen so far, and the node that claimed each. */
  type Seen = map<string, nat>

  ghost predicate Remembers(seen: Seen, kind: Kind, claims: seq<string>, nodes: seq<AFNode>) {
    && NoDuplicates(claims)
    && (forall v :: v in seen <==> v in claims)
    && (forall v :: v in seen ==> seen[v] < |nodes| && v in Claims(kind, nodes[seen[v]]))
  }

  /** A duplicate that was reported is one. */
  ghost predicate IsDuplicate(d: Duplicate, nodes: seq<AFNode>) {
    && d.first <= d.second < |nodes|
    && d.value in Claims(d.kind, nodes[d.first]) && d.value in Claims(d.kind, nodes[d.second])
    && (d.first == d.second ==> d.kind.AnyAddressKind? && !NoDuplicates(Claims(d.kind, nodes[d.first])))
  }

  lemma NextClaims(kind: Kind, nodes: seq<AFNode>, i: nat)
    requires i < |nodes|
    ensures AllClaims(kind, nodes[..i + 1]) == AllClaims(kind, nodes[..i]) + Claims(kind, nodes[i])
  {
    assert nodes[..i + 1][..i] == nodes[..i];
  }

  lemma {:induction false} ClaimsArePrefix(kind: Kind, nodes: seq<AFNode>, i: nat)
    requires i <= |nodes|
    ensures AllClaims(kind, nodes[..i]) <= AllClaims(kind, nodes)
    decreases |nodes| - i
  {
    if i < |nodes| {
      NextClaims(kind, nodes, i);
      ClaimsArePrefix(kind, nodes, i + 1);
    } else {
      assert nodes[..i] == nodes;
    }
  }

  lemma PrefixWithDuplicates(prefix: seq<string>, whole: seq<string>)
    requires prefix <= whole && !NoDuplicates(prefix)
    ensures !NoDuplicates(whole)
  {
    var i, j :| 0 <= i < j < |prefix| && prefix[i] == prefix[j];
    assert whole[i] == prefix[i] && whole[j] == prefix[j];
  }

  /** Enter a value for a node, unless another node has it; empty values are not entered. */
  method RememberUnique(seen: Seen, kind: Kind, value: string, ghost claims: seq<string>, nodes: seq<AFNode>, owner: nat)
    returns (r: Result<Seen, Duplicate>)
    requires Remembers(seen, kind, claims, nodes) && owner < |nodes|
    requires value != "" ==> value in Claims(kind, nodes[owner])
    ensures r.Success? ==> Remembers(r.value, kind, claims + NonEmpty(value), nodes)
    ensures r.Success? ==> r.value == if value == "" then seen else seen[value := owner]
    ensures r.Failure? <==> value != "" && value in seen
    ensures r.Failure? ==>
      r.error == Duplicate(kind, value, seen[value], owner) && !NoDuplicates(claims + NonEmpty(value))
  {
    if value == "" {
      assert claims + NonEmpty(value) == claims;
      return Success(seen);
    }
    if value in seen {
      ghost var k :| 0 <= k < |claims| && claims[k] == value;
      assert (claims + [value])[k] == (claims + [value])[|claims|];
      return Failure(Duplicate(kind, value, seen[value], owner));
    }
    return Success(seen[value := owner]);
  }
}
