/** Loading a node inventory, writing it to a fresh answerfile, and loading that again. */
module NodeRoundTrip {
  import opened Decimal
  import opened Ipv4
  import opened Ipv4Text
  import opened KeyFiles
  import opened MacAddresses
  import opened NodeInventory
  import opened NodeTopology
  import opened Text
  import opened Wrappers

  datatype Inventory = Inventory(generic: AFNode, nodes: seq<AFNode>)

  predicate GenericShape(generic: AFNode) {
    && generic.startIp.Some?
    && (forall key :: key in generic.text <==> key in GENERIC_KEYS)
    && FirstInvalid(generic.text, GENERIC_NUMBERS).None?
  }

  lemma GenericPadding(generic: AFNode)
    requires GenericShape(generic)
    ensures Prefix in generic.text && Padding in generic.text && AllDigits(generic.text[Padding])
  {
    assert GENERIC_NUMBERS[0] == Padding && GENERIC_KEYS[0] == Prefix && GENERIC_KEYS[1] == Padding;
  }

  /** The nodes of the first n sections, up to the first one that cannot be read. */
  function LoadPrefix(file: Section, generic: AFNode, n: nat): Result<seq<AFNode>, Error>
    requires n <= |file.groups| && GenericShape(generic)
  {
    if n == 0 then Success([])
    else
      var nodes :- LoadPrefix(file, generic, n - 1);
      match NodeNumber(file.groups[n - 1])
      case None => Success(nodes)
      case Some(number) =>
        GenericPadding(generic);
        var node :- NodeOf(file, generic, file.groups[n - 1], number);
        Success(nodes + [node])
  }

  /** The file loads, as this inventory. */
  ghost predicate Loads(file: Section, inventory: Inventory) {
    && LoadGeneric(file) == Success(inventory.generic)
    && GenericShape(inventory.generic)
    && LoadPrefix(file, inventory.generic, |file.groups|) == Success(inventory.nodes)
    && Distinct(inventory.nodes)
  }

  /** Why a file does not load: the first section that cannot be read, the generic one first, or a duplicate. */
  ghost predicate Explains(file: Section, error: Error) {
    match LoadGeneric(file)
    case Failure(e) => error == e
    case Success(generic) =>
      GenericShape(generic) &&
      match LoadPrefix(file, generic, |file.groups|)
      case Failure(e) => error == e
      case Success(nodes) => error.DuplicateValue? && IsDuplicate(error.duplicate, nodes)
  }

  // ----- writing

  function Put(file: Section, section: string, key: Key, value: string): (r: Section)
    requires file.Valid()
    ensures r.Valid()
  {
    file.SetString(section, key, value)
  }

  function PutAll(file: Section, section: string, keys: seq<Key>, text: Fields): (r: Section)
    requires file.Valid()
    ensures r.Valid()
    decreases |keys|
  {
    if keys == [] then file
    else PutAll(if keys[0] in text then Put(file, section, keys[0], text[keys[0]]) else file, section, keys[1..], text)
  }

  function PutNode(file: Section, section: string, keys: seq<Key>, node: AFNode): (r: Section)
    requires file.Valid()
    ensures r.Valid()
  {
    var written := PutAll(file, section, keys, node.text);
    if node.startIp.Some? then Put(written, section, NodeIp, Print(node.startIp.value)) else written
  }

  function SectionName(number: nat): string {
    "node." + Dec(number)
  }

  /** The file after writing the generic node, if there is one, and the first n nodes. */
  function DumpPrefix(file: Section, generic: Option<AFNode>, nodes: seq<AFNode>, n: nat): (r: Section)
    requires file.Valid() && n <= |nodes|
    ensures r.Valid()
  {
    if n == 0 then
      if generic.Some? then PutNode(file, GENERIC, GENERIC_KEYS, generic.value) else file
    else PutNode(DumpPrefix(file, generic, nodes, n - 1), SectionName(n), NODE_KEYS, nodes[n - 1])
  }

  const FRESH: Section := KeyTable([], map[])

  function Dumped(inventory: Inventory): Section {
    DumpPrefix(FRESH, Some(inventory.generic), inventory.nodes, |inventory.nodes|)
  }

  /** The part of an answerfile that holds its nodes. */
  class AnswerFile {
    var keyfile: Section
    var generic: Option<AFNode>
    var nodes: seq<AFNode>

    constructor (keyfile: Section)
      ensures this.keyfile == keyfile && generic == None && nodes == []
    {
      this.keyfile := keyfile;
      generic, nodes := None, [];
    }

    method LoadNodes() returns (r: Option<Error>)
      requires nodes == []
      modifies this
      ensures keyfile == old(keyfile)
      ensures r.None? ==> generic.Some? && Loads(keyfile, Inventory(generic.value, nodes))
      ensures r.Some? ==> Explains(keyfile, r.value) && forall inventory :: !Loads(keyfile, inventory)
    {
      hide LoadGeneric, NodeOf, NodeNumber, Distinct, GenericShape, IsDuplicate;
      var loaded := LoadGeneric(keyfile);
      if loaded.Failure? {
        return Some(loaded.error);
      }
      LoadedGenericShape(keyfile);
      var g := loaded.value;
      generic := Some(g);
      GenericPadding(g);
      var i := 0;
      while i < |keyfile.groups|
        invariant 0 <= i <= |keyfile.groups| && keyfile == old(keyfile) && generic == Some(g)
        invariant LoadPrefix(keyfile, g, i) == Success(nodes)
      {
        var section := keyfile.groups[i];
        var number := NodeNumber(section);
        if number.Some? {
          var node := NodeOf(keyfile, g, section, number.value);
          if node.Failure? {
            FailedPrefix(keyfile, g, i + 1);
            return Some(node.error);
          }
          nodes := nodes + [node.value];
        }
        i := i + 1;
      }
      var duplicate := ValidateNodeInventoryTopology(nodes);
      if duplicate.Some? {
        return Some(DuplicateValue(duplicate.value));
      }
      r := None;
    }

    method DumpNodes()
      requires keyfile.Valid()
      modifies `keyfile
      ensures keyfile.Valid()
      ensures keyfile == DumpPrefix(old(keyfile), generic, nodes, |nodes|)
    {
      hide PutNode, SectionName;
      if generic.Some? {
        keyfile := PutNode(keyfile, GENERIC, GENERIC_KEYS, generic.value);
      }
      var counter := 1;
      while counter <= |nodes|
        invariant 1 <= counter <= |nodes| + 1 && keyfile.Valid()
        invariant keyfile == DumpPrefix(old(keyfile), generic, nodes, counter - 1)
      {
        keyfile := PutNode(keyfile, SectionName(counter), NODE_KEYS, nodes[counter - 1]);
        counter := counter + 1;
      }
    }
  }

  lemma {:induction false} FailedPrefix(file: Section, generic: AFNode, n: nat)
    requires n <= |file.groups| && GenericShape(generic) && LoadPrefix(file, generic, n).Failure?
    ensures LoadPrefix(file, generic, |file.groups|) == LoadPrefix(file, generic, n)
    decreases |file.groups| - n
  {
    hide NodeOf, NodeNumber, GenericShape;
    if n < |file.groups| {
      FailedPrefix(file, generic, n + 1);
    }
  }

  // ----- what loading gives

  lemma {:induction false} GetAllReads(file: Section, section: string, keys: seq<Key>)
    ensures GetAll(file, section, keys).Success? <==> forall i :: 0 <= i < |keys| ==> file.GetStringOpt(section, keys[i]).Some?
    ensures GetAll(file, section, keys).Success? ==>
      var text := GetAll(file, section, keys).value;
      && (forall key :: key in text <==> key in keys)
      && (forall key :: key in text ==> file.GetStringOpt(section, key) == Some(text[key]))
  {
    if keys != [] {
      GetAllReads(file, section, keys[1..]);
      assert keys == [keys[0]] + keys[1..];
    }
  }

  lemma LoadedGenericShape(file: Section)
    requires LoadGeneric(file).Success?
    ensures GenericShape(LoadGeneric(file).value)
  {
    hide GENERIC_KEYS, GENERIC_NUMBERS, GetAll, FirstInvalid, AddressAt;
    GetAllReads(file, GENERIC, GENERIC_KEYS);
  }

  /** A node as loading leaves it: everything it needs is its own. */
  predicate Resolved(node: AFNode) {
    && node.startIp.Some? && !Unspecified(node.startIp.value)
    && SettledText(node.text)
    && FirstInvalid(node.text, NODE_NUMBERS).None?
  }

  /** Filling in attributes sets exactly the listed ones that had no text. */
  lemma {:induction false} FilledAttributes(text: Fields, generic: Fields, number: nat, keys: seq<Key>)
    requires ValidateAttributes(text, generic, number, keys).Success?
    ensures
      var r := ValidateAttributes(text, generic, number, keys).value;
      && (forall key :: key in keys ==> HasText(r, key))
      && (forall key :: key in text && (key !in keys || text[key] != "") ==> key in r && r[key] == text[key])
      && (forall key :: key in r ==> key in text || key in keys)
    decreases |keys|
  {
    if keys != [] {
      var next := ValidateAttribute(text, generic, number, keys[0]).value;
      FilledAttributes(next, generic, number, keys[1..]);
      assert keys == [keys[0]] + keys[1..];
    }
  }

  lemma {:induction false} NothingToFill(text: Fields, generic: Fields, number: nat, keys: seq<Key>)
    requires forall key :: key in keys ==> HasText(text, key)
    ensures ValidateAttributes(text, generic, number, keys) == Success(text)
    decreases |keys|
  {
    if keys != [] {
      NothingToFill(text, generic, number, keys[1..]);
    }
  }

  predicate NodeKeysOnly(text: Fields) {
    forall key :: key in text ==> key == MacAddress || key in OPTIONAL_KEYS
  }

  lemma KeysOf(key: Key)
    ensures key in GENERIC_KEYS ==> key != NodeIp && key != BmcAddress
    ensures key in REQUIRED_KEYS <==>
      key.RootPassword? || key.Sockets? || key.CoresPerSocket? || key.ThreadsPerCore?
    ensures key in BMC_KEYS <==>
      key.BmcAddress? || key.BmcUsername? || key.BmcPassword? || key.BmcSerialport? || key.BmcSerialspeed?
  {
  }

  lemma OptionalKeysOf(key: Key)
    ensures key in OPTIONAL_KEYS <==> key.Hostname? || key in REQUIRED_KEYS || key in BMC_KEYS
    ensures key in OPTIONAL_KEYS || key == MacAddress ==> key in NODE_KEYS
  {
    hide REQUIRED_KEYS, BMC_KEYS;
    KeysOf(key);
    assert OPTIONAL_KEYS[0] == Hostname && OPTIONAL_KEYS[1] == RootPassword && OPTIONAL_KEYS[2] == Sockets;
    assert OPTIONAL_KEYS[3] == CoresPerSocket && OPTIONAL_KEYS[4] == ThreadsPerCore && OPTIONAL_KEYS[5] == BmcAddress;
    assert OPTIONAL_KEYS[6] == BmcUsername && OPTIONAL_KEYS[7] == BmcPassword;
    assert OPTIONAL_KEYS[8] == BmcSerialport && OPTIONAL_KEYS[9] == BmcSerialspeed;
  }

  lemma KeyFacts()
    ensures BmcAddress in OPTIONAL_KEYS && Hostname in OPTIONAL_KEYS
    ensures forall key :: key in REQUIRED_KEYS || key in BMC_KEYS ==> key in OPTIONAL_KEYS && key != Hostname && key != MacAddress
    ensures forall key :: key in REQUIRED_KEYS ==> key !in BMC_KEYS
    ensures BmcAddress in BMC_KEYS && BmcAddress !in REQUIRED_KEYS && BmcAddress !in GENERIC_KEYS
    ensures forall key :: key in OPTIONAL_KEYS || key == MacAddress ==> key in NODE_KEYS && key != NodeIp
    ensures forall key :: key in GENERIC_KEYS ==> key != NodeIp
    ensures forall key :: key in OPTIONAL_KEYS ==> key == Hostname || key in REQUIRED_KEYS || key in BMC_KEYS
    ensures MacAddress !in OPTIONAL_KEYS
  {
    hide OPTIONAL_KEYS, REQUIRED_KEYS, BMC_KEYS, NODE_KEYS, GENERIC_KEYS;
    forall key | key in REQUIRED_KEYS || key in BMC_KEYS
      ensures key in OPTIONAL_KEYS && key != Hostname && key != MacAddress && !(key in REQUIRED_KEYS && key in BMC_KEYS)
    {
      KeysOf(key);
      OptionalKeysOf(key);
    }
    forall key | key in OPTIONAL_KEYS || key == MacAddress
      ensures key in NODE_KEYS && key != NodeIp
      ensures key in OPTIONAL_KEYS ==> key == Hostname || key in REQUIRED_KEYS || key in BMC_KEYS
    {
      KeysOf(key);
      OptionalKeysOf(key);
    }
    forall key | key in GENERIC_KEYS ensures key != NodeIp {
      KeysOf(key);
    }
    KeysOf(BmcAddress);
    OptionalKeysOf(BmcAddress);
    OptionalKeysOf(Hostname);
    KeysOf(MacAddress);
    OptionalKeysOf(MacAddress);
  }

  /** The text of a node once its required and BMC attributes are settled. */
  function Settle(text: Fields, generic: Fields, number: nat): Result<Fields, Error> {
    var required :- ValidateAttributes(text, generic, number, REQUIRED_KEYS);
    if HasText(text, BmcAddress) || HasText(generic, BmcAddress)
    then ValidateAttributes(required, generic, number, BMC_KEYS)
    else Success(ClearIfEmpty(required, BMC_KEYS))
  }

  predicate SettledText(text: Fields) {
    && HasText(text, Hostname) && MacAddress in text && NodeKeysOnly(text)
    && (forall key :: key in REQUIRED_KEYS ==> HasText(text, key))
    && (forall key :: key in text && key in BMC_KEYS ==> text[key] != "")
    && (BmcAddress in text ==> forall key :: key in BMC_KEYS ==> HasText(text, key))
  }

  lemma SettleSettles(text: Fields, generic: Fields, number: nat)
    requires BmcAddress !in generic && Settle(text, generic, number).Success?
    requires HasText(text, Hostname) && MacAddress in text && NodeKeysOnly(text)
    ensures SettledText(Settle(text, generic, number).value)
  {
    hide OPTIONAL_KEYS, REQUIRED_KEYS, BMC_KEYS, ValidateAttributes, ClearIfEmpty, SettledText;
    var required := ValidateAttributes(text, generic, number, REQUIRED_KEYS).value;
    FilledRequired(text, generic, number);
    if HasText(text, BmcAddress) {
      FilledBmc(required, generic, number);
    } else {
      ClearedBmc(required);
    }
  }

  /** What holds of the fields before the BMC is looked at. */
  predicate HalfSettled(text: Fields) {
    && HasText(text, Hostname) && MacAddress in text && NodeKeysOnly(text)
    && (forall key :: key in REQUIRED_KEYS ==> HasText(text, key))
  }

  lemma FilledRequired(text: Fields, generic: Fields, number: nat)
    requires ValidateAttributes(text, generic, number, REQUIRED_KEYS).Success?
    requires HasText(text, Hostname) && MacAddress in text && NodeKeysOnly(text)
    ensures
      var r := ValidateAttributes(text, generic, number, REQUIRED_KEYS).value;
      HalfSettled(r) && (HasText(r, BmcAddress) <==> HasText(text, BmcAddress))
  {
    hide OPTIONAL_KEYS, REQUIRED_KEYS, BMC_KEYS, ValidateAttributes;
    KeyFacts();
    FilledAttributes(text, generic, number, REQUIRED_KEYS);
  }

  lemma FilledBmc(text: Fields, generic: Fields, number: nat)
    requires HalfSettled(text) && ValidateAttributes(text, generic, number, BMC_KEYS).Success?
    ensures SettledText(ValidateAttributes(text, generic, number, BMC_KEYS).value)
  {
    hide OPTIONAL_KEYS, REQUIRED_KEYS, BMC_KEYS, ValidateAttributes;
    KeyFacts();
    FilledAttributes(text, generic, number, BMC_KEYS);
  }

  lemma ClearedBmc(text: Fields)
    requires HalfSettled(text) && !HasText(text, BmcAddress)
    ensures SettledText(ClearIfEmpty(text, BMC_KEYS))
  {
    hide OPTIONAL_KEYS, REQUIRED_KEYS, BMC_KEYS;
    KeyFacts();
  }

  lemma ValidatedNode(node: AFNode, generic: AFNode, section: string, number: nat)
    requires ValidateNode(node, generic, section, number).Success?
    ensures
      var r := ValidateNode(node, generic, section, number).value;
      && Settle(node.text, generic.text, number) == Success(r.text)
      && FirstInvalid(r.text, NODE_NUMBERS).None?
      && r.startIp.Some? && !Unspecified(r.startIp.value)
  {
    hide ValidateAttributes, ClearIfEmpty, FirstInvalid;
  }

  lemma LoadedNodeIsResolved(file: Section, generic: AFNode, section: string, number: nat)
    requires GenericShape(generic)
    requires Prefix in generic.text && Padding in generic.text && AllDigits(generic.text[Padding])
    requires NodeOf(file, generic, section, number).Success?
    ensures Resolved(NodeOf(file, generic, section, number).value)
  {
    hide FirstInvalid, ValidateNode, GenerateHostname, Settle, OPTIONAL_KEYS, REQUIRED_KEYS, BMC_KEYS, GENERIC_KEYS;
    KeyFacts();
    var node := LoadNode(file, section).value;
    var named := GenerateHostname(node, generic, number).value;
    NamedNode(node, generic, number);
    assert NodeKeysOnly(named.text);
    ValidatedNode(named, generic, section, number);
    SettleSettles(named.text, generic.text, number);
  }

  lemma NamedNode(node: AFNode, generic: AFNode, number: nat)
    requires Prefix in generic.text && Padding in generic.text && AllDigits(generic.text[Padding])
    requires GenerateHostname(node, generic, number).Success?
    ensures
      var named := GenerateHostname(node, generic, number).value;
      && HasText(named.text, Hostname)
      && named == node.(text := node.text[Hostname := named.text[Hostname]])
  {
  }

  // ----- what writing gives

  function Restrict(text: Fields, keys: seq<Key>): Fields {
    map key | key in text && key in keys :: text[key]
  }

  /** One file is the other with these fields added to a section, which is opened if need be. */
  ghost predicate Wrote(file: Section, r: Section, section: string, added: Fields) {
    && r.Group(section) == file.Group(section) + added
    && (forall g :: g in r.entries <==> g in file.entries || (g == section && added != map[]))
    && (forall g :: g in file.entries && g != section ==> r.entries[g] == file.entries[g])
    && r.groups == (if added == map[] || section in file.entries then file.groups else file.groups + [section])
  }

  lemma WroteNothing(file: Section, section: string)
    ensures Wrote(file, file, section, map[])
  {
    assert file.Group(section) + map[] == file.Group(section);
  }

  lemma WroteOne(file: Section, section: string, key: Key, value: string)
    requires file.Valid()
    ensures Wrote(file, Put(file, section, key, value), section, map[key := value])
  {
    assert file.Group(section) + map[key := value] == file.Group(section)[key := value];
    assert key in map[key := value];
  }

  lemma AddInTurn(m: Fields, one: Fields, more: Fields)
    ensures (m + one) + more == m + (one + more)
    ensures one + more == map[] <==> one == map[] && more == map[]
    ensures map[] + more == more
  {
    if key :| key in one {
      assert key in one + more;
    }
    if key :| key in more {
      assert key in one + more;
    }
  }

  lemma WroteBoth(file: Section, next: Section, r: Section, section: string, one: Fields, more: Fields)
    requires Wrote(file, next, section, one) && Wrote(next, r, section, more)
    ensures Wrote(file, r, section, one + more)
  {
    AddInTurn(file.Group(section), one, more);
  }

  /** Writing the set fields of a section adds them to it. */
  lemma {:induction false} PutAllWrites(file: Section, section: string, keys: seq<Key>, text: Fields)
    requires file.Valid()
    ensures Wrote(file, PutAll(file, section, keys, text), section, Restrict(text, keys))
    decreases |keys|
  {
    if keys == [] {
      assert Restrict(text, keys) == map[];
      WroteNothing(file, section);
    } else {
      hide *;
      PutAllStep(file, section, keys, text);
      PutAllWrites(if keys[0] in text then Put(file, section, keys[0], text[keys[0]]) else file, section, keys[1..], text);
      WroteFirst(file, PutAll(file, section, keys, text), section, keys, text);
    }
  }

  lemma WroteFirst(file: Section, r: Section, section: string, keys: seq<Key>, text: Fields)
    requires file.Valid() && keys != []
    requires Wrote(if keys[0] in text then Put(file, section, keys[0], text[keys[0]]) else file, r, section, Restrict(text, keys[1..]))
    ensures Wrote(file, r, section, Restrict(text, keys))
  {
    hide *;
    RestrictFirst(text, keys);
    if keys[0] in text {
      var next := Put(file, section, keys[0], text[keys[0]]);
      WroteOne(file, section, keys[0], text[keys[0]]);
      WroteBoth(file, next, r, section, map[keys[0] := text[keys[0]]], Restrict(text, keys[1..]));
    } else {
      AddInTurn(map[], map[], Restrict(text, keys[1..]));
    }
  }

  lemma PutAllStep(file: Section, section: string, keys: seq<Key>, text: Fields)
    requires file.Valid() && keys != []
    ensures PutAll(file, section, keys, text) ==
      PutAll(if keys[0] in text then Put(file, section, keys[0], text[keys[0]]) else file, section, keys[1..], text)
  {
  }

  lemma RestrictFirst(text: Fields, keys: seq<Key>)
    requires keys != []
    ensures Restrict(text, keys)
         == (if keys[0] in text then map[keys[0] := text[keys[0]]] else map[]) + Restrict(text, keys[1..])
  {
    assert keys == [keys[0]] + keys[1..];
  }

  lemma WroteNew(file: Section, r: Section, section: string, text: Fields)
    requires section !in file.entries && Wrote(file, r, section, text)
    ensures r.Group(section) == text
    ensures r.entries == if text == map[] then file.entries else file.entries[section := text]
    ensures r.groups == if text == map[] then file.groups else file.groups + [section]
  {
    assert file.Group(section) + text == text;
  }

  lemma WriteLast(file: Section, written: Section, section: string, text: Fields, value: string)
    requires written.Valid() && section !in file.entries && written.Group(section) == text
    requires written.entries == if text == map[] then file.entries else file.entries[section := text]
    requires written.groups == if text == map[] then file.groups else file.groups + [section]
    ensures
      var r := Put(written, section, NodeIp, value);
      r.entries == file.entries[section := text[NodeIp := value]] && r.groups == file.groups + [section]
  {
  }

  /** Writing a node to a new section. */
  lemma PutNodeWrites(file: Section, section: string, keys: seq<Key>, node: AFNode)
    requires file.Valid() && section !in file.entries
    requires node.startIp.Some? && NodeIp !in node.text && forall key :: key in node.text ==> key in keys
    ensures
      var r := PutNode(file, section, keys, node);
      && r.entries == file.entries[section := node.text[NodeIp := Print(node.startIp.value)]]
      && r.groups == file.groups + [section]
  {
    assert Restrict(node.text, keys) == node.text;
    hide PutAll, Print, Put, Wrote, Restrict;
    PutAllWrites(file, section, keys, node.text);
    var written := PutAll(file, section, keys, node.text);
    WroteNew(file, written, section, node.text);
    WriteLast(file, written, section, node.text, Print(node.startIp.value));
  }

  lemma SectionNamesDiffer(i: nat, j: nat)
    ensures SectionName(i) == SectionName(j) <==> i == j
    ensures SectionName(i) != GENERIC
  {
    assert SectionName(i)[5..] == Dec(i) && SectionName(j)[5..] == Dec(j);
    DecValue(i);
    DecValue(j);
  }

  /** A node and the entries of the section it is written to. */
  ghost predicate Holds(file: Section, section: string, node: AFNode) {
    && section in file.entries && node.startIp.Some? && NodeIp !in node.text
    && file.entries[section] == node.text[NodeIp := Print(node.startIp.value)]
  }

  ghost predicate DumpShape(file: Section, inventory: Inventory, n: nat)
    requires n <= |inventory.nodes|
  {
    && |file.groups| == n + 1 && file.groups[0] == GENERIC
    && Holds(file, GENERIC, inventory.generic)
    && (forall i :: 1 <= i <= n ==> file.groups[i] == SectionName(i))
    && (forall i :: 1 <= i <= n ==> Holds(file, SectionName(i), inventory.nodes[i - 1]))
  }

  lemma {:induction false} DumpHolds(inventory: Inventory, n: nat)
    requires n <= |inventory.nodes| && GenericShape(inventory.generic)
    requires forall i :: 0 <= i < |inventory.nodes| ==> Resolved(inventory.nodes[i])
    ensures DumpShape(DumpPrefix(FRESH, Some(inventory.generic), inventory.nodes, n), inventory, n)
  {
    hide PutNode, SectionName, Resolved, DumpShape, GenericShape, NODE_KEYS, GENERIC_KEYS;
    if n == 0 {
      DumpGeneric(inventory);
    } else {
      DumpHolds(inventory, n - 1);
      OneMoreNode(DumpPrefix(FRESH, Some(inventory.generic), inventory.nodes, n - 1), inventory, n);
    }
  }

  lemma DumpGeneric(inventory: Inventory)
    requires GenericShape(inventory.generic)
    ensures DumpShape(PutNode(FRESH, GENERIC, GENERIC_KEYS, inventory.generic), inventory, 0)
  {
    hide PutNode, FirstInvalid, Print, GENERIC_KEYS, GENERIC_NUMBERS;
    KeyFacts();
    PutNodeWrites(FRESH, GENERIC, GENERIC_KEYS, inventory.generic);
  }

  lemma HoldsElsewhere(file: Section, r: Section, section: string, node: AFNode)
    requires Holds(file, section, node) && forall g :: g in file.entries ==> g in r.entries && r.entries[g] == file.entries[g]
    ensures Holds(r, section, node)
  {
  }

  lemma OneMoreSection(file: Section, r: Section, inventory: Inventory, n: nat)
    requires 0 < n <= |inventory.nodes| && DumpShape(file, inventory, n - 1)
    requires r.groups == file.groups + [SectionName(n)] && Holds(r, SectionName(n), inventory.nodes[n - 1])
    requires forall g :: g in file.entries ==> g in r.entries && r.entries[g] == file.entries[g]
    ensures DumpShape(r, inventory, n)
  {
    hide SectionName, Holds;
    HoldsElsewhere(file, r, GENERIC, inventory.generic);
    forall i | 1 <= i < n ensures Holds(r, SectionName(i), inventory.nodes[i - 1]) {
      HoldsElsewhere(file, r, SectionName(i), inventory.nodes[i - 1]);
    }
  }

  lemma OneMoreNode(file: Section, inventory: Inventory, n: nat)
    requires 0 < n <= |inventory.nodes| && file.Valid() && DumpShape(file, inventory, n - 1)
    requires Resolved(inventory.nodes[n - 1])
    ensures DumpShape(PutNode(file, SectionName(n), NODE_KEYS, inventory.nodes[n - 1]), inventory, n)
  {
    hide PutNode, Resolved, SectionName, Print, NODE_KEYS, DumpShape;
    NewSection(file, inventory, n);
    ResolvedKeys(inventory.nodes[n - 1]);
    PutNodeWrites(file, SectionName(n), NODE_KEYS, inventory.nodes[n - 1]);
    OneMoreSection(file, PutNode(file, SectionName(n), NODE_KEYS, inventory.nodes[n - 1]), inventory, n);
  }

  lemma ResolvedKeys(node: AFNode)
    requires Resolved(node)
    ensures node.startIp.Some? && NodeIp !in node.text && forall key :: key in node.text ==> key in NODE_KEYS
  {
    hide FirstInvalid, OPTIONAL_KEYS, REQUIRED_KEYS, BMC_KEYS, NODE_KEYS;
    KeyFacts();
  }

  lemma NewSection(file: Section, inventory: Inventory, n: nat)
    requires 0 < n <= |inventory.nodes| && file.Valid() && DumpShape(file, inventory, n - 1)
    ensures SectionName(n) !in file.entries
  {
    hide SectionName, Holds;
    SectionNamesDiffer(n, n);
    forall k | 0 <= k < |file.groups| ensures file.groups[k] != SectionName(n) {
      SectionNamesDiffer(k, n);
    }
  }

  // ----- loading what was written

  lemma {:induction false} GetAllExactly(file: Section, section: string, keys: seq<Key>, text: Fields)
    requires forall key :: key in text <==> key in keys
    requires forall key :: key in text ==> file.GetStringOpt(section, key) == Some(text[key])
    ensures GetAll(file, section, keys) == Success(text)
  {
    GetAllReads(file, section, keys);
    forall i | 0 <= i < |keys| ensures file.GetStringOpt(section, keys[i]).Some? {
      assert keys[i] in text;
    }
    var read := GetAll(file, section, keys).value;
    assert read == text;
  }

  lemma GenericReloads(file: Section, generic: AFNode)
    requires GenericShape(generic) && Holds(file, GENERIC, generic)
    ensures LoadGeneric(file) == Success(generic)
  {
    hide FirstInvalid, GENERIC_KEYS, GENERIC_NUMBERS, Parse, Print;
    GetAllExactly(file, GENERIC, GENERIC_KEYS, generic.text);
    PrintReadsBack(generic.startIp.value);
  }

  lemma SettledIsFixed(text: Fields, generic: Fields, number: nat)
    requires SettledText(text) && BmcAddress !in generic
    ensures Settle(GetsDefaults(text), generic, number) == Success(text)
  {
    hide OPTIONAL_KEYS, REQUIRED_KEYS, BMC_KEYS, ValidateAttributes, GetsDefaults, ClearIfEmpty;
    var padded := GetsDefaults(text);
    DefaultsKeepText(text);
    NothingToFill(padded, generic, number, REQUIRED_KEYS);
    if BmcAddress in text {
      NothingToFill(padded, generic, number, BMC_KEYS);
      AllPresent(text);
    } else {
      DefaultsClear(text);
    }
  }

  lemma DefaultsKeepText(text: Fields)
    requires SettledText(text)
    ensures
      var padded := GetsDefaults(text);
      && (forall key :: key in REQUIRED_KEYS ==> HasText(padded, key))
      && (BmcAddress in text ==> forall key :: key in BMC_KEYS ==> HasText(padded, key))
      && (HasText(padded, BmcAddress) <==> BmcAddress in text)
  {
    hide OPTIONAL_KEYS, REQUIRED_KEYS, BMC_KEYS;
    KeyFacts();
    forall key | key in REQUIRED_KEYS ensures HasText(GetsDefaults(text), key) {
      assert HasText(text, key);
    }
    if BmcAddress in text {
      forall key | key in BMC_KEYS ensures HasText(GetsDefaults(text), key) {
        assert HasText(text, key);
      }
    }
  }

  /** What loading a written node starts from: the written fields, and empty texts for the rest. */
  function GetsDefaults(text: Fields): Fields
    requires MacAddress in text
  {
    (map key | key in OPTIONAL_KEYS :: if key in text then text[key] else "")[MacAddress := text[MacAddress]]
  }

  lemma AllPresent(text: Fields)
    requires SettledText(text) && BmcAddress in text
    ensures GetsDefaults(text) == text
  {
    hide OPTIONAL_KEYS, REQUIRED_KEYS, BMC_KEYS;
    KeyFacts();
    forall key | key in OPTIONAL_KEYS ensures key in text {
      assert key == Hostname || HasText(text, key);
    }
  }

  lemma DefaultsClearAt(text: Fields, key: Key)
    requires SettledText(text) && BmcAddress !in text
    ensures
      var defaults := GetsDefaults(text);
      && (key in text ==> key in defaults && defaults[key] == text[key] && !(key in BMC_KEYS && text[key] == ""))
      && (key !in text && key in defaults ==> key in BMC_KEYS && defaults[key] == "")
  {
    hide OPTIONAL_KEYS, REQUIRED_KEYS, BMC_KEYS;
    KeyFacts();
    assert key in REQUIRED_KEYS ==> HasText(text, key);
  }

  lemma SettledHasMac(text: Fields)
    requires SettledText(text)
    ensures MacAddress in text
  {
  }

  lemma DefaultsClear(text: Fields)
    requires SettledText(text) && BmcAddress !in text
    ensures ClearIfEmpty(GetsDefaults(text), BMC_KEYS) == text
  {
    SettledHasMac(text);
    hide GetsDefaults, SettledText, BMC_KEYS;
    forall key ensures key in ClearIfEmpty(GetsDefaults(text), BMC_KEYS) <==> key in text {
      DefaultsClearAt(text, key);
    }
    forall key | key in text ensures ClearIfEmpty(GetsDefaults(text), BMC_KEYS)[key] == text[key] {
      DefaultsClearAt(text, key);
    }
  }

  lemma NodeReloads(file: Section, generic: AFNode, section: string, number: nat, node: AFNode)
    requires GenericShape(generic) && Resolved(node) && Holds(file, section, node)
    requires Prefix in generic.text && Padding in generic.text && AllDigits(generic.text[Padding])
    ensures NodeOf(file, generic, section, number) == Success(node)
  {
    hide FirstInvalid, Settle, ValidateAttributes, OPTIONAL_KEYS, REQUIRED_KEYS, BMC_KEYS, GENERIC_KEYS, NODE_KEYS, Parse, Print;
    KeyFacts();
    PrintReadsBack(node.startIp.value);
    WrittenDefaults(file, section, node);
    var loaded := AFNode(node.startIp, GetsDefaults(node.text));
    assert LoadNode(file, section) == Success(loaded);
    assert HasText(loaded.text, Hostname);
    SettledIsFixed(node.text, generic.text, number);
    ValidateSettled(loaded, generic, section, number);
  }

  lemma WrittenLookup(file: Section, section: string, node: AFNode, key: Key)
    requires Holds(file, section, node) && key != NodeIp
    ensures file.GetStringOpt(section, key) == if key in node.text then Some(node.text[key]) else None
  {
    hide Print;
  }

  lemma WrittenDefaults(file: Section, section: string, node: AFNode)
    requires MacAddress in node.text && Holds(file, section, node)
    ensures file.GetStringOpt(section, MacAddress) == Some(node.text[MacAddress])
    ensures GetWithDefault(file, section, OPTIONAL_KEYS)[MacAddress := node.text[MacAddress]] == GetsDefaults(node.text)
  {
    hide OPTIONAL_KEYS, Holds;
    KeyFacts();
    WrittenLookup(file, section, node, MacAddress);
    forall key | key in OPTIONAL_KEYS
      ensures file.GetStringOpt(section, key) == if key in node.text then Some(node.text[key]) else None
    {
      WrittenLookup(file, section, node, key);
    }
  }

  lemma ValidateSettled(node: AFNode, generic: AFNode, section: string, number: nat)
    requires node.startIp.Some? && !Unspecified(node.startIp.value)
    requires Settle(node.text, generic.text, number).Success?
    requires FirstInvalid(Settle(node.text, generic.text, number).value, NODE_NUMBERS).None?
    ensures ValidateNode(node, generic, section, number)
         == Success(AFNode(node.startIp, Settle(node.text, generic.text, number).value))
  {
    hide ValidateAttributes, ClearIfEmpty, FirstInvalid, REQUIRED_KEYS, BMC_KEYS, NODE_NUMBERS;
  }

  const SIZE_LIMIT: nat := 0x1_0000_0000_0000_0000

  lemma SectionNumber(k: nat)
    requires 0 < k < SIZE_LIMIT
    ensures NodeNumber(SectionName(k)) == Some(k)
  {
    var name := SectionName(k);
    assert name[..5] == "node." && name[5..] == Dec(k);
    DecValue(k);
    assert IsDigit(Dec(k)[0]);
  }

  lemma {:induction false} LoadedNodesAreResolved(file: Section, generic: AFNode, n: nat)
    requires n <= |file.groups| && GenericShape(generic) && LoadPrefix(file, generic, n).Success?
    ensures forall i :: 0 <= i < |LoadPrefix(file, generic, n).value| ==> Resolved(LoadPrefix(file, generic, n).value[i])
  {
    hide NodeOf, Resolved, NodeNumber, GenericShape;
    if n > 0 {
      LoadedNodesAreResolved(file, generic, n - 1);
      var number := NodeNumber(file.groups[n - 1]);
      if number.Some? {
        GenericPadding(generic);
        LoadedNodeIsResolved(file, generic, file.groups[n - 1], number.value);
      }
    }
  }

  lemma {:induction false} ReloadPrefix(file: Section, inventory: Inventory, n: nat)
    requires |inventory.nodes| < SIZE_LIMIT && n <= |inventory.nodes|
    requires GenericShape(inventory.generic) && DumpShape(file, inventory, |inventory.nodes|)
    requires forall i :: 0 <= i < |inventory.nodes| ==> Resolved(inventory.nodes[i])
    ensures LoadPrefix(file, inventory.generic, n + 1) == Success(inventory.nodes[..n])
  {
    hide NodeOf, Resolved, NodeNumber, GenericShape, SectionName, Holds;
    if n == 0 {
      assert LoadPrefix(file, inventory.generic, 0) == Success([]);
      assert NodeNumber(GENERIC).None? by {
        GenericHasNoNumber();
      }
    } else {
      ReloadPrefix(file, inventory, n - 1);
      SectionNumber(n);
      GenericPadding(inventory.generic);
      NodeReloads(file, inventory.generic, SectionName(n), n, inventory.nodes[n - 1]);
      assert inventory.nodes[..n] == inventory.nodes[..n - 1] + [inventory.nodes[n - 1]];
    }
  }

  lemma GenericHasNoNumber()
    ensures NodeNumber(GENERIC).None?
  {
  }

  /**
   * Which inventories an answerfile can hold: those with a complete generic node, of resolved nodes, whose
   * claims are distinct.
   */
  lemma LoadableInventories(inventory: Inventory)
    requires |inventory.nodes| < SIZE_LIMIT
    ensures (exists file :: Loads(file, inventory)) <==>
      && GenericShape(inventory.generic)
      && (forall i :: 0 <= i < |inventory.nodes| ==> Resolved(inventory.nodes[i]))
      && Distinct(inventory.nodes)
  {
    hide *;
    if file :| Loads(file, inventory) {
      LoadedParts(file, inventory);
      LoadedNodesAreResolved(file, inventory.generic, |file.groups|);
    }
    if GenericShape(inventory.generic) && Distinct(inventory.nodes)
      && forall i :: 0 <= i < |inventory.nodes| ==> Resolved(inventory.nodes[i])
    {
      DumpedLoads(inventory);
    }
  }

  lemma LoadedParts(file: Section, inventory: Inventory)
    requires Loads(file, inventory)
    ensures GenericShape(inventory.generic) && Distinct(inventory.nodes)
    ensures LoadPrefix(file, inventory.generic, |file.groups|) == Success(inventory.nodes)
  {
  }

  lemma DumpedLoads(inventory: Inventory)
    requires |inventory.nodes| < SIZE_LIMIT && GenericShape(inventory.generic) && Distinct(inventory.nodes)
    requires forall i :: 0 <= i < |inventory.nodes| ==> Resolved(inventory.nodes[i])
    ensures Loads(Dumped(inventory), inventory)
  {
    hide NodeOf, Resolved, NodeNumber, GenericShape, SectionName, Holds, LoadGeneric, Distinct, LoadPrefix;
    DumpHolds(inventory, |inventory.nodes|);
    var dumped := Dumped(inventory);
    GenericReloads(dumped, inventory.generic);
    ReloadPrefix(dumped, inventory, |inventory.nodes|);
    assert inventory.nodes[..|inventory.nodes|] == inventory.nodes;
  }

  /**
   * Writing a loaded inventory to a fresh answerfile and loading that gives the same generic node
   * and the same nodes in the same order: resolution is a fixed point after one pass.
   */
  lemma ReloadsTheSame(file: Section, inventory: Inventory)
    requires Loads(file, inventory) && |inventory.nodes| < SIZE_LIMIT
    ensures Loads(Dumped(inventory), inventory)
  {
    hide *;
    LoadableInventories(inventory);
    DumpedLoads(inventory);
  }

  // ----- one hardware address in two nodes

  lemma {:induction false} AllValid(text: Fields, keys: seq<Key>)
    requires forall key :: key in keys && key in text ==> IsUnsigned(text[key], AllowsZero(key))
    ensures FirstInvalid(text, keys).None?
  {
    if keys != [] {
      AllValid(text, keys[1..]);
    }
  }

  lemma OneIsUnsigned(allowZero: bool)
    ensures IsUnsigned("1", allowZero)
  {
    assert "1"[..0] == "" && Value("") == 0;
  }

  /** A node with its own name, MAC and CPU, and no BMC. */
  function PlainNode(hostname: string, mac: string, address: Word): AFNode {
    AFNode(Some(address), (map key | key in REQUIRED_KEYS :: "1")[Hostname := hostname][MacAddress := mac])
  }

  lemma PlainNodeIsSettled(hostname: string, mac: string, address: Word)
    requires hostname != ""
    ensures SettledText(PlainNode(hostname, mac, address).text)
  {
    hide REQUIRED_KEYS, BMC_KEYS, OPTIONAL_KEYS;
    KeyFacts();
  }

  lemma PlainNodeIsResolved(hostname: string, mac: string, address: Word)
    requires hostname != "" && !Unspecified(address)
    ensures Resolved(PlainNode(hostname, mac, address))
  {
    hide REQUIRED_KEYS, FirstInvalid, IsUnsigned, NODE_NUMBERS, SettledText;
    PlainNodeIsSettled(hostname, mac, address);
    var text := PlainNode(hostname, mac, address).text;
    forall key | key in NODE_NUMBERS && key in text ensures IsUnsigned(text[key], AllowsZero(key)) {
      NumbersOf(key);
      OneIsUnsigned(AllowsZero(key));
    }
    AllValid(text, NODE_NUMBERS);
  }

  lemma NumbersOf(key: Key)
    ensures key in NODE_NUMBERS ==> key != Hostname && key != MacAddress
  {
  }

  const PLAIN_GENERIC: AFNode := AFNode(Some(1), map key | key in GENERIC_KEYS :: "1")

  lemma PlainGenericIsComplete()
    ensures GenericShape(PLAIN_GENERIC)
  {
    hide GENERIC_KEYS, GENERIC_NUMBERS, FirstInvalid, IsUnsigned;
    forall key | key in GENERIC_NUMBERS && key in PLAIN_GENERIC.text
      ensures IsUnsigned(PLAIN_GENERIC.text[key], AllowsZero(key))
    {
      OneIsUnsigned(AllowsZero(key));
    }
    AllValid(PLAIN_GENERIC.text, GENERIC_NUMBERS);
  }

  function TwoNodes(mac: string, other: string): Inventory {
    Inventory(PLAIN_GENERIC, [PlainNode("a", mac, 1), PlainNode("b", other, 2)])
  }

  lemma TwoClaims(kind: Kind, nodes: seq<AFNode>, v: string, w: string)
    requires |nodes| == 2 && Claims(kind, nodes[0]) == [v] && Claims(kind, nodes[1]) == [w]
    ensures NoDuplicates(AllClaims(kind, nodes)) <==> v != w
  {
    hide Claims, AllClaims;
    DistinctIsPairwise(kind, nodes);
    assert v in Claims(kind, nodes[0]) && w in Claims(kind, nodes[1]);
  }

  lemma PlainClaims(hostname: string, mac: string, address: Word)
    requires hostname != "" && mac != "" && !Unspecified(address)
    ensures
      var node := PlainNode(hostname, mac, address);
      && MacOf(node) == mac
      && Claims(HostnameKind, node) == [hostname] && Claims(MacKind, node) == [Stored(mac)]
      && Claims(AnyAddressKind, node) == [Print(address)]
  {
    hide REQUIRED_KEYS, BMC_KEYS, OPTIONAL_KEYS, Print;
    KeyFacts();
    assert |Lower(mac)| == |mac|;
  }

  lemma TwoNodesDistinct(mac: string, other: string)
    requires mac != "" && other != ""
    ensures Distinct(TwoNodes(mac, other).nodes) <==> Stored(mac) != Stored(other)
  {
    hide PlainNode, Claims, AllClaims, NoDuplicates, Stored, Print;
    var nodes := TwoNodes(mac, other).nodes;
    PlainClaims("a", mac, 1);
    PlainClaims("b", other, 2);
    TwoClaims(HostnameKind, nodes, "a", "b");
    TwoClaims(MacKind, nodes, Stored(mac), Stored(other));
    PrintReadsBack(1);
    PrintReadsBack(2);
    TwoClaims(AnyAddressKind, nodes, Print(1), Print(2));
  }

  /** Two nodes that differ in name and address load together exactly when their MACs are stored as different texts. */
  lemma TwoNodesLoad(mac: string, other: string)
    requires mac != "" && other != ""
    ensures (exists file :: Loads(file, TwoNodes(mac, other))) <==> Stored(mac) != Stored(other)
  {
    hide PlainNode, PLAIN_GENERIC, GenericShape, Resolved, Distinct, Stored, Loads;
    PlainNodeIsResolved("a", mac, 1);
    PlainNodeIsResolved("b", other, 2);
    PlainGenericIsComplete();
    TwoNodesDistinct(mac, other);
    LoadableInventories(TwoNodes(mac, other));
  }

  /** For every MAC of six pairs some answerfile loads with its hardware address in two nodes. */
  lemma OneAddressTwice(mac: string) returns (inventory: Inventory)
    requires IsSixPairs(mac)
    ensures exists file :: Loads(file, inventory)
    ensures |inventory.nodes| == 2 && MacsAreValid(inventory.nodes) && MacOf(inventory.nodes[0]) == mac
    ensures HardwareAddress(MacOf(inventory.nodes[0])) == HardwareAddress(MacOf(inventory.nodes[1]))
  {
    hide PlainNode, PLAIN_GENERIC, Claims, Stored, Loads, HardwareAddress, MacOf, Print;
    OtherNotation(mac);
    var other := mac[2 := if mac[2] == ':' then '-' else ':'];
    inventory := TwoNodes(mac, other);
    TwoNodesLoad(mac, other);
    PlainClaims("a", mac, 1);
    PlainClaims("b", other, 2);
  }
}
