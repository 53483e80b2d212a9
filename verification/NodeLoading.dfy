/** What loading a node section gives, in terms of the entries of the file. */
module NodeLoading {
  import opened Decimal
  import opened Ipv4
  import opened Ipv4Text
  import opened KeyFiles
  import opened NodeInventory
  import opened NodeRoundTrip
  import opened Wrappers

  /** The text of an entry; an absent entry counts as empty. */
  function Own(file: Section, section: string, key: Key): string {
    if section in file.entries && key in file.entries[section] then file.entries[section][key] else ""
  }

  /** The text of the section itself, and where that is empty the one of the generic section. */
  function Effective(file: Section, section: string, key: Key): string {
    if Own(file, section, key) != "" then Own(file, section, key) else Own(file, "node", key)
  }

  predicate IsRequired(key: Key) {
    key.RootPassword? || key.Sockets? || key.CoresPerSocket? || key.ThreadsPerCore?
  }

  predicate IsBmcDetail(key: Key) {
    key.BmcUsername? || key.BmcPassword? || key.BmcSerialport? || key.BmcSerialspeed?
  }

  /** What a loaded node has under a key other than its host name. */
  function LoadedText(file: Section, section: string, key: Key): Option<string> {
    if key.MacAddress? then Some(Own(file, section, key))
    else if IsRequired(key) then Some(Effective(file, section, key))
    else if key.BmcAddress? || IsBmcDetail(key) then
      if Own(file, section, BmcAddress) != "" && IsBmcDetail(key) then Some(Effective(file, section, key))
      else if Own(file, section, key) != "" then Some(Own(file, section, key))
      else None
    else None
  }

  /** The address of an entry; zero if there is none. */
  function OwnAddress(file: Section, section: string): Word {
    if section in file.entries && NodeIp in file.entries[section]
    then Parse(file.entries[section][NodeIp]).GetOr(0) else 0
  }

  function LoadedAddress(file: Section, section: string): Word {
    if OwnAddress(file, section) != 0 then OwnAddress(file, section) else OwnAddress(file, "node")
  }

  /** A section's own host name, or the generic prefix and the number of the section, padded. */
  ghost predicate IsLoadedHostname(file: Section, section: string, number: nat, hostname: string) {
    var prefix, padding := Own(file, "node", Prefix), Own(file, "node", Padding);
    if Own(file, section, Hostname) != "" then hostname == Own(file, section, Hostname)
    else
      && prefix != "" && padding != "" && AllDigits(padding) && Value(padding) < 0x8000_0000
      && exists s :: hostname == prefix + s && IsNumeral(s, number, Value(padding))
  }

  /** A number of at most 64 bits, which may be zero only for a port or the padding. */
  predicate IsNumber(key: Key, text: string) {
    && text != "" && AllDigits(text) && Value(text) < 0x1_0000_0000_0000_0000
    && (key.BmcSerialport? || key.Padding? || Value(text) > 0)
  }

  predicate IsNumeric(key: Key) {
    key.Sockets? || key.CoresPerSocket? || key.ThreadsPerCore? || key.BmcSerialport? || key.BmcSerialspeed?
  }

  function Field(text: Fields, key: Key): Option<string> {
    if key in text then Some(text[key]) else None
  }

  /** The node that a numbered section loads as. */
  ghost predicate LoadsFrom(file: Section, section: string, number: nat, node: AFNode) {
    && section in file.entries && MacAddress in file.entries[section]
    && (NodeIp in file.entries[section] ==> Parse(file.entries[section][NodeIp]).Some?)
    && node.startIp == Some(LoadedAddress(file, section)) && LoadedAddress(file, section) != 0
    && Hostname in node.text && IsLoadedHostname(file, section, number, node.text[Hostname])
    && (forall key :: key != Hostname ==> Field(node.text, key) == LoadedText(file, section, key))
    && (forall key :: key in node.text && key != MacAddress ==> node.text[key] != "")
    && (forall key :: key in node.text && IsNumeric(key) ==> IsNumber(key, node.text[key]))
  }

  /** The generic node that a file has: every key is there, numbers are numbers, and the address can be read. */
  ghost predicate GenericLoadsFrom(file: Section, generic: AFNode) {
    && "node" in file.entries && NodeIp in file.entries["node"]
    && generic.startIp.Some? && Parse(file.entries["node"][NodeIp]) == generic.startIp
    && (forall key :: key in generic.text <==> !(key.NodeIp? || key.Hostname? || key.MacAddress? || key.BmcAddress?))
    && (forall key :: key in generic.text ==>
          && key in file.entries["node"] && generic.text[key] == file.entries["node"][key]
          && (IsNumeric(key) || key.Padding? || key.CpusPerNode? || key.RealMemory? ==> IsNumber(key, generic.text[key])))
  }

  // ----- the generic section

  /** A generic node has the texts of the generic section. */
  lemma GenericOwn(file: Section, key: Key)
    requires LoadGeneric(file).Success? && key in GENERIC_KEYS
    ensures
      var generic := LoadGeneric(file).value;
      && key in generic.text && generic.text[key] == Own(file, "node", key)
      && generic.startIp == Some(OwnAddress(file, "node"))
  {
    hide GENERIC_KEYS, GENERIC_NUMBERS, GetAll, FirstInvalid;
    GetAllReads(file, GENERIC, GENERIC_KEYS);
  }

  lemma GenericOnly(file: Section, key: Key)
    requires LoadGeneric(file).Success?
    ensures key in LoadGeneric(file).value.text <==> key in GENERIC_KEYS
  {
    hide GENERIC_KEYS, GENERIC_NUMBERS, GetAll, FirstInvalid;
    GetAllReads(file, GENERIC, GENERIC_KEYS);
  }

  lemma GenericKeys()
    ensures Prefix in GENERIC_KEYS && Padding in GENERIC_KEYS && BmcAddress !in GENERIC_KEYS
    ensures forall key :: IsRequired(key) || IsBmcDetail(key) ==> key in GENERIC_KEYS
  {
    assert GENERIC_KEYS[0] == Prefix && GENERIC_KEYS[1] == Padding && GENERIC_KEYS[2] == RootPassword;
    assert GENERIC_KEYS[3] == Sockets && GENERIC_KEYS[4] == CoresPerSocket && GENERIC_KEYS[6] == ThreadsPerCore;
    assert GENERIC_KEYS[8] == BmcUsername && GENERIC_KEYS[9] == BmcPassword;
    assert GENERIC_KEYS[10] == BmcSerialport && GENERIC_KEYS[11] == BmcSerialspeed;
  }

  /** The text of the generic node under a key that a node may take from it. */
  lemma GenericText(file: Section, key: Key)
    requires LoadGeneric(file).Success? && (IsRequired(key) || IsBmcDetail(key))
    ensures
      var generic := LoadGeneric(file).value;
      && (HasText(generic.text, key) <==> Own(file, "node", key) != "")
      && (HasText(generic.text, key) ==> generic.text[key] == Own(file, "node", key))
  {
    hide LoadGeneric, GENERIC_KEYS;
    GenericKeys();
    GenericOwn(file, key);
  }

  // ----- filling in

  /** Filling in gives each listed key its own text, or else the generic one, and fails when both are empty. */
  lemma {:induction false} FilledExactly(text: Fields, generic: Fields, number: nat, keys: seq<Key>)
    ensures ValidateAttributes(text, generic, number, keys).Success? <==>
      forall key :: key in keys ==> HasText(text, key) || HasText(generic, key)
    ensures ValidateAttributes(text, generic, number, keys).Success? ==>
      var r := ValidateAttributes(text, generic, number, keys).value;
      && (forall key :: key in r <==> key in text || key in keys)
      && (forall key :: key in r ==> r[key] == if key in keys && !HasText(text, key) then generic[key] else text[key])
    decreases |keys|
  {
    if keys != [] {
      assert keys == [keys[0]] + keys[1..];
      var first := ValidateAttribute(text, generic, number, keys[0]);
      if first.Success? {
        FilledExactly(first.value, generic, number, keys[1..]);
      }
    }
  }

  lemma {:induction false} NoneInvalid(text: Fields, keys: seq<Key>)
    ensures FirstInvalid(text, keys).None? <==>
      forall key :: key in keys && key in text ==> IsUnsigned(text[key], AllowsZero(key))
  {
    if keys != [] {
      assert keys == [keys[0]] + keys[1..];
      NoneInvalid(text, keys[1..]);
    }
  }

  lemma NodeNumbers(key: Key)
    ensures key in NODE_NUMBERS <==> IsNumeric(key)
    ensures IsNumeric(key) ==> forall text :: IsUnsigned(text, AllowsZero(key)) <==> IsNumber(key, text)
  {
    assert NODE_NUMBERS[0] == Sockets && NODE_NUMBERS[1] == CoresPerSocket && NODE_NUMBERS[2] == ThreadsPerCore;
    assert NODE_NUMBERS[3] == BmcSerialport && NODE_NUMBERS[4] == BmcSerialspeed;
  }

  lemma Keys(key: Key)
    ensures key in REQUIRED_KEYS <==> IsRequired(key)
    ensures key in BMC_KEYS <==> key.BmcAddress? || IsBmcDetail(key)
    ensures key in OPTIONAL_KEYS <==> key.Hostname? || IsRequired(key) || key.BmcAddress? || IsBmcDetail(key)
  {
    hide REQUIRED_KEYS, BMC_KEYS, OPTIONAL_KEYS;
    KeysOf(key);
    OptionalKeysOf(key);
  }

  // ----- one section

  /** The section as it was read, before anything is filled in. */
  lemma ReadSection(file: Section, section: string, key: Key)
    requires LoadNode(file, section).Success?
    ensures
      var text := LoadNode(file, section).value.text;
      && (key in text <==> key.MacAddress? || key.Hostname? || IsRequired(key) || key.BmcAddress? || IsBmcDetail(key))
      && (key in text ==> text[key] == Own(file, section, key))
      && LoadNode(file, section).value.startIp == Some(OwnAddress(file, section))
  {
    hide OPTIONAL_KEYS;
    Keys(key);
    Keys(MacAddress);
  }

  lemma ReadSucceeds(file: Section, section: string)
    ensures LoadNode(file, section).Success? <==>
      && section in file.entries && MacAddress in file.entries[section]
      && (NodeIp in file.entries[section] ==> Parse(file.entries[section][NodeIp]).Some?)
  {
    hide Parse, OPTIONAL_KEYS;
  }

  lemma NamedAs(file: Section, node: AFNode, generic: AFNode, section: string, number: nat)
    requires LoadGeneric(file) == Success(generic) && LoadNode(file, section) == Success(node)
    requires Prefix in generic.text && Padding in generic.text && AllDigits(generic.text[Padding])
    ensures
      var named := GenerateHostname(node, generic, number);
      && (named.Success? <==> exists hostname :: IsLoadedHostname(file, section, number, hostname))
      && (named.Success? ==>
            && Hostname in named.value.text && named.value.text[Hostname] != ""
            && named.value == node.(text := node.text[Hostname := named.value.text[Hostname]])
            && forall hostname :: IsLoadedHostname(file, section, number, hostname) <==> hostname == named.value.text[Hostname])
  {
    hide LoadGeneric, LoadNode, GENERIC_KEYS, Padded, IsNumeral, Value;
    GenericKeys();
    GenericOwn(file, Prefix);
    GenericOwn(file, Padding);
    ReadSection(file, section, Hostname);
    if Own(file, section, Hostname) != "" {
      assert IsLoadedHostname(file, section, number, Own(file, section, Hostname));
      assert node.text[Hostname := node.text[Hostname]] == node.text;
    } else {
      var prefix, padding := Own(file, "node", Prefix), Own(file, "node", Padding);
      var width := Value(padding);
      PaddedIsNumeral(number, width);
      forall s | IsNumeral(s, number, width) ensures s == Padded(number, width) {
        NumeralIsPadded(s, number, width);
      }
      assert GenerateHostname(node, generic, number).Success? ==>
        IsLoadedHostname(file, section, number, prefix + Padded(number, width));
    }
  }

  // ----- resolving

  /** The texts of a section as they were read, with some host name. */
  predicate IsRead(file: Section, section: string, key: Key, text: Fields) {
    && (key in text <==> key.MacAddress? || key.Hostname? || IsRequired(key) || key.BmcAddress? || IsBmcDetail(key))
    && (key in text && key != Hostname ==> text[key] == Own(file, section, key))
  }

  ghost predicate AllRead(file: Section, section: string, text: Fields) {
    forall key :: IsRead(file, section, key, text)
  }

  /** The keys that have to have a text of their own or of the generic section. */
  predicate MustHave(file: Section, section: string, key: Key) {
    IsRequired(key) || (Own(file, section, BmcAddress) != "" && IsBmcDetail(key))
  }

  lemma RequiredFilled(file: Section, section: string, generic: AFNode, number: nat, text: Fields)
    requires LoadGeneric(file) == Success(generic) && AllRead(file, section, text)
    ensures
      var required := ValidateAttributes(text, generic.text, number, REQUIRED_KEYS);
      && (required.Success? <==> forall key :: IsRequired(key) ==> Effective(file, section, key) != "")
      && (required.Success? ==> forall key ::
            && (key in required.value <==> key in text)
            && (key in text ==> required.value[key] == if IsRequired(key) then Effective(file, section, key) else text[key]))
  {
    hide LoadGeneric, REQUIRED_KEYS, ValidateAttributes, IsRead;
    FilledExactly(text, generic.text, number, REQUIRED_KEYS);
    forall key
      ensures key in REQUIRED_KEYS <==> IsRequired(key)
      ensures IsRequired(key) ==>
        && key in text && text[key] == Own(file, section, key)
        && (HasText(generic.text, key) <==> Own(file, "node", key) != "")
        && (HasText(generic.text, key) ==> generic.text[key] == Own(file, "node", key))
    {
      Keys(key);
      if IsRequired(key) {
        ReadOne(file, section, key, text);
        GenericText(file, key);
      }
    }
  }

  lemma ReadOne(file: Section, section: string, key: Key, text: Fields)
    requires AllRead(file, section, text)
    ensures key.MacAddress? || key.Hostname? || IsRequired(key) || key.BmcAddress? || IsBmcDetail(key) <==> key in text
    ensures key in text && key != Hostname ==> text[key] == Own(file, section, key)
  {
    assert IsRead(file, section, key, text);
  }

  lemma BmcFilled(file: Section, section: string, generic: AFNode, number: nat, text: Fields, required: Fields)
    requires LoadGeneric(file) == Success(generic) && AllRead(file, section, text) && Own(file, section, BmcAddress) != ""
    requires forall key ::
      && (key in required <==> key in text)
      && (key in text ==> required[key] == if IsRequired(key) then Effective(file, section, key) else text[key])
    ensures
      var r := ValidateAttributes(required, generic.text, number, BMC_KEYS);
      && (r.Success? <==> forall key :: IsBmcDetail(key) ==> Effective(file, section, key) != "")
      && (r.Success? ==> forall key ::
            && (key in r.value <==> key in required)
            && (key in required ==> r.value[key] == if IsBmcDetail(key) then Effective(file, section, key) else required[key]))
  {
    hide LoadGeneric, BMC_KEYS, ValidateAttributes, AllRead;
    FilledExactly(required, generic.text, number, BMC_KEYS);
    forall key
      ensures key in BMC_KEYS <==> key.BmcAddress? || IsBmcDetail(key)
      ensures key.BmcAddress? ==> key in required && HasText(required, key)
      ensures IsBmcDetail(key) ==>
        && key in required && required[key] == Own(file, section, key)
        && (HasText(generic.text, key) <==> Own(file, "node", key) != "")
        && (HasText(generic.text, key) ==> generic.text[key] == Own(file, "node", key))
    {
      Keys(key);
      ReadOne(file, section, key, text);
      if IsBmcDetail(key) {
        GenericText(file, key);
      }
    }
  }

  lemma NoGenericBmc(file: Section, generic: AFNode)
    requires LoadGeneric(file) == Success(generic)
    ensures !HasText(generic.text, BmcAddress)
  {
    hide LoadGeneric, GENERIC_KEYS;
    GenericKeys();
    GenericOnly(file, BmcAddress);
  }

  ghost predicate IsSettled(file: Section, section: string, text: Fields, settled: Fields) {
    && Field(settled, Hostname) == Field(text, Hostname)
    && forall key :: key != Hostname ==> Field(settled, key) == LoadedText(file, section, key)
  }

  /** When the fields of a section can be settled, and what each is then. */
  lemma SettledFields(file: Section, section: string, generic: AFNode, number: nat, text: Fields)
    requires LoadGeneric(file) == Success(generic) && AllRead(file, section, text)
    ensures
      var r := Settle(text, generic.text, number);
      && (r.Success? <==> forall key :: MustHave(file, section, key) ==> Effective(file, section, key) != "")
      && (r.Success? ==> IsSettled(file, section, text, r.value))
  {
    hide LoadGeneric, REQUIRED_KEYS, BMC_KEYS, ValidateAttributes, ClearIfEmpty, AllRead, Effective, IsSettled, LoadedText;
    RequiredFilled(file, section, generic, number, text);
    NoGenericBmc(file, generic);
    ReadOne(file, section, BmcAddress, text);
    var required := ValidateAttributes(text, generic.text, number, REQUIRED_KEYS);
    if required.Success? {
      if Own(file, section, BmcAddress) != "" {
        BmcFilled(file, section, generic, number, text, required.value);
        var r := ValidateAttributes(required.value, generic.text, number, BMC_KEYS);
        if r.Success? {
          SettledWithBmc(file, section, text, required.value, r.value);
        }
      } else {
        SettledWithoutBmc(file, section, text, required.value);
      }
    }
  }

  lemma SettledWithBmc(file: Section, section: string, text: Fields, required: Fields, settled: Fields)
    requires AllRead(file, section, text) && Own(file, section, BmcAddress) != ""
    requires forall key ::
      && (key in required <==> key in text)
      && (key in text ==> required[key] == if IsRequired(key) then Effective(file, section, key) else text[key])
    requires forall key ::
      && (key in settled <==> key in required)
      && (key in required ==> settled[key] == if IsBmcDetail(key) then Effective(file, section, key) else required[key])
    ensures IsSettled(file, section, text, settled)
  {
    hide AllRead, Effective;
    forall key | key != Hostname ensures Field(settled, key) == LoadedText(file, section, key) {
      ReadOne(file, section, key, text);
    }
  }

  lemma SettledWithoutBmc(file: Section, section: string, text: Fields, required: Fields)
    requires AllRead(file, section, text) && Own(file, section, BmcAddress) == ""
    requires forall key ::
      && (key in required <==> key in text)
      && (key in text ==> required[key] == if IsRequired(key) then Effective(file, section, key) else text[key])
    ensures IsSettled(file, section, text, ClearIfEmpty(required, BMC_KEYS))
  {
    hide AllRead, Effective, BMC_KEYS;
    Keys(Hostname);
    forall key | key != Hostname ensures Field(ClearIfEmpty(required, BMC_KEYS), key) == LoadedText(file, section, key) {
      Keys(key);
      ReadOne(file, section, key, text);
    }
  }

  // ----- the whole generic section

  lemma GenericKey(key: Key)
    ensures key in GENERIC_KEYS <==> !(key.NodeIp? || key.Hostname? || key.MacAddress? || key.BmcAddress?)
    ensures key in GENERIC_NUMBERS <==> IsNumeric(key) || key.Padding? || key.CpusPerNode? || key.RealMemory?
  {
    hide GENERIC_KEYS, GENERIC_NUMBERS;
    MoreGenericKeys(key);
    GenericNumbers(key);
  }

  lemma MoreGenericKeys(key: Key)
    ensures key in GENERIC_KEYS <==> !(key.NodeIp? || key.Hostname? || key.MacAddress? || key.BmcAddress?)
  {
    GenericKeys();
    assert GENERIC_KEYS[5] == CpusPerNode && GENERIC_KEYS[7] == RealMemory;
  }

  lemma GenericNumbers(key: Key)
    ensures key in GENERIC_NUMBERS <==> IsNumeric(key) || key.Padding? || key.CpusPerNode? || key.RealMemory?
  {
    assert GENERIC_NUMBERS[0] == Padding && GENERIC_NUMBERS[1] == Sockets && GENERIC_NUMBERS[2] == CoresPerSocket;
    assert GENERIC_NUMBERS[3] == CpusPerNode && GENERIC_NUMBERS[4] == ThreadsPerCore && GENERIC_NUMBERS[5] == RealMemory;
    assert GENERIC_NUMBERS[6] == BmcSerialport && GENERIC_NUMBERS[7] == BmcSerialspeed;
  }

  /** The generic node is read exactly as its section says. */
  lemma GenericLoads(file: Section, generic: AFNode)
    ensures LoadGeneric(file) == Success(generic) <==> GenericLoadsFrom(file, generic)
  {
    hide GENERIC_KEYS, GENERIC_NUMBERS, GetAll, FirstInvalid, IsUnsigned, Parse, Value;
    GetAllReads(file, GENERIC, GENERIC_KEYS);
    forall key
      ensures key in GENERIC_KEYS <==> !(key.NodeIp? || key.Hostname? || key.MacAddress? || key.BmcAddress?)
      ensures key in GENERIC_NUMBERS <==> IsNumeric(key) || key.Padding? || key.CpusPerNode? || key.RealMemory?
    {
      GenericKey(key);
    }
    NoneInvalid(generic.text, GENERIC_NUMBERS);
    forall key, text: string
      ensures IsUnsigned(text, AllowsZero(key)) <==> IsNumber(key, text)
    {
      UnsignedIsNumber(key, text);
    }
    if GenericLoadsFrom(file, generic) {
      forall i | 0 <= i < |GENERIC_KEYS| ensures file.GetStringOpt(GENERIC, GENERIC_KEYS[i]).Some? {
        assert GENERIC_KEYS[i] in GENERIC_KEYS;
      }
      assert GetAll(file, GENERIC, GENERIC_KEYS).value == generic.text;
    }
  }

  lemma UnsignedIsNumber(key: Key, text: string)
    ensures IsUnsigned(text, AllowsZero(key)) <==> IsNumber(key, text)
  {
  }

  // ----- the whole section

  /** When a section loads: what must be there is there, and numbers are numbers. */
  ghost predicate CanLoad(file: Section, section: string, number: nat) {
    && section in file.entries && MacAddress in file.entries[section]
    && (NodeIp in file.entries[section] ==> Parse(file.entries[section][NodeIp]).Some?)
    && LoadedAddress(file, section) != 0
    && (exists hostname :: IsLoadedHostname(file, section, number, hostname))
    && (forall key :: MustHave(file, section, key) ==> Effective(file, section, key) != "")
    && (forall key :: IsNumeric(key) && LoadedText(file, section, key).Some? ==>
          IsNumber(key, LoadedText(file, section, key).value))
  }

  lemma NumbersSettled(file: Section, section: string, text: Fields, settled: Fields)
    requires IsSettled(file, section, text, settled)
    ensures FirstInvalid(settled, NODE_NUMBERS).None? <==>
      forall key :: IsNumeric(key) && LoadedText(file, section, key).Some? ==>
        IsNumber(key, LoadedText(file, section, key).value)
  {
    hide NODE_NUMBERS, IsUnsigned, IsNumber, LoadedText;
    NoneInvalid(settled, NODE_NUMBERS);
    forall key
      ensures key in NODE_NUMBERS <==> IsNumeric(key)
      ensures IsNumeric(key) ==> key != Hostname && Field(settled, key) == LoadedText(file, section, key)
      ensures IsNumeric(key) && key in settled ==> (IsUnsigned(settled[key], AllowsZero(key)) <==> IsNumber(key, settled[key]))
    {
      NodeNumbers(key);
    }
  }

  /** Resolving is the address, then the fields, then the numbers. */
  lemma ResolvedBy(node: AFNode, generic: AFNode, section: string, number: nat)
    requires node.startIp.Some? && generic.startIp.Some?
    ensures
      var r := ValidateNode(node, generic, section, number);
      var address := if node.startIp.value != 0 then node.startIp.value else generic.startIp.value;
      var settled := Settle(node.text, generic.text, number);
      && (r.Success? <==> address != 0 && settled.Success? && FirstInvalid(settled.value, NODE_NUMBERS).None?)
      && (r.Success? ==> r.value == AFNode(Some(address), settled.value))
  {
    hide ValidateAttributes, ClearIfEmpty, FirstInvalid, REQUIRED_KEYS, BMC_KEYS, NODE_NUMBERS;
  }

  lemma ReadAll(file: Section, section: string, hostname: string)
    requires LoadNode(file, section).Success?
    ensures AllRead(file, section, LoadNode(file, section).value.text[Hostname := hostname])
    ensures Hostname in LoadNode(file, section).value.text
  {
    hide LoadNode;
    ReadSection(file, section, Hostname);
    var text := LoadNode(file, section).value.text[Hostname := hostname];
    forall key ensures IsRead(file, section, key, text) {
      ReadSection(file, section, key);
    }
  }

  lemma SettledIsLoaded(file: Section, section: string, number: nat, text: Fields, settled: Fields)
    requires IsSettled(file, section, text, settled) && CanLoad(file, section, number)
    requires Hostname in text && text[Hostname] != "" && IsLoadedHostname(file, section, number, text[Hostname])
    ensures LoadsFrom(file, section, number, AFNode(Some(LoadedAddress(file, section)), settled))
  {
    hide IsLoadedHostname, IsNumber, LoadedAddress, Parse;
    forall key | key in settled && key != MacAddress ensures settled[key] != "" {
      if key != Hostname {
        assert Field(settled, key) == LoadedText(file, section, key);
        assert IsRequired(key) ==> MustHave(file, section, key);
      }
    }
    forall key | key in settled && IsNumeric(key) ensures IsNumber(key, settled[key]) {
      assert Field(settled, key) == LoadedText(file, section, key);
    }
  }

  /**
   * A numbered section loads exactly when what must be there is there and numbers are numbers; the node then
   * has the section's own texts and address, and the generic ones where those are missing.
   */
  lemma SectionLoads(file: Section, generic: AFNode, section: string, number: nat)
    requires LoadGeneric(file) == Success(generic) && GenericShape(generic)
    requires Prefix in generic.text && Padding in generic.text && AllDigits(generic.text[Padding])
    ensures NodeOf(file, generic, section, number).Success? <==> CanLoad(file, section, number)
    ensures CanLoad(file, section, number) ==> LoadsFrom(file, section, number, NodeOf(file, generic, section, number).value)
  {
    hide LoadGeneric, GenericShape, LoadNode, GenerateHostname, ValidateNode, Settle, FirstInvalid, IsSettled, IsLoadedHostname;
    hide LoadsFrom, AllRead, MustHave, LoadedText, Parse, IsNumber;
    ReadSucceeds(file, section);
    if LoadNode(file, section).Success? {
      var node := LoadNode(file, section).value;
      NamedAs(file, node, generic, section, number);
      var named := GenerateHostname(node, generic, number);
      if named.Success? {
        var text := named.value.text;
        ReadAll(file, section, text[Hostname]);
        ReadSection(file, section, Hostname);
        SettledFields(file, section, generic, number, text);
        GenericAddress(file, generic);
        ResolvedBy(named.value, generic, section, number);
        var settled := Settle(text, generic.text, number);
        if settled.Success? {
          NumbersSettled(file, section, text, settled.value);
          if CanLoad(file, section, number) {
            SettledIsLoaded(file, section, number, text, settled.value);
          }
        }
      }
    }
  }

  lemma GenericAddress(file: Section, generic: AFNode)
    requires LoadGeneric(file) == Success(generic)
    ensures generic.startIp == Some(OwnAddress(file, "node"))
  {
    hide LoadGeneric, GENERIC_KEYS;
    GenericKeys();
    GenericOwn(file, Prefix);
  }

  /** Nothing else loads from a section. */
  lemma LoadsFromIsUnique(file: Section, section: string, number: nat, a: AFNode, b: AFNode)
    requires LoadsFrom(file, section, number, a) && LoadsFrom(file, section, number, b)
    ensures a == b
  {
    hide LoadedText, IsNumber, IsNumeral, Value, LoadedAddress;
    forall key ensures Field(a.text, key) == Field(b.text, key) {
      if key == Hostname {
        SameHostname(file, section, number, a.text[Hostname], b.text[Hostname]);
      } else {
        assert Field(a.text, key) == LoadedText(file, section, key) == Field(b.text, key);
      }
    }
    SameFields(a.text, b.text);
  }

  lemma SameFields(a: Fields, b: Fields)
    requires forall key :: Field(a, key) == Field(b, key)
    ensures a == b
  {
    forall key ensures key in a <==> key in b {
      assert Field(a, key) == Field(b, key);
    }
    forall key | key in a ensures a[key] == b[key] {
      assert Field(a, key) == Field(b, key);
    }
  }

  lemma SameHostname(file: Section, section: string, number: nat, a: string, b: string)
    requires IsLoadedHostname(file, section, number, a) && IsLoadedHostname(file, section, number, b)
    ensures a == b
  {
    hide IsNumeral, Value;
    if Own(file, section, Hostname) == "" {
      var prefix, width := Own(file, "node", Prefix), Value(Own(file, "node", Padding));
      var s :| a == prefix + s && IsNumeral(s, number, width);
      var u :| b == prefix + u && IsNumeral(u, number, width);
      NumeralIsPadded(s, number, width);
      NumeralIsPadded(u, number, width);
    }
  }

  lemma LoadedIsLoadable(file: Section, section: string, number: nat, node: AFNode)
    requires LoadsFrom(file, section, number, node)
    ensures CanLoad(file, section, number)
  {
    hide IsLoadedHostname, IsNumber, Parse, LoadedAddress, Effective;
    forall key | MustHave(file, section, key) ensures Effective(file, section, key) != "" {
      assert Field(node.text, key) == LoadedText(file, section, key) == Some(Effective(file, section, key));
    }
    forall key | IsNumeric(key) && LoadedText(file, section, key).Some?
      ensures IsNumber(key, LoadedText(file, section, key).value)
    {
      assert Field(node.text, key) == LoadedText(file, section, key);
    }
  }

  // ----- all sections

  /** The numbered sections, in the order of the file. */
  function Numbered(groups: seq<string>): seq<string> {
    if groups == [] then []
    else
      Numbered(groups[..|groups| - 1])
      + if NodeNumber(groups[|groups| - 1]).Some? then [groups[|groups| - 1]] else []
  }

  lemma {:induction false} NumberedHaveNumbers(groups: seq<string>, i: nat)
    requires i < |Numbered(groups)|
    ensures NodeNumber(Numbered(groups)[i]).Some?
  {
    hide NodeNumber;
    if i < |Numbered(groups[..|groups| - 1])| {
      NumberedHaveNumbers(groups[..|groups| - 1], i);
    }
  }

  /** The i-th node loads from the i-th numbered section. */
  ghost predicate LoadInOrder(file: Section, groups: seq<string>, nodes: seq<AFNode>) {
    && |nodes| == |Numbered(groups)|
    && forall i :: 0 <= i < |nodes| ==>
         && NodeNumber(Numbered(groups)[i]).Some?
         && LoadsFrom(file, Numbered(groups)[i], NodeNumber(Numbered(groups)[i]).value, nodes[i])
  }

  lemma {:induction false} PrefixLoads(file: Section, generic: AFNode, n: nat)
    requires n <= |file.groups| && LoadGeneric(file) == Success(generic) && GenericShape(generic)
    ensures LoadPrefix(file, generic, n).Success? <==>
      forall i :: 0 <= i < n && NodeNumber(file.groups[i]).Some? ==>
        CanLoad(file, file.groups[i], NodeNumber(file.groups[i]).value)
    ensures LoadPrefix(file, generic, n).Success? ==>
      LoadInOrder(file, file.groups[..n], LoadPrefix(file, generic, n).value)
  {
    hide LoadGeneric, GenericShape, NodeOf, CanLoad, LoadsFrom, NodeNumber;
    if n > 0 {
      PrefixLoads(file, generic, n - 1);
      assert file.groups[..n][..n - 1] == file.groups[..n - 1];
      var section := file.groups[n - 1];
      if NodeNumber(section).Some? {
        GenericPadding(generic);
        SectionLoads(file, generic, section, NodeNumber(section).value);
      }
    }
  }

  lemma {:induction false} SameOrder(file: Section, groups: seq<string>, a: seq<AFNode>, b: seq<AFNode>)
    requires LoadInOrder(file, groups, a) && LoadInOrder(file, groups, b)
    ensures a == b
  {
    hide LoadsFrom, NodeNumber, Numbered;
    forall i | 0 <= i < |a| ensures a[i] == b[i] {
      LoadsFromIsUnique(file, Numbered(groups)[i], NodeNumber(Numbered(groups)[i]).value, a[i], b[i]);
    }
  }

  lemma {:induction false} NumberedHolds(groups: seq<string>, i: nat) returns (k: nat)
    requires i < |groups| && NodeNumber(groups[i]).Some?
    ensures k < |Numbered(groups)| && Numbered(groups)[k] == groups[i]
  {
    hide NodeNumber;
    if i == |groups| - 1 {
      k := |Numbered(groups)| - 1;
    } else {
      k := NumberedHolds(groups[..|groups| - 1], i);
    }
  }

  /** The inventory that a file loads as, in terms of the entries: the generic node and, for each numbered section in order, its node. */
  lemma FileLoads(file: Section, inventory: Inventory)
    ensures Loads(file, inventory) <==>
      && GenericLoadsFrom(file, inventory.generic)
      && LoadInOrder(file, file.groups, inventory.nodes)
      && Distinct(inventory.nodes)
  {
    hide LoadGeneric, GenericShape, LoadPrefix, LoadInOrder, Distinct, GenericLoadsFrom, CanLoad;
    GenericLoads(file, inventory.generic);
    if LoadGeneric(file) == Success(inventory.generic) {
      LoadedGenericShape(file);
      PrefixLoads(file, inventory.generic, |file.groups|);
      assert file.groups[..|file.groups|] == file.groups;
      if LoadInOrder(file, file.groups, inventory.nodes) {
        AllCanLoad(file, inventory.nodes);
        SameOrder(file, file.groups, inventory.nodes, LoadPrefix(file, inventory.generic, |file.groups|).value);
      }
    }
  }

  lemma AllCanLoad(file: Section, nodes: seq<AFNode>)
    requires LoadInOrder(file, file.groups, nodes)
    ensures forall i :: 0 <= i < |file.groups| && NodeNumber(file.groups[i]).Some? ==>
      CanLoad(file, file.groups[i], NodeNumber(file.groups[i]).value)
  {
    hide LoadsFrom, CanLoad, NodeNumber, Numbered;
    forall i | 0 <= i < |file.groups| && NodeNumber(file.groups[i]).Some?
      ensures CanLoad(file, file.groups[i], NodeNumber(file.groups[i]).value)
    {
      var k := NumberedHolds(file.groups, i);
      LoadedIsLoadable(file, file.groups[i], NodeNumber(file.groups[i]).value, nodes[k]);
    }
  }

  /** What number a section has: its digits after an optional plus; after a minus the number wraps around, and zero is none. */
  lemma SectionNumbers(digits: string)
    requires digits != "" && AllDigits(digits) && 0 < Value(digits) < 0x1_0000_0000_0000_0000
    ensures NodeNumber("node." + digits) == Some(Value(digits))
    ensures NodeNumber("node." + ("+" + digits)) == Some(Value(digits))
    ensures NodeNumber("node." + ("-" + digits)) == Some(0x1_0000_0000_0000_0000 - Value(digits))
  {
    NumberAfterPrefix(digits);
    NumberAfterPrefix("+" + digits);
    NumberAfterPrefix("-" + digits);
    assert ("+" + digits)[1..] == digits && ("-" + digits)[1..] == digits;
    assert digits[0] != '+' && digits[0] != '-' by {
      assert IsDigit(digits[0]);
    }
  }

  lemma NumberAfterPrefix(text: string)
    ensures NodeNumber("node." + text) == match LexicalSize(text)
      case Some(n) => if n > 0 then Some(n) else None
      case None => None
  {
    hide LexicalSize;
    assert ("node." + text)[..5] == "node." && ("node." + text)[5..] == text;
  }

  /** Other sections have no number. */
  lemma NoOtherNumbers(section: string)
    requires NodeNumber(section).Some?
    ensures exists digits ::
      && digits != "" && AllDigits(digits)
      && (section == "node." + digits || section == "node." + ("+" + digits) || section == "node." + ("-" + digits))
  {
    var text := section[5..];
    assert section == "node." + text;
    var signed := text != "" && (text[0] == '-' || text[0] == '+');
    var digits := if signed then text[1..] else text;
    assert digits != "" && AllDigits(digits);
    if signed {
      assert text == [text[0]] + digits;
    }
  }
}
