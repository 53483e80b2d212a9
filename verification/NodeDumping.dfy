/** What dumping the nodes leaves in each entry of the file. */
module NodeDumping {
  import opened Decimal
  import opened Ipv4Text
  import opened KeyFiles
  import opened NodeInventory
  import opened NodeLoading
  import opened NodeRoundTrip
  import opened Wrappers

  /** An entry that a node writes: its address, its text under a key that is written, and otherwise what was there. */
  function Written(file: Section, section: string, key: Key, node: AFNode, isWritten: bool): Option<string> {
    if key.NodeIp? && node.startIp.Some? then Some(Print(node.startIp.value))
    else if isWritten && key in node.text then Some(node.text[key])
    else file.GetStringOpt(section, key)
  }

  predicate IsNodeKey(key: Key) {
    !(key.Prefix? || key.Padding? || key.NodeIp?)
  }

  predicate IsGenericKey(key: Key) {
    !(key.NodeIp? || key.Hostname? || key.MacAddress? || key.BmcAddress?)
  }

  lemma NodeKey(key: Key)
    ensures key in NODE_KEYS <==> IsNodeKey(key)
  {
    assert NODE_KEYS[0] == Hostname && NODE_KEYS[1] == MacAddress && NODE_KEYS[2] == RootPassword;
    assert NODE_KEYS[3] == Sockets && NODE_KEYS[4] == CoresPerSocket && NODE_KEYS[5] == ThreadsPerCore;
    assert NODE_KEYS[6] == CpusPerNode && NODE_KEYS[7] == RealMemory && NODE_KEYS[8] == BmcAddress;
    assert NODE_KEYS[9] == BmcUsername && NODE_KEYS[10] == BmcPassword;
    assert NODE_KEYS[11] == BmcSerialport && NODE_KEYS[12] == BmcSerialspeed;
  }

  lemma PutEntry(file: Section, section: string, keys: seq<Key>, node: AFNode, other: string, key: Key)
    requires file.Valid() && NodeIp !in keys
    ensures PutNode(file, section, keys, node).GetStringOpt(other, key) ==
      if other == section then Written(file, section, key, node, key in keys) else file.GetStringOpt(other, key)
  {
    hide PutAll, Print, Restrict;
    PutAllWrites(file, section, keys, node.text);
    RestrictAt(node.text, keys, key);
  }

  lemma RestrictAt(text: Fields, keys: seq<Key>, key: Key)
    ensures key in Restrict(text, keys) <==> key in text && key in keys
    ensures key in text && key in keys ==> Restrict(text, keys)[key] == text[key]
  {
  }

  /** Each section that dumping reaches has the entries of its node, and no other entry changes. */
  lemma {:induction false} DumpedEntry(
    file: Section, generic: Option<AFNode>, nodes: seq<AFNode>, n: nat, section: string, key: Key)
    requires file.Valid() && n <= |nodes|
    ensures
      var r := DumpPrefix(file, generic, nodes, n).GetStringOpt(section, key);
      && (section == "node" ==>
            r == if generic.Some? then Written(file, section, key, generic.value, IsGenericKey(key)) else file.GetStringOpt(section, key))
      && (forall k: nat :: 1 <= k <= n && section == SectionName(k) ==>
            r == Written(file, section, key, nodes[k - 1], IsNodeKey(key)))
      && (section != "node" && (forall k: nat :: 1 <= k <= n ==> section != SectionName(k)) ==>
            r == file.GetStringOpt(section, key))
  {
    hide GENERIC_KEYS, NODE_KEYS, PutNode, SectionName, Written;
    MoreGenericKeys(key);
    MoreGenericKeys(NodeIp);
    NodeKey(key);
    NodeKey(NodeIp);
    forall k: nat ensures SectionName(k) != "node" && (SectionName(k) == SectionName(n) <==> k == n) {
      SectionNamesDiffer(k, n);
    }
    if n == 0 {
      if generic.Some? {
        PutEntry(file, GENERIC, GENERIC_KEYS, generic.value, section, key);
      }
    } else {
      DumpedEntry(file, generic, nodes, n - 1, section, key);
      var before := DumpPrefix(file, generic, nodes, n - 1);
      PutEntry(before, SectionName(n), NODE_KEYS, nodes[n - 1], section, key);
      if section == SectionName(n) {
        SameBefore(before, file, section, key, nodes[n - 1]);
      }
    }
  }

  lemma SameBefore(before: Section, file: Section, section: string, key: Key, node: AFNode)
    requires before.GetStringOpt(section, key) == file.GetStringOpt(section, key)
    ensures Written(before, section, key, node, IsNodeKey(key)) == Written(file, section, key, node, IsNodeKey(key))
  {
  }

  /** A number without zeros in front of it. */
  predicate IsPlain(digits: string) {
    digits != "" && AllDigits(digits) && digits[0] != '0'
  }

  /**
   * After dumping, the section "node." and i (counted from one) has the entries of the i-th node, the section
   * "node" those of the generic node if there is one, and every other entry is as it was.
   */
  lemma DumpedByName(file: Section, generic: Option<AFNode>, nodes: seq<AFNode>, section: string, key: Key)
    requires file.Valid()
    ensures
      var r := DumpPrefix(file, generic, nodes, |nodes|).GetStringOpt(section, key);
      && (section == "node" && generic.Some? ==> r == Written(file, section, key, generic.value, IsGenericKey(key)))
      && (forall digits :: section == "node." + digits && IsPlain(digits) && Value(digits) <= |nodes| ==>
            && Value(digits) > 0
            && r == Written(file, section, key, nodes[Value(digits) - 1], IsNodeKey(key)))
      && ((section == "node" ==> generic.None?)
          && (forall digits :: section == "node." + digits && IsPlain(digits) ==> Value(digits) > |nodes|)
          ==> r == file.GetStringOpt(section, key))
  {
    hide DumpPrefix, Written;
    DumpedEntry(file, generic, nodes, |nodes|, section, key);
    forall digits | section == "node." + digits && IsPlain(digits)
      ensures Value(digits) > 0 && section == SectionName(Value(digits))
    {
      PlainIsDec(digits);
    }
    forall k: nat | 1 <= k && section == SectionName(k)
      ensures section == "node." + Dec(k) && IsPlain(Dec(k)) && Value(Dec(k)) == k
    {
      DecValue(k);
    }
  }
}
