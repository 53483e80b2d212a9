/** Key files: groups in the order they were first written, each a table of raw strings. */
module KeyFiles {
  import opened Wrappers

  datatype KeyTable<K(==)> = KeyTable(groups: seq<string>, entries: map<string, map<K, string>>) {

    ghost predicate Valid() {
      && (forall i, j :: 0 <= i < j < |groups| ==> groups[i] != groups[j])
      && (forall g :: g in groups <==> g in entries)
    }

    function GetStringOpt(group: string, key: K): Option<string> {
      if group in entries && key in entries[group] then Some(entries[group][key]) else None
    }

    function SetString(group: string, key: K, value: string): (file: KeyTable<K>)
      requires Valid()
      ensures file.Valid()
      ensures file.entries == entries[group := Group(group)[key := value]]
      ensures file.groups == if group in entries then groups else groups + [group]
    {
      KeyTable(if group in entries then groups else groups + [group], entries[group := Group(group)[key := value]])
    }

    function Group(group: string): map<K, string> {
      if group in entries then entries[group] else map[]
    }
  }

  /** A key file whose keys are spelled out. */
  type KeyFile = KeyTable<string>

  const EMPTY: KeyFile := KeyTable([], map[])
}
