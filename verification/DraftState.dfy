/** The metadata of a saved questionnaire: which steps were completed. */
module DraftState {
  import opened KeyFiles
  import opened Text
  import opened Wrappers

  predicate IsSeparator(c: char) {
    c == ',' || c == ' '
  }

  /** The fields between separators, adjacent separators counting as one. */
  function SplitCompressed(raw: string): (fields: seq<string>)
    ensures fields != []
  {
    if raw == "" then [""]
    else if !IsSeparator(raw[0]) then
      var rest := SplitCompressed(raw[1..]);
      [[raw[0]] + rest[0]] + rest[1..]
    else if |raw| > 1 && IsSeparator(raw[1]) then SplitCompressed(raw[1..])
    else [""] + SplitCompressed(raw[1..])
  }

  function NonEmptyOnes(fields: seq<string>): seq<string> {
    if fields == [] then []
    else (if fields[0] == "" then [] else [fields[0]]) + NonEmptyOnes(fields[1..])
  }

  function SplitValues(raw: string): seq<string> {
    NonEmptyOnes(SplitCompressed(raw))
  }

  predicate NoSeparator(s: string) {
    forall i :: 0 <= i < |s| ==> !IsSeparator(s[i])
  }

  predicate IsToken(s: string) {
    s != "" && NoSeparator(s)
  }

  predicate AllTokens(values: seq<string>) {
    forall i :: 0 <= i < |values| ==> IsToken(values[i])
  }

  function JoinValues(values: seq<string>): string {
    Join(values, ", ")
  }

  lemma {:induction false} SplitToken(token: string, rest: string)
    requires NoSeparator(token)
    ensures SplitCompressed(token) == [token]
    ensures rest != "" && !IsSeparator(rest[0]) ==>
      SplitCompressed(token + ", " + rest) == [token] + SplitCompressed(rest)
  {
    var raw := token + ", " + rest;
    if token == "" {
      if rest != "" && !IsSeparator(rest[0]) {
        assert raw[1..] == " " + rest;
        assert (" " + rest)[1..] == rest;
      }
    } else {
      assert raw[1..] == token[1..] + ", " + rest;
      SplitToken(token[1..], rest);
      assert [token[0]] + token[1..] == token;
    }
  }

  lemma {:induction false} SplitOfJoin(values: seq<string>)
    requires AllTokens(values)
    ensures SplitValues(JoinValues(values)) == values
    ensures values != [] ==> SplitCompressed(JoinValues(values)) == values
    ensures values != [] ==> JoinValues(values) != "" && !IsSeparator(JoinValues(values)[0])
  {
    if values == [] {
    } else {
      var rest := JoinValues(values[1..]);
      SplitOfJoin(values[1..]);
      SplitToken(values[0], rest);
      assert IsToken(values[0]);
      if |values| > 1 {
        assert JoinValues(values) == values[0] + ", " + rest;
      }
      NothingEmpty(values);
    }
  }

  lemma {:induction false} NothingEmpty(values: seq<string>)
    requires forall i :: 0 <= i < |values| ==> values[i] != ""
    ensures NonEmptyOnes(values) == values
  {
    if values != [] {
      NothingEmpty(values[1..]);
    }
  }

  lemma {:induction false} SplitFieldsHaveNoSeparator(raw: string)
    ensures forall i :: 0 <= i < |SplitCompressed(raw)| ==> NoSeparator(SplitCompressed(raw)[i])
  {
    if raw != "" {
      SplitFieldsHaveNoSeparator(raw[1..]);
    }
  }

  lemma {:induction false} NonEmptyMembers(fields: seq<string>)
    ensures forall i :: 0 <= i < |NonEmptyOnes(fields)| ==> NonEmptyOnes(fields)[i] != "" && NonEmptyOnes(fields)[i] in fields
  {
    if fields != [] {
      NonEmptyMembers(fields[1..]);
    }
  }

  lemma SplitGivesTokens(raw: string)
    ensures AllTokens(SplitValues(raw))
  {
    SplitFieldsHaveNoSeparator(raw);
    NonEmptyMembers(SplitCompressed(raw));
  }

  /** A list survives being joined and split exactly when it is made of tokens. */
  lemma SplitUndoesJoin(values: seq<string>)
    ensures SplitValues(JoinValues(values)) == values <==> AllTokens(values)
  {
    if AllTokens(values) {
      SplitOfJoin(values);
    }
    SplitGivesTokens(JoinValues(values));
  }

  /** Joining what was split normalises the text once and for all. */
  lemma JoinOfSplitIsIdempotent(raw: string)
    ensures
      var normal := JoinValues(SplitValues(raw));
      SplitValues(normal) == SplitValues(raw) && JoinValues(SplitValues(normal)) == normal
  {
    SplitGivesTokens(raw);
    SplitOfJoin(SplitValues(raw));
  }

  // ----- the metadata group

  const GROUP: string := "tui"
  const COMPLETED: string := "completed_steps"

  datatype State = State(draft: bool, completedSteps: seq<string>, lastCompletedStep: Option<string>)

  function OptionalString(file: KeyFile, group: string, key: string): Option<string> {
    match file.GetStringOpt(group, key)
    case Some(value) => if value == "" then None else Some(value)
    case None => None
  }

  function ParseBool(raw: string): bool {
    var normalized := Lower(raw);
    normalized == "1" || normalized == "true" || normalized == "yes"
  }

  function LoadDraftState(file: KeyFile): State {
    if GROUP !in file.entries then State(false, [], None)
    else
      State(
        match OptionalString(file, GROUP, "draft") case Some(text) => ParseBool(text) case None => false,
        match OptionalString(file, GROUP, COMPLETED) case Some(text) => SplitValues(text) case None => [],
        OptionalString(file, GROUP, "last_completed_step"))
  }

  /** The draft file once its metadata is saved over the model's own sections. */
  function WithMetadata(sections: KeyFile, steps: seq<string>, complete: bool, pendingDownload: Option<string>): (file: KeyFile)
    requires sections.Valid()
    ensures file.Valid()
  {
    var file1 := SetMetadata(sections, "format_version", "1");
    var file2 := SetMetadata(file1, "draft", if complete then "false" else "true");
    var file3 := SetMetadata(file2, COMPLETED, JoinValues(steps));
    var file4 :=
      if pendingDownload.Some? then SetMetadata(file3, "pending_disk_image_download_url", pendingDownload.value) else file3;
    if steps != [] then SetMetadata(file4, "last_completed_step", steps[|steps| - 1]) else file4
  }

  function SetMetadata(file: KeyFile, key: string, value: string): (r: KeyFile)
    requires file.Valid()
    ensures r.Valid()
  {
    file.SetString(GROUP, key, value)
  }

  lemma LookupAfterSet(file: KeyFile, key: string, value: string, other: string)
    requires file.Valid()
    ensures
      var r := SetMetadata(file, key, value);
      GROUP in r.entries && r.GetStringOpt(GROUP, other) == if other == key then Some(value) else file.GetStringOpt(GROUP, other)
  {
  }

  lemma MetadataKeysDiffer()
    ensures COMPLETED != "draft" && COMPLETED != "format_version" && COMPLETED != "last_completed_step"
    ensures COMPLETED != "pending_disk_image_download_url" && "draft" != "last_completed_step"
    ensures "draft" != "pending_disk_image_download_url"
    ensures "last_completed_step" != "pending_disk_image_download_url"
  {
    assert COMPLETED[0] == 'c';
  }

  /** What a saved draft reads back as. */
  lemma DraftReadsBack(sections: KeyFile, steps: seq<string>, complete: bool, pendingDownload: Option<string>)
    requires sections.Valid() && GROUP !in sections.entries && AllTokens(steps)
    ensures LoadDraftState(WithMetadata(sections, steps, complete, pendingDownload))
         == State(!complete, steps, if steps == [] then None else Some(steps[|steps| - 1]))
  {
    hide JoinValues, SplitValues, SplitCompressed, ParseBool, WithMetadata;
    var file := WithMetadata(sections, steps, complete, pendingDownload);
    MetadataReadsBack(sections, steps, complete, pendingDownload);
    SplitOfJoin(steps);
    DraftFlagReadsBack();
    if steps != [] {
      assert IsToken(steps[|steps| - 1]);
    } else {
      EmptyList();
    }
  }

  lemma EmptyList()
    ensures JoinValues([]) == ""
  {
  }

  lemma MetadataReadsBack(sections: KeyFile, steps: seq<string>, complete: bool, pendingDownload: Option<string>)
    requires sections.Valid() && GROUP !in sections.entries
    ensures
      var file := WithMetadata(sections, steps, complete, pendingDownload);
      && GROUP in file.entries
      && file.GetStringOpt(GROUP, COMPLETED) == Some(JoinValues(steps))
      && file.GetStringOpt(GROUP, "draft") == Some(if complete then "false" else "true")
      && file.GetStringOpt(GROUP, "last_completed_step") == if steps == [] then None else Some(steps[|steps| - 1])
  {
    hide JoinValues, SetMetadata;
    MetadataKeysDiffer();
    var last := "last_completed_step";
    var file1 := SetMetadata(sections, "format_version", "1");
    var file2 := SetMetadata(file1, "draft", if complete then "false" else "true");
    var file3 := SetMetadata(file2, COMPLETED, JoinValues(steps));
    LookupAfterSet(sections, "format_version", "1", last);
    LookupAfterSet(file1, "draft", if complete then "false" else "true", "draft");
    LookupAfterSet(file1, "draft", if complete then "false" else "true", last);
    LookupAfterSet(file2, COMPLETED, JoinValues(steps), "draft");
    LookupAfterSet(file2, COMPLETED, JoinValues(steps), COMPLETED);
    LookupAfterSet(file2, COMPLETED, JoinValues(steps), last);
    var file4 := if pendingDownload.Some? then SetMetadata(file3, "pending_disk_image_download_url", pendingDownload.value) else file3;
    if pendingDownload.Some? {
      LookupAfterSet(file3, "pending_disk_image_download_url", pendingDownload.value, "draft");
      LookupAfterSet(file3, "pending_disk_image_download_url", pendingDownload.value, COMPLETED);
      LookupAfterSet(file3, "pending_disk_image_download_url", pendingDownload.value, last);
    }
    if steps != [] {
      LookupAfterSet(file4, last, steps[|steps| - 1], "draft");
      LookupAfterSet(file4, last, steps[|steps| - 1], COMPLETED);
      LookupAfterSet(file4, last, steps[|steps| - 1], last);
    }
  }

  lemma DraftFlagReadsBack()
    ensures ParseBool("true") && !ParseBool("false")
  {
    assert Lower("true") == "true" && Lower("false") == "false";
    assert "false"[0] != "true"[0] && |"false"| != |"yes"|;
  }

  /** What a file says about a draft, in terms of its entries. */
  lemma LoadedState(file: KeyFile)
    ensures
      var entry := if "tui" in file.entries then file.entries["tui"] else map[];
      var state := LoadDraftState(file);
      && (state.draft <==> "draft" in entry && Lower(entry["draft"]) in {"1", "true", "yes"})
      && state.completedSteps == (if "completed_steps" in entry then SplitValues(entry["completed_steps"]) else [])
      && state.lastCompletedStep == (
           if "last_completed_step" in entry && entry["last_completed_step"] != ""
           then Some(entry["last_completed_step"]) else None)
  {
    assert SplitValues("") == [];
    assert Lower("") == "";
    hide SplitValues, Lower;
  }

  /** Splitting gives the longest runs of characters other than comma and blank. */
  lemma SplitTokens(raw: string)
    ensures forall v :: v in SplitValues(raw) ==> v != "" && ',' !in v && ' ' !in v
  {
    SplitGivesTokens(raw);
  }

  /** A list of step names survives a draft exactly when each is non-empty and free of commas and blanks. */
  lemma TokensByCharacter(values: seq<string>)
    ensures AllTokens(values) <==> forall v :: v in values ==> v != "" && ',' !in v && ' ' !in v
  {
    if forall v :: v in values ==> v != "" && ',' !in v && ' ' !in v {
      forall i | 0 <= i < |values| ensures IsToken(values[i]) {
        assert values[i] in values;
      }
    }
  }

  // ----- saving, in two writes

  /** One save of a draft: what the model dumps at that time, and the metadata. */
  datatype Save = Save(sections: KeyFile, steps: seq<string>, complete: bool, pendingDownload: Option<string>)

  ghost predicate Writable(saves: seq<Save>) {
    forall i :: 0 <= i < |saves| ==> saves[i].sections.Valid()
  }

  /** The model dumps no metadata of its own, and steps are named by tokens. */
  predicate ReadsBack(save: Save) {
    GROUP !in save.sections.entries && AllTokens(save.steps)
  }

  /** A save first replaces the file by the model's own sections, and then writes these again with the metadata. */
  function Writes(saves: seq<Save>): (files: seq<KeyFile>)
    requires Writable(saves)
    ensures |files| == 2 * |saves|
  {
    if saves == [] then []
    else
      var init, s := saves[..|saves| - 1], saves[|saves| - 1];
      Writes(init) + [s.sections, WithMetadata(s.sections, s.steps, s.complete, s.pendingDownload)]
  }

  /** The file once this many writes got through. */
  function FileAfter(file: KeyFile, writes: seq<KeyFile>, cut: nat): KeyFile
    requires cut <= |writes|
  {
    if cut == 0 then file else writes[cut - 1]
  }

  /** The draft on disk, and how many more writes get through before the program is cut off. */
  class DraftStore {
    var file: KeyFile
    var fuse: nat

    constructor (file: KeyFile, fuse: nat)
      ensures this.file == file && this.fuse == fuse
    {
      this.file, this.fuse := file, fuse;
    }

    method Replace(next: KeyFile) returns (ok: bool)
      modifies this
      ensures ok == (old(fuse) > 0)
      ensures file == if ok then next else old(file)
      ensures fuse == if ok then old(fuse) - 1 else 0
    {
      ok := fuse > 0;
      if ok {
        file, fuse := next, fuse - 1;
      }
    }

    method WriteDraft(save: Save) returns (ok: bool)
      requires save.sections.Valid()
      modifies this
      ensures ok == (old(fuse) >= 2)
      ensures file == FileAfter(old(file), Writes([save]), if ok then 2 else old(fuse))
    {
      OneSave(save);
      ok := Replace(save.sections);
      if ok {
        ok := Replace(WithMetadata(file, save.steps, save.complete, save.pendingDownload));
      }
    }
  }

  lemma OneSave(save: Save)
    requires save.sections.Valid()
    ensures Writes([save]) == [save.sections, WithMetadata(save.sections, save.steps, save.complete, save.pendingDownload)]
  {
    hide WithMetadata;
    assert [save][..0] == [];
    assert Writes([]) == [];
  }

  lemma {:induction false} WritesOfSave(saves: seq<Save>, k: nat)
    requires k < |saves| && Writable(saves)
    ensures Writes(saves)[2 * k] == saves[k].sections
    ensures Writes(saves)[2 * k + 1] == WithMetadata(saves[k].sections, saves[k].steps, saves[k].complete, saves[k].pendingDownload)
  {
    hide WithMetadata;
    if k < |saves| - 1 {
      WritesOfSave(saves[..|saves| - 1], k);
    }
  }

  /**
   * What a draft reads back as when it was cut off somewhere among its saves: as the last complete save,
   * or, between the two writes of a save, as no draft at all.
   */
  lemma CutDraftReadsBack(draft: KeyFile, saves: seq<Save>, cut: nat)
    requires cut <= 2 * |saves| && Writable(saves) && forall i :: 0 <= i < |saves| ==> ReadsBack(saves[i])
    ensures
      var state := LoadDraftState(FileAfter(draft, Writes(saves), cut));
      if cut == 0 then state == LoadDraftState(draft)
      else if cut % 2 == 1 then state == State(false, [], None)
      else
        var last := saves[cut / 2 - 1];
        state.draft == !last.complete && state.completedSteps == last.steps
  {
    hide LoadDraftState, WithMetadata, Writes;
    if cut > 0 && cut % 2 == 0 {
      var last := saves[cut / 2 - 1];
      WritesOfSave(saves, cut / 2 - 1);
      DraftReadsBack(last.sections, last.steps, last.complete, last.pendingDownload);
    } else if cut > 0 {
      WritesOfSave(saves, cut / 2);
      NoMetadata(saves[cut / 2].sections);
    }
  }

  lemma NoMetadata(file: KeyFile)
    requires GROUP !in file.entries
    ensures LoadDraftState(file) == State(false, [], None)
  {
  }
}
