/** The step loop of the questionnaire, its drafts, and resuming from them. */
module Questionnaire {
  import opened DraftState
  import opened KeyFiles
  import opened Wrappers

  /** How the operator leaves a step. */
  datatype Outcome = Done | Back | Abort

  /** How a session ends: all steps done, stopped by the operator, or cut off between two steps. */
  datatype Ending = Finished | Aborted | Interrupted

  predicate DistinctSteps(steps: seq<string>) {
    forall i, j :: 0 <= i < j < |steps| ==> steps[i] != steps[j]
  }

  /** The first step that is not completed. */
  function StartIndex(steps: seq<string>, completed: set<string>): (i: nat)
    ensures i <= |steps|
    ensures forall k :: 0 <= k < i ==> steps[k] in completed
    ensures i < |steps| ==> steps[i] !in completed
  {
    if steps == [] || steps[0] !in completed then 0 else 1 + StartIndex(steps[1..], completed)
  }

  datatype Position = Position(index: nat, ending: Ending)

  /** Where the operator's answers lead: a counter is all there is to it. */
  function Walk(n: nat, index: nat, outcomes: seq<Outcome>): Position
    decreases |outcomes|
  {
    if index >= n then Position(index, Finished)
    else if outcomes == [] then Position(index, Interrupted)
    else
      match outcomes[0]
      case Done => Walk(n, index + 1, outcomes[1..])
      case Back => if index == 0 then Position(0, Aborted) else Walk(n, index - 1, outcomes[1..])
      case Abort => Position(index, Aborted)
  }

  /** The histories handed to the draft writer, in order. */
  function Saves(steps: seq<string>, index: nat, outcomes: seq<Outcome>): seq<seq<string>>
    requires index <= |steps|
    decreases |outcomes|
  {
    if index == |steps| || outcomes == [] then []
    else
      match outcomes[0]
      case Done => [steps[..index + 1]] + Saves(steps, index + 1, outcomes[1..])
      case Back => if index == 0 then [] else [steps[..index - 1]] + Saves(steps, index - 1, outcomes[1..])
      case Abort => []
  }

  function Resize(history: seq<string>, n: nat): seq<string> {
    if n <= |history| then history[..n] else history + seq(n - |history|, _ => "")
  }

  lemma ResizeSteps(steps: seq<string>, k: nat)
    requires 0 < k <= |steps|
    ensures Resize(steps[..k], k - 1) == steps[..k - 1]
  {
  }

  lemma SavedNext(saved: seq<seq<string>>, history: seq<string>, rest: seq<seq<string>>)
    ensures saved + ([history] + rest) == saved + [history] + rest
  {
  }

  /** Enter a completed step, whatever the history looks like. */
  method RecordStep(history: seq<string>, stepIndex: nat, name: string) returns (r: seq<string>)
    ensures |history| == stepIndex ==> r == history + [name]
    ensures r == Resize(history, stepIndex) + [name]
  {
    r := history;
    if |r| == stepIndex {
      r := r + [name];
    } else if |r| < stepIndex {
      r := Resize(r, stepIndex);
      r := r + [name];
    } else {
      r := Resize(r, stepIndex + 1);
      r := r[|r| - 1 := name];
    }
  }

  /** Skip the steps that a draft lists as completed. */
  method CompletedPrefix(steps: seq<string>, completed: set<string>) returns (startIndex: nat, history: seq<string>)
    ensures startIndex == StartIndex(steps, completed) <= |steps| && history == steps[..startIndex]
  {
    startIndex, history := 0, [];
    while startIndex < |steps| && steps[startIndex] in completed
      invariant 0 <= startIndex <= |steps|
      invariant history == steps[..startIndex]
      invariant StartIndex(steps, completed) == startIndex + StartIndex(steps[startIndex..], completed)
    {
      assert steps[startIndex..][1..] == steps[startIndex + 1..];
      history := history + [steps[startIndex]];
      startIndex := startIndex + 1;
    }
  }

  /**
   * One session of the questionnaire. At every loop head the history is the list of the first
   * stepIndex steps, so a completed step is always simply appended.
   */
  method RunQuestionnaire(steps: seq<string>, completed: set<string>, outcomes: seq<Outcome>)
    returns (ending: Ending, history: seq<string>, saved: seq<seq<string>>, ghost repaired: bool)
    ensures Position(|history|, ending) == Walk(|steps|, StartIndex(steps, completed), outcomes)
    ensures |history| <= |steps| && history == steps[..|history|]
    ensures saved == Saves(steps, StartIndex(steps, completed), outcomes)
    ensures ending.Finished? ==> history == steps
    ensures !repaired
  {
    hide StartIndex, Resize;
    saved, repaired := [], false;
    var startIndex;
    startIndex, history := CompletedPrefix(steps, completed);
    var stepIndex := startIndex;
    var next := 0;
    while stepIndex < |steps|
      invariant 0 <= stepIndex <= |steps| && 0 <= next <= |outcomes|
      invariant history == steps[..stepIndex] && !repaired
      invariant Walk(|steps|, startIndex, outcomes) == Walk(|steps|, stepIndex, outcomes[next..])
      invariant saved + Saves(steps, stepIndex, outcomes[next..]) == Saves(steps, startIndex, outcomes)
      decreases |outcomes| - next, |steps| - stepIndex
    {
      if next == |outcomes| {
        return Interrupted, history, saved, repaired;
      }
      assert outcomes[next..][1..] == outcomes[next + 1..];
      match outcomes[next] {
        case Done =>
          repaired := repaired || |history| != stepIndex;
          history := RecordStep(history, stepIndex, steps[stepIndex]);
          assert history == steps[..stepIndex + 1];
          SavedNext(saved, history, Saves(steps, stepIndex + 1, outcomes[next + 1..]));
          saved := saved + [history];
          stepIndex := stepIndex + 1;
        case Back =>
          if stepIndex == 0 {
            return Aborted, history, saved, repaired;
          }
          ResizeSteps(steps, stepIndex);
          history := Resize(history, stepIndex - 1);
          SavedNext(saved, history, Saves(steps, stepIndex - 1, outcomes[next + 1..]));
          saved := saved + [history];
          stepIndex := stepIndex - 1;
        case Abort =>
          return Aborted, history, saved, repaired;
      }
      next := next + 1;
    }
    ending := Finished;
  }

  // ----- the position as a count

  function Count(outcomes: seq<Outcome>, outcome: Outcome): nat {
    if outcomes == [] then 0 else (if outcomes[0] == outcome then 1 else 0) + Count(outcomes[1..], outcome)
  }

  /** While a session runs, its position is the start, plus one for each step done, less one for each step back. */
  lemma {:induction false} PositionIsCount(n: nat, index: nat, outcomes: seq<Outcome>)
    requires Walk(n, index, outcomes).ending.Interrupted?
    ensures Walk(n, index, outcomes).index == index + Count(outcomes, Done) - Count(outcomes, Back) < n
    ensures Count(outcomes, Abort) == 0
    decreases |outcomes|
  {
    if outcomes != [] {
      match outcomes[0] {
        case Done => PositionIsCount(n, index + 1, outcomes[1..]);
        case Back => PositionIsCount(n, index - 1, outcomes[1..]);
        case Abort =>
      }
    }
  }

  /** The answer that ends a session: the last step done, a stop, or a step back from the first one. */
  predicate Ends(n: nat, index: nat, outcome: Outcome, position: Position) {
    || (outcome.Done? && index == n - 1 && position == Position(n, Finished))
    || (outcome.Abort? && position == Position(index, Aborted))
    || (outcome.Back? && index == 0 && position == Position(0, Aborted))
  }

  /** A session runs on until the first answer that ends it, and stays where that leaves it. */
  lemma {:induction false} SessionEnds(n: nat, index: nat, outcomes: seq<Outcome>) returns (k: nat)
    requires index < n && !Walk(n, index, outcomes).ending.Interrupted?
    ensures k < |outcomes| && Walk(n, index, outcomes[..k]).ending.Interrupted?
    ensures Ends(n, Walk(n, index, outcomes[..k]).index, outcomes[k], Walk(n, index, outcomes))
    decreases |outcomes|
  {
    var rest := outcomes[1..];
    k := 0;
    match outcomes[0] {
      case Done =>
        if index + 1 < n {
          k := SessionEnds(n, index + 1, rest);
          k := k + 1;
          assert outcomes[..k][1..] == rest[..k - 1];
        }
      case Back =>
        if index > 0 {
          k := SessionEnds(n, index - 1, rest);
          k := k + 1;
          assert outcomes[..k][1..] == rest[..k - 1];
        }
      case Abort =>
    }
    if k == 0 {
      assert outcomes[..0] == [];
    }
  }

  // ----- resuming

  ghost function CompletedStepSet(steps: seq<string>): set<string> {
    set s | s in steps
  }

  lemma StartOfPrefix(steps: seq<string>, k: nat)
    requires DistinctSteps(steps) && k <= |steps|
    ensures StartIndex(steps, CompletedStepSet(steps[..k])) == k
  {
    var completed := CompletedStepSet(steps[..k]);
    forall j | 0 <= j < k ensures steps[j] in completed {
      assert steps[..k][j] == steps[j];
    }
    if k < |steps| {
      assert steps[k] !in steps[..k];
    }
  }

  lemma {:induction false} SavesFollowWalk(steps: seq<string>, index: nat, outcomes: seq<Outcome>, k: nat)
    requires index <= |steps| && k <= |Saves(steps, index, outcomes)|
    ensures k <= |outcomes|
    ensures
      var position := Walk(|steps|, index, outcomes[..k]);
      && position.index <= |steps| && !position.ending.Aborted?
      && (k > 0 ==> Saves(steps, index, outcomes)[k - 1] == steps[..position.index])
    decreases |outcomes|
  {
    if k > 0 {
      var rest := outcomes[1..];
      match outcomes[0] {
        case Done => SavesFollowWalk(steps, index + 1, rest, k - 1);
        case Back => SavesFollowWalk(steps, index - 1, rest, k - 1);
        case Abort =>
      }
      assert outcomes[..k][1..] == rest[..k - 1];
    }
  }

  /** What follows the last save does not move the position. */
  lemma {:induction false} NothingMovesUnsaved(steps: seq<string>, index: nat, outcomes: seq<Outcome>)
    requires index <= |steps|
    ensures
      var k := |Saves(steps, index, outcomes)|;
      k <= |outcomes| && Walk(|steps|, index, outcomes[..k]).index == Walk(|steps|, index, outcomes).index
    decreases |outcomes|
  {
    if index < |steps| && outcomes != [] {
      var rest, k := outcomes[1..], |Saves(steps, index, outcomes)|;
      match outcomes[0] {
        case Done =>
          NothingMovesUnsaved(steps, index + 1, rest);
          assert outcomes[..k][1..] == rest[..k - 1];
        case Back =>
          if index > 0 {
            NothingMovesUnsaved(steps, index - 1, rest);
            assert outcomes[..k][1..] == rest[..k - 1];
          }
        case Abort =>
      }
    }
  }

  /** What a session takes from the draft on disk: nothing unless it is marked as a draft. */
  function CompletedIn(draft: KeyFile): seq<string> {
    if LoadDraftState(draft).draft then LoadDraftState(draft).completedSteps else []
  }

  function ResumeIndex(steps: seq<string>, draft: KeyFile): (i: nat)
    ensures i <= |steps|
  {
    StartIndex(steps, set s | s in CompletedIn(draft))
  }

  /** What the model holds when the k-th save is made: its sections, and a download it still waits for. */
  type Dumps = nat -> (KeyFile, Option<string>)

  ghost predicate Dumpable(dumps: Dumps) {
    forall k :: dumps(k).0.Valid() && GROUP !in dumps(k).0.entries
  }

  function SaveOf(dumps: Dumps, k: nat, history: seq<string>, complete: bool): Save {
    Save(dumps(k).0, history, complete, dumps(k).1)
  }

  function StepSaves(dumps: Dumps, histories: seq<seq<string>>): seq<Save> {
    seq(|histories|, k requires 0 <= k < |histories| => SaveOf(dumps, k, histories[k], false))
  }

  /** All saves of a session: after each step, and once more when it was stopped or has finished. */
  function SessionSaves(draft: KeyFile, dumps: Dumps, steps: seq<string>, outcomes: seq<Outcome>): seq<Save> {
    var start := ResumeIndex(steps, draft);
    var histories := Saves(steps, start, outcomes);
    var last := if histories == [] then CompletedIn(draft) else histories[|histories| - 1];
    var ending := Walk(|steps|, start, outcomes).ending;
    StepSaves(dumps, histories)
    + if ending.Interrupted? then [] else [SaveOf(dumps, |histories|, last, ending.Finished?)]
  }

  /** The draft on disk when a session is cut off after this many writes. */
  function DraftAfter(draft: KeyFile, dumps: Dumps, steps: seq<string>, outcomes: seq<Outcome>, cut: nat): KeyFile
    requires Writable(SessionSaves(draft, dumps, steps, outcomes))
    requires cut <= 2 * |SessionSaves(draft, dumps, steps, outcomes)|
  {
    FileAfter(draft, Writes(SessionSaves(draft, dumps, steps, outcomes)), cut)
  }

  /** The position after the first k saves of a session; a completed questionnaire is not resumed. */
  function IndexAt(draft: KeyFile, steps: seq<string>, outcomes: seq<Outcome>, k: nat): nat {
    var start := ResumeIndex(steps, draft);
    if k <= |Saves(steps, start, outcomes)| && k <= |outcomes| then Walk(|steps|, start, outcomes[..k]).index
    else if Walk(|steps|, start, outcomes).ending.Finished? then 0
    else Walk(|steps|, start, outcomes).index
  }

  lemma {:induction false} TokensOfPrefix(steps: seq<string>, k: nat)
    requires AllTokens(steps) && k <= |steps|
    ensures AllTokens(steps[..k])
  {
    forall i | 0 <= i < k ensures IsToken(steps[..k][i]) {
      assert steps[..k][i] == steps[i];
    }
  }

  lemma LoadedStepsAreTokens(draft: KeyFile)
    ensures AllTokens(CompletedIn(draft))
  {
    if GROUP in draft.entries && OptionalString(draft, GROUP, COMPLETED).Some? {
      SplitGivesTokens(OptionalString(draft, GROUP, COMPLETED).value);
    }
  }

  /** The steps of every save are tokens, and those of an incomplete one lead back to its position. */
  lemma SavedSteps(draft: KeyFile, dumps: Dumps, steps: seq<string>, outcomes: seq<Outcome>, k: nat)
    requires DistinctSteps(steps) && AllTokens(steps)
    requires k < |SessionSaves(draft, dumps, steps, outcomes)|
    ensures
      var save := SessionSaves(draft, dumps, steps, outcomes)[k];
      && save == SaveOf(dumps, k, save.steps, save.complete)
      && AllTokens(save.steps)
      && IndexAt(draft, steps, outcomes, k + 1) == if save.complete then 0 else StartIndex(steps, set s | s in save.steps)
  {
    hide CompletedIn, StartIndex, Walk, Saves, AllTokens;
    var start := ResumeIndex(steps, draft);
    var histories := Saves(steps, start, outcomes);
    var n := |histories|;
    LoadedStepsAreTokens(draft);
    NothingMovesUnsaved(steps, start, outcomes);
    SavesFollowWalk(steps, start, outcomes, if k < n then k + 1 else n);
    var index := Walk(|steps|, start, outcomes[..if k < n then k + 1 else n]).index;
    TokensOfPrefix(steps, index);
    StartOfPrefix(steps, index);
    assert CompletedStepSet(steps[..index]) == set s | s in steps[..index];
    assert n == 0 ==> index == start by {
      NoAnswers(|steps|, start);
      assert outcomes[..0] == [];
    }
  }

  lemma NoAnswers(n: nat, index: nat)
    ensures Walk(n, index, []).index == index
  {
  }

  lemma SavesReadBack(draft: KeyFile, dumps: Dumps, steps: seq<string>, outcomes: seq<Outcome>)
    requires Dumpable(dumps) && DistinctSteps(steps) && AllTokens(steps)
    ensures
      var saves := SessionSaves(draft, dumps, steps, outcomes);
      Writable(saves) && forall k :: 0 <= k < |saves| ==> ReadsBack(saves[k])
  {
    hide SessionSaves, AllTokens, IndexAt, StartIndex;
    var saves := SessionSaves(draft, dumps, steps, outcomes);
    forall k | 0 <= k < |saves| ensures saves[k].sections.Valid() && ReadsBack(saves[k]) {
      SavedSteps(draft, dumps, steps, outcomes, k);
      assert dumps(k).0.Valid();
    }
  }

  /**
   * A session may be cut off anywhere, inside a save or between saves. Resuming from the draft it leaves
   * starts at the position of the last complete save, and at the first step if a save was cut in two:
   * the position is restored exactly when no save was cut in two, or when there is nothing to restore.
   */
  lemma CutRestoresPosition(draft: KeyFile, dumps: Dumps, steps: seq<string>, outcomes: seq<Outcome>, cut: nat)
    requires Dumpable(dumps) && DistinctSteps(steps) && AllTokens(steps)
    requires cut <= 2 * |SessionSaves(draft, dumps, steps, outcomes)|
    ensures Writable(SessionSaves(draft, dumps, steps, outcomes))
    ensures ResumeIndex(steps, DraftAfter(draft, dumps, steps, outcomes, cut))
         == if cut % 2 == 1 then 0 else IndexAt(draft, steps, outcomes, cut / 2)
    ensures ResumeIndex(steps, DraftAfter(draft, dumps, steps, outcomes, cut)) == IndexAt(draft, steps, outcomes, cut / 2)
      <==> cut % 2 == 0 || IndexAt(draft, steps, outcomes, cut / 2) == 0
  {
    hide SessionSaves, AllTokens, LoadDraftState, StartIndex, Writes, FileAfter, ReadsBack;
    var saves := SessionSaves(draft, dumps, steps, outcomes);
    SavesReadBack(draft, dumps, steps, outcomes);
    CutDraftReadsBack(draft, saves, cut);
    if cut == 0 {
      NoAnswers(|steps|, ResumeIndex(steps, draft));
      assert outcomes[..0] == [];
    } else if cut % 2 == 0 {
      SavedSteps(draft, dumps, steps, outcomes, cut / 2 - 1);
    }
    NothingCompleted(steps);
  }

  lemma NothingCompleted(steps: seq<string>)
    ensures StartIndex(steps, set s | s in []) == 0
  {
  }

  /** A session that was not cut off is resumed at the very step it ended at, unless it finished. */
  lemma ResumeRestoresPosition(draft: KeyFile, dumps: Dumps, steps: seq<string>, outcomes: seq<Outcome>)
    requires Dumpable(dumps) && DistinctSteps(steps) && AllTokens(steps)
    ensures Writable(SessionSaves(draft, dumps, steps, outcomes))
    ensures
      var all := 2 * |SessionSaves(draft, dumps, steps, outcomes)|;
      var end := Walk(|steps|, ResumeIndex(steps, draft), outcomes);
      ResumeIndex(steps, DraftAfter(draft, dumps, steps, outcomes, all)) == if end.ending.Finished? then 0 else end.index
  {
    hide LoadDraftState, StartIndex, DraftAfter, Saves, Walk, AllTokens, CompletedIn;
    NothingMovesUnsaved(steps, ResumeIndex(steps, draft), outcomes);
    CutRestoresPosition(draft, dumps, steps, outcomes, 2 * |SessionSaves(draft, dumps, steps, outcomes)|);
  }

  /** Walking on from where a walk paused is walking on. */
  lemma {:induction false} WalkOn(n: nat, index: nat, first: seq<Outcome>, second: seq<Outcome>)
    requires !Walk(n, index, first).ending.Aborted?
    ensures Walk(n, Walk(n, index, first).index, second) == Walk(n, index, first + second)
    decreases |first|
  {
    if first == [] {
      assert first + second == second;
    } else if index < n {
      assert (first + second)[1..] == first[1..] + second;
      match first[0] {
        case Done => WalkOn(n, index + 1, first[1..], second);
        case Back => WalkOn(n, index - 1, first[1..], second);
        case Abort =>
      }
    }
  }

  /** Being cut off outside a save and resumed leads where the answers saved by then and the later ones lead. */
  lemma InterruptionIsTransparent(draft: KeyFile, dumps: Dumps, steps: seq<string>,
                                  first: seq<Outcome>, second: seq<Outcome>, k: nat)
    requires Dumpable(dumps) && DistinctSteps(steps) && AllTokens(steps)
    requires k <= |Saves(steps, ResumeIndex(steps, draft), first)|
    ensures k <= |first| && k <= |SessionSaves(draft, dumps, steps, first)|
    ensures Writable(SessionSaves(draft, dumps, steps, first))
    ensures
      var resumed := DraftAfter(draft, dumps, steps, first, 2 * k);
      Walk(|steps|, ResumeIndex(steps, resumed), second) == Walk(|steps|, ResumeIndex(steps, draft), first[..k] + second)
  {
    hide LoadDraftState, StartIndex, DraftAfter, Saves, Walk, AllTokens, CompletedIn;
    var start := ResumeIndex(steps, draft);
    SavesFollowWalk(steps, start, first, k);
    CutRestoresPosition(draft, dumps, steps, first, 2 * k);
    WalkOn(|steps|, start, first[..k], second);
  }

  // ----- the steps that are shipped

  const STEPS: seq<string> :=
    ["general", "time", "locale", "hostname", "networking", "os", "provisioner", "ohpc", "repositories",
     "nodes", "queue", "mail", "preflight"]

  lemma ShippedSteps()
    ensures AllTokens(STEPS)
    ensures DistinctSteps(STEPS)
  {
  }

  /**
   * The shipped questionnaire, two steps completed, and the program cut off inside the second save: the last
   * complete save was made after the first step, but the next session starts over.
   */
  lemma LostSession(dumps: Dumps)
    requires Dumpable(dumps)
    ensures
      var saves := SessionSaves(EMPTY, dumps, STEPS, [Done, Done]);
      && |saves| == 2 && Writable(saves) && saves[0].steps == ["general"]
      && IndexAt(EMPTY, STEPS, [Done, Done], 1) == 1
      && ResumeIndex(STEPS, DraftAfter(EMPTY, dumps, STEPS, [Done, Done], 3)) == 0
  {
    hide STEPS, AllTokens, DistinctSteps, DraftAfter;
    ShippedSteps();
    FirstSteps();
    var outcomes := [Done, Done];
    NoMetadata(EMPTY);
    NothingCompleted(STEPS);
    assert ResumeIndex(STEPS, EMPTY) == 0;
    assert outcomes[1..] == [Done] && outcomes[1..][1..] == [] && outcomes[..1] == [Done] && [Done][1..] == [];
    assert Saves(STEPS, 1, [Done]) == [STEPS[..2]] + Saves(STEPS, 2, []);
    assert Saves(STEPS, 0, outcomes) == [STEPS[..1]] + Saves(STEPS, 1, [Done]);
    assert Walk(|STEPS|, 0, [Done]) == Walk(|STEPS|, 1, []);
    assert Walk(|STEPS|, 0, outcomes) == Walk(|STEPS|, 1, [Done]) == Walk(|STEPS|, 2, []);
    CutRestoresPosition(EMPTY, dumps, STEPS, outcomes, 3);
  }

  lemma FirstSteps()
    ensures |STEPS| == 13 && STEPS[..1] == ["general"]
  {
  }
}
