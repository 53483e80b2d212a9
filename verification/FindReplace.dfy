/** Replacing every occurrence of a text, in place and from left to right. */
module FindReplace {
  import opened Text
  import opened Wrappers

  /** The text between the leftmost occurrences that do not overlap. */
  function Pieces(text: string, find: string): seq<string>
    requires find != ""
  {
    match FindFrom(text, find, 0)
    case None => [text]
    case Some(p) => [text[..p]] + Pieces(text[p + |find|..], find)
  }

  lemma {:induction false} PiecesExist(text: string, find: string)
    requires find != ""
    ensures Pieces(text, find) != []
  {
  }

  /** The pieces joined by the searched text are the text, and none of them contains it. */
  lemma {:induction false} PiecesRejoin(text: string, find: string)
    requires find != ""
    ensures Join(Pieces(text, find), find) == text
    ensures forall i :: 0 <= i < |Pieces(text, find)| ==> !Contains(Pieces(text, find)[i], find)
  {
    var found := FindFrom(text, find, 0);
    if found.Some? {
      var p := found.value;
      var rest := Pieces(text[p + |find|..], find);
      PiecesRejoin(text[p + |find|..], find);
      PiecesExist(text[p + |find|..], find);
      assert Pieces(text, find)[1..] == rest;
      assert text == text[..p] + find + text[p + |find|..];
      assert !Contains(text[..p], find) by {
        forall i: nat ensures !OccursAt(text[..p], find, i) {
          if i + |find| <= p {
            assert text[..p][i..i + |find|] == text[i..i + |find|];
            assert i < p && !OccursAt(text, find, i);
          }
        }
      }
    }
  }

  /** What replacing means: the same pieces, joined by the replacement. */
  function Replaced(text: string, find: string, replace: string): string
    requires find != ""
  {
    Join(Pieces(text, find), replace)
  }

  lemma ReplacedStep(text: string, find: string, replace: string)
    requires find != ""
    ensures
      match FindFrom(text, find, 0)
      case None => Replaced(text, find, replace) == text
      case Some(p) => Replaced(text, find, replace) == text[..p] + replace + Replaced(text[p + |find|..], find, replace)
  {
    var found := FindFrom(text, find, 0);
    if found.Some? {
      PiecesExist(text[found.value + |find|..], find);
      assert Pieces(text, find)[1..] == Pieces(text[found.value + |find|..], find);
    }
  }

  /** One turn of the loop: the edited text up to the new position, and the meaning of what is left, are unchanged. */
  lemma ReplaceOnce(result: string, find: string, replace: string, pos: nat, p: nat, next: string)
    requires find != "" && pos <= |result| && FindFrom(result, find, pos) == Some(p)
    requires next == result[..p] + replace + result[p + |find|..]
    ensures p + |replace| <= |next|
    ensures |next| - (p + |replace|) < |result| - pos
    ensures next[..p + |replace|] + Replaced(next[p + |replace|..], find, replace)
         == result[..pos] + Replaced(result[pos..], find, replace)
  {
    hide Replaced, FindFrom;
    FindInSuffix(result, find, pos, 0);
    ReplacedStep(result[pos..], find, replace);
    assert next[p + |replace|..] == result[p + |find|..];
    assert next[..p + |replace|] == result[..p] + replace;
    assert result[..p] == result[..pos] + result[pos..p];
    assert result[pos..][..p - pos] == result[pos..p];
    assert result[pos..][p - pos + |find|..] == result[p + |find|..];
    var rest := Replaced(result[p + |find|..], find, replace);
    assert result[..pos] + (result[pos..p] + replace + rest) == (result[..p] + replace) + rest;
  }

  /** When nothing is found any more, the rest stays as it is. */
  lemma ReplaceDone(result: string, find: string, replace: string, pos: nat)
    requires find != "" && pos <= |result| && FindFrom(result, find, pos) == None
    ensures result[..pos] + Replaced(result[pos..], find, replace) == result
  {
    hide Replaced, FindFrom;
    FindInSuffix(result, find, pos, 0);
    ReplacedStep(result[pos..], find, replace);
    assert result[..pos] + result[pos..] == result;
  }

  /** The loop edits the result behind a position that moves past each replacement. */
  method FindAndReplace(source: string, find: string, replace: string) returns (result: string)
    requires find != ""
    ensures result == Replaced(source, find, replace)
  {
    hide Replaced;
    result := source;
    var pos: nat := 0;
    assert source[0..] == source;
    assert [] + Replaced(source, find, replace) == Replaced(source, find, replace);
    var found := FindFrom(result, find, pos);
    while found.Some?
      invariant pos <= |result| && found == FindFrom(result, find, pos)
      invariant result[..pos] + Replaced(result[pos..], find, replace) == Replaced(source, find, replace)
      decreases |result| - pos
    {
      ghost var start := pos;
      pos := found.value;
      var next := result[..pos] + replace + result[pos + |find|..];
      ReplaceOnce(result, find, replace, start, pos, next);
      result := next;
      pos := pos + |replace|;
      found := FindFrom(result, find, pos);
    }
    ReplaceDone(result, find, replace, pos);
  }

  /** The replacement separates the pieces: no occurrence of the searched text can reach into it. */
  predicate Separates(find: string, replace: string) {
    && (forall c :: c in replace ==> c !in find)
    && (replace == "" ==> |find| == 1)
  }

  lemma OccurrenceAvoids(before: string, replace: string, after: string, find: string, i: nat)
    requires find != "" && Separates(find, replace) && OccursAt(before + replace + after, find, i)
    ensures OccursAt(before, find, i) || (i >= |before| + |replace| && OccursAt(after, find, i - |before| - |replace|))
  {
    var text, m := before + replace + after, |before| + |replace|;
    var shared := if i >= |before| then i else |before|;
    assert shared < m ==> text[shared] == replace[shared - |before|];
    forall j | i <= j < i + |find| ensures text[j] in find {
      assert text[j] == text[i..i + |find|][j - i];
    }
    if i + |find| <= |before| {
      assert before[i..i + |find|] == text[i..i + |find|];
    } else if i >= m {
      assert after[i - m..i - m + |find|] == text[i..i + |find|];
    }
  }

  lemma {:induction false} JoinedWithout(pieces: seq<string>, find: string, replace: string)
    requires find != "" && Separates(find, replace)
    requires forall i :: 0 <= i < |pieces| ==> !Contains(pieces[i], find)
    ensures !Contains(Join(pieces, replace), find)
  {
    if |pieces| == 1 {
      assert !Contains(pieces[0], find);
    } else if |pieces| > 1 {
      var before, after := pieces[0], Join(pieces[1..], replace);
      JoinedWithout(pieces[1..], find, replace);
      assert Join(pieces, replace) == before + replace + after;
      forall i: nat | OccursAt(before + replace + after, find, i)
        ensures OccursAt(before, find, i) || (i >= |before| + |replace| && OccursAt(after, find, i - |before| - |replace|))
      {
        OccurrenceAvoids(before, replace, after, find, i);
      }
      assert !Contains(before, find) && !Contains(after, find);
    }
  }

  /** One pass is enough when the replacement separates the pieces: nothing is left to find, and a second pass changes nothing. */
  lemma NothingLeftToFind(text: string, find: string, replace: string)
    requires find != "" && Separates(find, replace)
    ensures !Contains(Replaced(text, find, replace), find)
    ensures Replaced(Replaced(text, find, replace), find, replace) == Replaced(text, find, replace)
  {
    var result := Replaced(text, find, replace);
    PiecesRejoin(text, find);
    JoinedWithout(Pieces(text, find), find, replace);
    assert FindFrom(result, find, 0).None? ==> Pieces(result, find) == [result];
  }

  /** An empty search text is always found again: each turn of the loop leaves as much text as before. */
  lemma EmptySearchNeverStops(result: string, replace: string, pos: nat)
    requires pos <= |result|
    ensures FindFrom(result, "", pos) == Some(pos)
    ensures
      var next := result[..pos] + replace + result[pos..];
      && pos + |replace| <= |next|
      && |next| - (pos + |replace|) == |result| - pos
      && FindFrom(next, "", pos + |replace|) == Some(pos + |replace|)
  {
  }
}
