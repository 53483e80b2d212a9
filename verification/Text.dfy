/** Searching and splitting text, the way the standard library calls of the program do. */
module Text {
  import opened Wrappers

  predicate OccursAt(text: string, find: string, i: nat) {
    i + |find| <= |text| && text[i..i + |find|] == find
  }

  predicate Contains(text: string, find: string) {
    exists i: nat :: i <= |text| && OccursAt(text, find, i)
  }

  /** The first occurrence at or after a position. */
  function FindFrom(text: string, find: string, pos: nat): (r: Option<nat>)
    ensures r.Some? ==> pos <= r.value && OccursAt(text, find, r.value)
    ensures r.Some? ==> forall i: nat :: pos <= i < r.value ==> !OccursAt(text, find, i)
    ensures r.None? ==> forall i: nat :: pos <= i ==> !OccursAt(text, find, i)
    decreases |text| + 1 - pos
  {
    if pos > |text| then None
    else if OccursAt(text, find, pos) then Some(pos)
    else FindFrom(text, find, pos + 1)
  }

  lemma {:induction false} FindInSuffix(text: string, find: string, pos: nat, skip: nat)
    requires pos <= |text| && skip <= |text| - pos + 1
    ensures
      match FindFrom(text[pos..], find, skip)
      case None => FindFrom(text, find, pos + skip).None?
      case Some(p) => FindFrom(text, find, pos + skip) == Some(pos + p)
    decreases |text| + 1 - pos - skip
  {
    if pos + skip <= |text| {
      var here := OccursAt(text[pos..], find, skip);
      if skip + |find| <= |text| - pos {
        assert text[pos..][skip..skip + |find|] == text[pos + skip..pos + skip + |find|];
      }
      assert here == OccursAt(text, find, pos + skip);
      if !here {
        FindInSuffix(text, find, pos, skip + 1);
      }
    }
  }

  /** The text up to the first newline. */
  function FirstLine(text: string): string {
    if text == "" || text[0] == '\n' then "" else [text[0]] + FirstLine(text[1..])
  }

  /** A line read back is the line written exactly when it held no newline. */
  lemma {:induction false} FirstLineOfLine(line: string)
    ensures FirstLine(line + "\n") == line <==> '\n' !in line
    ensures '\n' !in FirstLine(line + "\n")
  {
    if line != "" {
      assert (line + "\n")[1..] == line[1..] + "\n";
      FirstLineOfLine(line[1..]);
      assert line == [line[0]] + line[1..];
      if line[0] != '\n' {
        assert ([line[0]] + FirstLine(line[1..] + "\n"))[1..] == FirstLine(line[1..] + "\n");
      }
    } else {
      assert "" + "\n" == "\n";
    }
  }

  function LowerChar(c: char): char {
    if 'A' <= c <= 'Z' then (c as int + 32) as char else c
  }

  function Lower(text: string): string {
    seq(|text|, i requires 0 <= i < |text| => LowerChar(text[i]))
  }

  predicate IsSpace(c: char) {
    c == ' ' || '\t' as int <= c as int <= '\r' as int
  }

  /** The text without the white space at either end. */
  function Trim(text: string): string {
    if text == "" then text
    else if IsSpace(text[0]) then Trim(text[1..])
    else if IsSpace(text[|text| - 1]) then Trim(text[..|text| - 1])
    else text
  }

  /** Trimming takes white space off the ends and nothing else. */
  lemma {:induction false} TrimIsInner(text: string) returns (before: string, after: string)
    ensures text == before + Trim(text) + after
    ensures (forall c :: c in before ==> IsSpace(c)) && (forall c :: c in after ==> IsSpace(c))
    ensures Trim(text) != "" ==> !IsSpace(Trim(text)[0]) && !IsSpace(Trim(text)[|Trim(text)| - 1])
  {
    before, after := "", "";
    if text != "" {
      var last := |text| - 1;
      if IsSpace(text[0]) {
        before, after := TrimIsInner(text[1..]);
        before := [text[0]] + before;
      } else if IsSpace(text[last]) {
        before, after := TrimIsInner(text[..last]);
        after := after + [text[last]];
      }
    }
  }

  // ----- one separator character

  /** All fields between separators, empty ones included. */
  function SplitOn(text: string, c: char): (fields: seq<string>)
    ensures fields != []
  {
    if text == "" then [""]
    else
      var rest := SplitOn(text[1..], c);
      if text[0] == c then [""] + rest else [[text[0]] + rest[0]] + rest[1..]
  }

  function Join(parts: seq<string>, separator: string): string {
    if parts == [] then ""
    else if |parts| == 1 then parts[0]
    else parts[0] + separator + Join(parts[1..], separator)
  }

  lemma {:induction false} JoinLast(parts: seq<string>, last: string, separator: string)
    requires parts != []
    ensures Join(parts + [last], separator) == Join(parts, separator) + separator + last
  {
    assert (parts + [last])[1..] == parts[1..] + [last];
    if |parts| > 1 {
      JoinLast(parts[1..], last, separator);
    }
  }

  lemma {:induction false} SplitField(field: string, c: char, rest: string)
    requires c !in field
    ensures SplitOn(field, c) == [field]
    ensures SplitOn(field + [c] + rest, c) == [field] + SplitOn(rest, c)
  {
    var text := field + [c] + rest;
    if field == "" {
      assert text[1..] == rest;
    } else {
      assert text[1..] == field[1..] + [c] + rest;
      SplitField(field[1..], c, rest);
      assert [field[0]] + field[1..] == field;
    }
  }

  /** Fields without the separator are recovered from the joined text. */
  lemma {:induction false} SplitJoined(fields: seq<string>, c: char)
    requires fields != [] && forall i :: 0 <= i < |fields| ==> c !in fields[i]
    ensures SplitOn(Join(fields, [c]), c) == fields
  {
    if |fields| == 1 {
      SplitField(fields[0], c, "");
    } else {
      SplitJoined(fields[1..], c);
      SplitField(fields[0], c, Join(fields[1..], [c]));
      assert Join(fields, [c]) == fields[0] + [c] + Join(fields[1..], [c]);
      assert fields == [fields[0]] + fields[1..];
    }
  }

  /** No field contains the separator, and joining the fields again gives the text. */
  lemma {:induction false} JoinSplit(text: string, c: char)
    ensures Join(SplitOn(text, c), [c]) == text
    ensures forall i :: 0 <= i < |SplitOn(text, c)| ==> c !in SplitOn(text, c)[i]
  {
    if text != "" {
      JoinSplit(text[1..], c);
      var rest := SplitOn(text[1..], c);
      var fields := SplitOn(text, c);
      if text[0] == c {
        assert fields[1..] == rest;
        assert Join(fields, [c]) == "" + [c] + Join(rest, [c]);
      } else {
        assert fields[1..] == rest[1..];
        if |rest| > 1 {
          assert Join(fields, [c]) == [text[0]] + rest[0] + [c] + Join(rest[1..], [c]);
          assert Join(rest, [c]) == rest[0] + [c] + Join(rest[1..], [c]);
          assert [text[0]] + rest[0] + [c] + Join(rest[1..], [c]) == [text[0]] + Join(rest, [c]);
        }
      }
    }
  }
}
