/** Quoting a text for the shell, against the shell's own reading of quotes. */
module ShellQuote {
  import opened Text
  import opened Wrappers

  /** The quoting of one character: a single quote leaves the quotes, is quoted by double quotes, and reenters. */
  function QuotedChar(c: char): string {
    if c == '\'' then "'\"'\"'" else [c]
  }

  function QuotedBody(value: string): string {
    if value == "" then "" else QuotedBody(value[..|value| - 1]) + QuotedChar(value[|value| - 1])
  }

  function Quoted(value: string): string {
    "'" + QuotedBody(value) + "'"
  }

  predicate HasNewline(value: string) {
    '\n' in value || '\r' in value
  }

  method ShellSingleQuote(value: string) returns (r: Option<string>)
    ensures r == if HasNewline(value) then None else Some(Quoted(value))
  {
    var quoted := "'";
    var i := 0;
    while i < |value|
      invariant 0 <= i <= |value|
      invariant !HasNewline(value[..i])
      invariant quoted == "'" + QuotedBody(value[..i])
    {
      var chr := value[i];
      assert value[..i + 1][..i] == value[..i];
      if chr == '\'' {
        quoted := quoted + "'\"'\"'";
      } else if chr == '\n' || chr == '\r' {
        return None;
      } else {
        quoted := quoted + [chr];
      }
      i := i + 1;
    }
    assert value[..i] == value;
    return Some(quoted + "'");
  }

  // ----- the shell's reading (sections 2.2 and 2.3 of the POSIX.1-2017 Shell Command Language)

  datatype Mode = Plain | Single | Double

  predicate IsBlank(c: char) {
    c == ' ' || c == '\t'
  }

  /** Characters that mean something to the shell when they are not quoted. */
  predicate IsSpecial(c: char) {
    c in {'|', '&', ';', '<', '>', '(', ')', '$', '`', '\n', '*', '?', '[', ']', '#', '~', '=', '%', '!', '{', '}'}
  }

  /**
   * The literal words of a command line: blanks outside quotes separate words, quotes are removed.
   * There is no such list if a quote is left open or some character keeps a special meaning.
   */
  function Words(text: string, mode: Mode, word: Option<string>): Option<seq<string>> {
    if text == "" then
      if mode.Plain? then Some(if word.Some? then [word.value] else []) else None
    else
      var c, rest, current := text[0], text[1..], word.GetOr("");
      match mode
      case Plain =>
        if c == '\'' then Words(rest, Single, Some(current))
        else if c == '"' then Words(rest, Double, Some(current))
        else if IsBlank(c) then
          match Words(rest, Plain, None)
          case None => None
          case Some(words) => Some((if word.Some? then [word.value] else []) + words)
        else if c == '\\' then
          if rest == "" || rest[0] == '\n' then None else Words(rest[1..], Plain, Some(current + [rest[0]]))
        else if IsSpecial(c) then None
        else Words(rest, Plain, Some(current + [c]))
      case Single =>
        if c == '\'' then Words(rest, Plain, Some(current)) else Words(rest, Single, Some(current + [c]))
      case Double =>
        if c == '"' then Words(rest, Plain, Some(current))
        else if c == '$' || c == '`' then None
        else if c == '\\' && rest != "" && rest[0] in {'$', '`', '"', '\\'} then
          Words(rest[1..], Double, Some(current + [rest[0]]))
        else if c == '\\' && rest != "" && rest[0] == '\n' then Words(rest[1..], Double, Some(current))
        else Words(rest, Double, Some(current + [c]))
  }

  lemma OneQuotedChar(c: char, rest: string, current: string)
    ensures Words(QuotedChar(c) + rest, Single, Some(current)) == Words(rest, Single, Some(current + [c]))
  {
    if c == '\'' {
      var quote := "'\"'\"'";
      var t1, t2, t3, t4 := "\"'\"'" + rest, "'\"'" + rest, "\"'" + rest, "'" + rest;
      assert (quote + rest)[0] == '\'' && (quote + rest)[1..] == t1;
      assert t1[0] == '"' && t1[1..] == t2;
      assert t2[0] == '\'' && t2[1..] == t3;
      assert t3[0] == '"' && t3[1..] == t4;
      assert t4[0] == '\'' && t4[1..] == rest;
      assert Words(t2, Double, Some(current)) == Words(t3, Double, Some(current + [c]));
      assert Words(t4, Plain, Some(current + [c])) == Words(rest, Single, Some(current + [c]));
    } else {
      assert ([c] + rest)[0] == c && ([c] + rest)[1..] == rest;
    }
  }

  lemma {:induction false} QuotedBodyReads(value: string, rest: string, current: string)
    ensures Words(QuotedBody(value) + rest, Single, Some(current)) == Words(rest, Single, Some(current + value))
  {
    if value == "" {
      assert QuotedBody(value) + rest == rest && current + value == current;
    } else {
      var init, last := value[..|value| - 1], value[|value| - 1];
      assert QuotedBody(value) + rest == QuotedBody(init) + (QuotedChar(last) + rest);
      QuotedBodyReads(init, QuotedChar(last) + rest, current);
      OneQuotedChar(last, rest, current + init);
      assert current + init + [last] == current + value;
    }
  }

  /** Wherever it stands, the quoted text adds exactly the value to the current word and to nothing else. */
  lemma QuotedReads(value: string, rest: string, word: Option<string>)
    ensures Words(Quoted(value) + rest, Plain, word) == Words(rest, Plain, Some(word.GetOr("") + value))
  {
    var body := QuotedBody(value) + ("'" + rest);
    assert Quoted(value) + rest == "'" + body;
    assert ("'" + body)[0] == '\'' && ("'" + body)[1..] == body;
    QuotedBodyReads(value, "'" + rest, word.GetOr(""));
    assert ("'" + rest)[0] == '\'' && ("'" + rest)[1..] == rest;
  }

  /** The quoted text is one word, and that word is the value. */
  lemma QuotedIsOneWord(value: string)
    ensures Words(Quoted(value), Plain, None) == Some([value])
  {
    QuotedReads(value, "", None);
    assert Quoted(value) + "" == Quoted(value) && "" + value == value;
  }

  function QuotedAll(values: seq<string>): seq<string> {
    seq(|values|, i requires 0 <= i < |values| => Quoted(values[i]))
  }

  /** A command line of quoted arguments reads back as exactly those arguments, empty ones included. */
  lemma {:induction false} QuotedArguments(values: seq<string>)
    ensures Words(Join(QuotedAll(values), " "), Plain, None) == Some(values)
  {
    var quoted := QuotedAll(values);
    if values == [] {
    } else if |values| == 1 {
      assert quoted[0] == Quoted(values[0]) && values == [values[0]];
      QuotedIsOneWord(values[0]);
    } else {
      assert quoted[1..] == QuotedAll(values[1..]);
      var tail := Join(quoted[1..], " ");
      assert Join(quoted, " ") == Quoted(values[0]) + (" " + tail);
      QuotedReads(values[0], " " + tail, None);
      assert (" " + tail)[0] == ' ' && (" " + tail)[1..] == tail && "" + values[0] == values[0];
      QuotedArguments(values[1..]);
      assert Words(tail, Plain, None) == Some(values[1..]);
      assert Words(" " + tail, Plain, Some(values[0])) == Some([values[0]] + values[1..]);
      assert values == [values[0]] + values[1..];
    }
  }
}
