/** `trim_newline`: the line-ending strip applied to the radius line before
    it is parsed. */
module TextInput {

  predicate EndsWith(s: string, c: char)
  {
    |s| > 0 && s[|s| - 1] == c
  }

  /** Remove one trailing '\n' and then at most one '\r' before it. */
  function TrimNewline(s: string): (r: string)
    ensures r <= s
    ensures |s| - 2 <= |r|
    ensures !EndsWith(s, '\n') ==> r == s
    ensures EndsWith(s, '\n') ==> |r| < |s|
  {
    if EndsWith(s, '\n') then
      var t := s[..|s| - 1];
      if EndsWith(t, '\r') then t[..|t| - 1] else t
    else s
  }

  /** The strip undoes a Windows or Unix line ending appended to a line. */
  lemma TrimNewlineUndoesLineEnding(line: string)
    ensures TrimNewline(line + "\r\n") == line
    ensures !EndsWith(line, '\r') ==> TrimNewline(line + "\n") == line
  {
    var crlf := line + "\r\n";
    assert crlf[..|crlf| - 1] == line + "\r";
    assert (line + "\r")[..|line|] == line;
    var lf := line + "\n";
    assert lf[..|lf| - 1] == line;
  }

  /** Only the one line ending is stripped: a second '\n' or '\r' stays. */
  lemma TrimNewlineStripsOnce(line: string)
    ensures TrimNewline(line + "\n\n") == line + "\n"
    ensures TrimNewline(line + "\r\r\n") == line + "\r"
  {
    var a := line + "\n\n";
    assert a[..|a| - 1] == line + "\n";
    var b := line + "\r\r\n";
    assert b[..|b| - 1] == line + "\r\r";
    assert (line + "\r\r")[..|line| + 1] == line + "\r";
  }
}
