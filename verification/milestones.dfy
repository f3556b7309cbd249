/**
 * The milestones log: getFileContent's line reader, GetMilestones on top of
 * it, and LogMilestone's marker check. The file system and the RDK logger
 * are outside the model; the log file is a parameter.
 */
module Milestones {
  import opened Types
  import opened Text

  /** What opening the milestones log finds: no file, a file that cannot
      be opened for reading, or the file's text. */
  datatype LogFile = Missing | Unopenable | Present(text: string)

  /** A line std::getline can hand back: non-empty, without a newline. */
  predicate IsLine(t: string)
  {
    |t| > 0 && NoChar(t, '\n')
  }

  /** The piece t as getFileContent keeps it: dropped when empty. */
  function Keep(t: string): (r: seq<string>)
    ensures NoChar(t, '\n') ==> forall i :: 0 <= i < |r| ==> IsLine(r[i])
  {
    if |t| == 0 then [] else [t]
  }

  /** The lines getFileContent collects from `text`: the pieces between
      newlines, in order, with the empty ones dropped. The last piece counts
      whether or not a newline ends it. */
  function Lines(text: string): (r: seq<string>)
    ensures |r| <= |text|
    decreases |text|
  {
    match FindChar(text, '\n', 0)
    case None => Keep(text)
    case Some(i) => Keep(text[..i]) + Lines(text[i + 1..])
  }

  /** Every line read back is non-empty and holds no newline. */
  lemma {:induction false} LinesAreLines(text: string)
    ensures forall i :: 0 <= i < |Lines(text)| ==> IsLine(Lines(text)[i])
    decreases |text|
  {
    FindCharIsFirst(text, '\n', 0);
    match FindChar(text, '\n', 0)
    case None =>
    case Some(i) =>
      assert NoChar(text[..i], '\n');
      LinesAreLines(text[i + 1..]);
  }

  /** The first newline of a text splits it into a piece and the rest. */
  lemma FirstNewline(a: string, i: nat)
    requires FindChar(a, '\n', 0) == Some(i)
    ensures a == a[..i] + "\n" + a[i + 1..] && NoChar(a[..i], '\n')
    ensures Lines(a) == Keep(a[..i]) + Lines(a[i + 1..])
  {
    FindCharIsFirst(a, '\n', 0);
  }

  /** Regrouping around two newlines. */
  lemma Regroup(head: string, tail: string, b: string)
    ensures (head + "\n" + tail) + "\n" + b == head + "\n" + (tail + "\n" + b)
  {
  }

  lemma AppendAssoc<T>(a: seq<T>, b: seq<T>, c: seq<T>)
    ensures (a + b) + c == a + (b + c)
  {
  }

  /** Where the reader finds the first newline of piece + "\n" + rest, and
      what lies on either side of it. */
  lemma PieceThenNewline(piece: string, rest: string)
    requires NoChar(piece, '\n')
    ensures FindChar(piece + "\n" + rest, '\n', 0) == Some(|piece|)
    ensures (piece + "\n" + rest)[..|piece|] == piece
    ensures (piece + "\n" + rest)[|piece| + 1..] == rest
  {
    var t := piece + "\n" + rest;
    forall j | 0 <= j < |piece|
      ensures t[j] != '\n'
    {
      assert t[j] == piece[j];
    }
    FindCharAt(t, '\n', 0, |piece|);
  }

  /** A piece without a newline, then a newline: the reader keeps the piece
      if it is non-empty and carries on after the newline. */
  lemma LinesAfterPiece(piece: string, rest: string)
    requires NoChar(piece, '\n')
    ensures Lines(piece + "\n" + rest) == Keep(piece) + Lines(rest)
  {
    PieceThenNewline(piece, rest);
  }

  /** A text without a newline is one piece. */
  lemma LinesOfPiece(piece: string)
    requires NoChar(piece, '\n')
    ensures Lines(piece) == Keep(piece)
  {
  }

  /** An empty text has no lines. */
  lemma LinesEmpty()
    ensures Lines("") == []
  {
    assert FindChar("", '\n', 0) == None;
  }

  /** A newline splits the lines: the lines of a + "\n" + b are those of a
      followed by those of b. */
  lemma {:induction false} LinesSplit(a: string, b: string)
    ensures Lines(a + "\n" + b) == Lines(a) + Lines(b)
    decreases |a|
  {
    match FindChar(a, '\n', 0)
    case None =>
      FindCharIsFirst(a, '\n', 0);
      LinesAfterPiece(a, b);
      LinesOfPiece(a);
    case Some(i) =>
      var head, tail := a[..i], a[i + 1..];
      FirstNewline(a, i);
      Regroup(head, tail, b);
      LinesAfterPiece(head, tail + "\n" + b);
      LinesSplit(tail, b);
      AppendAssoc(Keep(head), Lines(tail), Lines(b));
  }

  /** The log text the lines are written as, each followed by a newline. */
  function Join(lines: seq<string>): string
  {
    if |lines| == 0 then "" else lines[0] + "\n" + Join(lines[1..])
  }

  /** Writing lines out and reading them back gives the same lines, in
      order and with duplicates kept. */
  lemma {:induction false} JoinRoundTrip(lines: seq<string>)
    requires forall i :: 0 <= i < |lines| ==> IsLine(lines[i])
    ensures Lines(Join(lines)) == lines
    decreases |lines|
  {
    if |lines| == 0 {
      LinesEmpty();
    } else {
      LinesAfterPiece(lines[0], Join(lines[1..]));
      JoinRoundTrip(lines[1..]);
      assert [lines[0]] + lines[1..] == lines;
    }
  }

  /** The reader meets a newline: the piece read so far is kept if
      non-empty and a new piece starts after the newline. */
  lemma NewlineStep(done: seq<string>, current: string, text: string, i: nat)
    requires i < |text| && text[i] == '\n' && NoChar(current, '\n')
    requires done + Lines(current + text[i..]) == Lines(text)
    ensures (done + Keep(current)) + Lines("" + text[i + 1..]) == Lines(text)
  {
    NewlineAt(current, text, i);
    LinesAfterPiece(current, text[i + 1..]);
    AppendAssoc(done, Keep(current), Lines(text[i + 1..]));
  }

  lemma NewlineAt(current: string, text: string, i: nat)
    requires i < |text| && text[i] == '\n'
    ensures current + text[i..] == current + "\n" + text[i + 1..]
    ensures "" + text[i + 1..] == text[i + 1..]
  {
    assert text[i..] == "\n" + text[i + 1..];
  }

  /** The reader meets any other character: it joins the current piece. */
  lemma CharStep(current: string, text: string, i: nat)
    requires i < |text| && text[i] != '\n' && NoChar(current, '\n')
    ensures NoChar(current + [text[i]], '\n')
    ensures current + text[i..] == (current + [text[i]]) + text[i + 1..]
  {
    assert text[i..] == [text[i]] + text[i + 1..];
  }

  /** At the end of the text the last piece is kept if non-empty. */
  lemma LastStep(done: seq<string>, current: string, text: string)
    requires NoChar(current, '\n')
    requires done + Lines(current + text[|text|..]) == Lines(text)
    ensures done + Keep(current) == Lines(text)
  {
    assert current + text[|text|..] == current;
    LinesOfPiece(current);
  }

  /** getFileContent: false when the file cannot be opened; otherwise true
      with every non-empty line of the file, read character by character as
      std::getline does. */
  method GetFileContent(file: LogFile) returns (ok: bool, lines: seq<string>)
    ensures ok <==> file.Present?
    ensures ok ==> lines == Lines(file.text)
    ensures !ok ==> lines == []
  {
    if !file.Present? {
      return false, [];
    }
    var text := file.text;
    lines := [];
    var current := "";
    var i := 0;
    assert current + text[i..] == text;
    while i < |text|
      invariant 0 <= i <= |text|
      invariant NoChar(current, '\n')
      invariant lines + Lines(current + text[i..]) == Lines(text)
      decreases |text| - i
    {
      if text[i] == '\n' {
        NewlineStep(lines, current, text, i);
        lines := lines + Keep(current);
        current := "";
      } else {
        CharStep(current, text, i);
        current := current + [text[i]];
      }
      i := i + 1;
    }
    LastStep(lines, current, text);
    lines := lines + Keep(current);
    ok := true;
  }

  /** The reply of GetMilestones: its code, its success flag and the
      milestones iterator (None where the source leaves it unset). */
  datatype MilestonesReply = MilestonesReply(code: HResult, success: bool, milestones: Option<seq<string>>)

  /** GetMilestones: fails with ERROR_GENERAL when the log is missing or
      cannot be read; otherwise succeeds with the log's non-empty lines. */
  method GetMilestones(file: LogFile) returns (r: MilestonesReply)
    ensures r.success <==> file.Present?
    ensures r.success ==> r.code == ErrorNone && r.milestones == Some(Lines(file.text))
    ensures !r.success ==> r.code == ErrorGeneral && r.milestones == None
    ensures r.success ==> forall i :: 0 <= i < |r.milestones.value| ==> IsLine(r.milestones.value[i])
  {
    LinesAreLines(if file.Present? then file.text else "");
    if file.Missing? {
      return MilestonesReply(ErrorGeneral, false, None);
    }
    var ok, lines := GetFileContent(file);
    if !ok {
      return MilestonesReply(ErrorGeneral, false, None);
    }
    r := MilestonesReply(ErrorNone, true, Some(lines));
  }

  /** The reply of LogMilestone, with the marker handed to the RDK logger
      (None when it is not called). */
  datatype LogReply = LogReply(code: HResult, success: bool, logged: Option<string>)

  /** LogMilestone: an empty marker is refused; any other marker is handed
      to the logger when the logger is compiled in, and the call succeeds
      either way. */
  function LogMilestone(marker: string, loggerCompiled: bool): (r: LogReply)
    ensures r.success <==> |marker| > 0
    ensures r.code == ErrorNone <==> r.success
    ensures r.logged.Some? <==> r.success && loggerCompiled
    ensures r.logged.Some? ==> r.logged.value == marker
  {
    if |marker| == 0 then LogReply(ErrorGeneral, false, None)
    else LogReply(ErrorNone, true, if loggerCompiled then Some(marker) else None)
  }

  /** The log after the logger appends `entry`, one line per marker, as the
      integration test's logger writes it. */
  function Appended(text: string, entry: Option<string>): string
  {
    if entry.Some? then text + entry.value + "\n" else text
  }

  /** The text of one line on its own. */
  lemma LinesOfLine(line: string)
    requires IsLine(line)
    ensures Lines(line + "\n") == [line]
  {
    assert line + "\n" + "" == line + "\n";
    LinesAfterPiece(line, "");
    LinesEmpty();
  }

  /** A text ending in a newline is the text before that newline, then the
      newline; and so it stays with a line appended. */
  lemma CompleteText(text: string, line: string)
    requires |text| > 0 && text[|text| - 1] == '\n'
    ensures text == text[..|text| - 1] + "\n" + ""
    ensures text + line + "\n" == text[..|text| - 1] + "\n" + (line + "\n")
  {
    assert text == text[..|text| - 1] + "\n";
  }

  /** A line appended to a log whose last line is complete comes back
      after all the earlier lines. */
  lemma AppendLine(text: string, line: string)
    requires |text| == 0 || text[|text| - 1] == '\n'
    requires IsLine(line)
    ensures Lines(text + line + "\n") == Lines(text) + [line]
  {
    if |text| == 0 {
      AppendToEmpty(text, line);
    } else {
      AppendToComplete(text, line);
    }
  }

  lemma AppendToEmpty(text: string, line: string)
    requires |text| == 0 && IsLine(line)
    ensures Lines(text + line + "\n") == Lines(text) + [line]
  {
    LinesOfLine(line);
    LinesEmpty();
    assert text + line + "\n" == line + "\n";
  }

  lemma AppendToComplete(text: string, line: string)
    requires |text| > 0 && text[|text| - 1] == '\n' && IsLine(line)
    ensures Lines(text + line + "\n") == Lines(text) + [line]
  {
    CompleteText(text, line);
    AppendAfterNewline(text[..|text| - 1], line);
  }

  /** AppendLine for a log whose text before its final newline is `a`. */
  lemma AppendAfterNewline(a: string, line: string)
    requires IsLine(line)
    ensures Lines(a + "\n" + (line + "\n")) == Lines(a + "\n" + "") + [line]
  {
    LinesOfLine(line);
    LinesEmpty();
    LinesSplit(a, line + "\n");
    LinesSplit(a, "");
  }

  /** A marker logged onto a log whose last line is complete comes back as
      the last milestone, after all the earlier ones. */
  lemma LoggedMarkerIsLast(text: string, marker: string)
    requires |text| == 0 || text[|text| - 1] == '\n'
    requires IsLine(marker)
    ensures LogMilestone(marker, true).success
    ensures Lines(Appended(text, LogMilestone(marker, true).logged)) == Lines(text) + [marker]
  {
    assert Appended(text, LogMilestone(marker, true).logged) == text + marker + "\n";
    AppendLine(text, marker);
  }

  /** An empty marker is refused and nothing reaches the log. */
  lemma EmptyMarkerLeavesLog(text: string, loggerCompiled: bool)
    ensures !LogMilestone("", loggerCompiled).success
    ensures LogMilestone("", loggerCompiled).code == ErrorGeneral
    ensures Appended(text, LogMilestone("", loggerCompiled).logged) == text
  {
  }
}
