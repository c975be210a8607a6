/** The console's line editor, `uart_readline`, on a stream of received characters. */
module LineEditor {

  const MAX := 128  // CLI_INPUT_LINE_LEN_MAX

  predicate IsEol(c: char) {
    c == '\n' || c == '\r' || c == '\0'
  }

  predicate IsErase(c: char) {
    c == '\U{08}' || c == '\U{7F}'
  }

  predicate IsInterrupt(c: char) {
    c == '\U{03}'
  }

  predicate IsPlain(c: char) {
    !IsEol(c) && !IsErase(c) && !IsInterrupt(c)
  }

  /** The characters that are stored: all but the six the editor acts on. */
  lemma PlainIs(c: char)
    ensures IsPlain(c) <==> c !in {'\n', '\r', '\0', '\U{08}', '\U{7F}', '\U{03}'}
  {
  }

  predicate AllPlain(s: string) {
    forall i :: 0 <= i < |s| ==> IsPlain(s[i])
  }

  // ---------------------------------------------------------------------------
  // Specification: a fold over the stream
  // ---------------------------------------------------------------------------

  /** A finished line, a line that filled the buffer, or a line still being typed. */
  datatype Edited = Line(text: string, rest: string) | Full(rest: string) | Typing(text: string)

  function Edit(stream: string, line: string): (e: Edited)
    ensures e.Line? || e.Full? ==> |e.rest| < |stream|
    decreases |stream|
  {
    if stream == [] then Typing(line)
    else
      var c, rest := stream[0], stream[1..];
      if IsEol(c) then
        if line == [] then Edit(rest, []) else Line(line, rest)
      else if IsErase(c) then
        Edit(rest, if line == [] then [] else line[..|line| - 1])
      else if IsInterrupt(c) then Edit(rest, [])
      else if |line| + 1 == MAX then Full(rest)
      else Edit(rest, line + [c])
  }

  /** A finished line is never empty, always shorter than the buffer and free of the
      characters that the editor acts on. */
  lemma {:induction false} EditedLine(stream: string, line: string)
    requires |line| < MAX && AllPlain(line)
    ensures var e := Edit(stream, line); e.Line? ==> 0 < |e.text| < MAX && AllPlain(e.text)
    decreases |stream|
  {
    if stream != [] {
      var c, rest := stream[0], stream[1..];
      if IsEol(c) {
        if line == [] {
          EditedLine(rest, []);
        }
      } else if IsErase(c) {
        EditedLine(rest, if line == [] then [] else line[..|line| - 1]);
      } else if IsInterrupt(c) {
        EditedLine(rest, []);
      } else if |line| + 1 < MAX {
        EditedLine(rest, line + [c]);
      }
    }
  }

  /** Plain characters are taken as they come. */
  lemma {:induction false} EditPlain(text: string, rest: string, line: string)
    requires AllPlain(text) && |line| + |text| < MAX
    ensures Edit(text + rest, line) == Edit(rest, line + text)
    decreases |text|
  {
    if text == [] {
      assert text + rest == rest && line + text == line;
    } else {
      assert (text + rest)[1..] == text[1..] + rest;
      assert line + [text[0]] + text[1..] == line + text;
      EditPlain(text[1..], rest, line + [text[0]]);
    }
  }

  /** Typing a character and erasing it, with backspace or DEL, leaves no trace, as long as
      it fitted. */
  lemma EraseUndoes(c: char, rest: string, line: string)
    requires IsPlain(c) && |line| + 1 < MAX
    ensures Edit([c, '\U{08}'] + rest, line) == Edit(rest, line)
    ensures Edit([c, '\U{7F}'] + rest, line) == Edit(rest, line)
  {
    assert IsErase('\U{08}') && IsErase('\U{7F}');
    hide Edit;
    Erased(c, '\U{08}', rest, line);
    Erased(c, '\U{7F}', rest, line);
  }

  lemma Erased(c: char, erase: char, rest: string, line: string)
    requires IsPlain(c) && IsErase(erase) && |line| + 1 < MAX
    ensures Edit([c, erase] + rest, line) == Edit(rest, line)
  {
    var s := [c, erase] + rest;
    assert s[1..] == [erase] + rest && s[1..][1..] == rest;
    assert (line + [c])[..|line|] == line;
  }

  /** On an empty line there is nothing to erase. */
  lemma EraseOnEmpty(rest: string)
    ensures Edit(['\U{08}'] + rest, []) == Edit(['\U{7F}'] + rest, []) == Edit(rest, [])
  {
    assert (['\U{08}'] + rest)[1..] == rest && (['\U{7F}'] + rest)[1..] == rest;
  }

  /** Line feed, carriage return and NUL each end a line that is not empty, and are skipped
      on one that is. */
  lemma EndCharacters(rest: string, line: string)
    ensures line != [] ==> Edit(['\n'] + rest, line) == Edit(['\r'] + rest, line) == Edit(['\0'] + rest, line) == Line(line, rest)
    ensures Edit(['\n'] + rest, []) == Edit(['\r'] + rest, []) == Edit(['\0'] + rest, []) == Edit(rest, [])
  {
    assert (['\n'] + rest)[1..] == rest && (['\r'] + rest)[1..] == rest && (['\0'] + rest)[1..] == rest;
  }

  /** An interrupt forgets everything typed before it on the line. */
  lemma InterruptClears(text: string, rest: string, line: string)
    requires AllPlain(text) && |line| + |text| < MAX
    ensures Edit(text + ['\U{03}'] + rest, line) == Edit(rest, [])
  {
    assert text + ['\U{03}'] + rest == text + (['\U{03}'] + rest);
    EditPlain(text, ['\U{03}'] + rest, line);
    assert (['\U{03}'] + rest)[1..] == rest;
  }

  // ---------------------------------------------------------------------------
  // uart_readline
  // ---------------------------------------------------------------------------

  /** The loop over received characters. `waiting` is a line that has not ended when the
      stream does; otherwise the result is the length, 0 for a line that filled the buffer,
      and `used` characters were taken. */
  method ReadLine(buffer: array<char>, stream: string) returns (waiting: bool, length: nat, used: nat)
    requires buffer.Length == MAX
    modifies buffer
    ensures used <= |stream|
    ensures waiting <==> Edit(stream, []).Typing?
    ensures !waiting ==> Edit(stream, []).rest == stream[used..]
    ensures !waiting && length > 0 ==>
              && length < MAX && Edit(stream, []) == Line(buffer[..length], stream[used..])
              && buffer[length] == '\0' && AllPlain(buffer[..length])
    ensures !waiting && length > 0 ==>
              && length < 128
              && forall i :: 0 <= i < length ==> buffer[i] !in {'\n', '\r', '\0', '\U{08}', '\U{7F}', '\U{03}'}
    ensures !waiting && length == 0 ==> Edit(stream, []).Full?
  {
    var index, done := 0, false;
    length, used, waiting := 0, 0, false;
    buffer[MAX - 1] := '\0';
    assert stream[0..] == stream && buffer[..0] == [];
    while index < MAX && !done
      invariant index <= MAX && used <= |stream|
      invariant !done && index < MAX ==> Edit(stream, []) == Edit(stream[used..], buffer[..index]) && length == 0
      invariant !done && index == MAX ==> Edit(stream, []) == Full(stream[used..]) && length == 0
      invariant done ==> 0 < length < MAX && Edit(stream, []) == Line(buffer[..length], stream[used..]) && buffer[length] == '\0'
      decreases |stream| - used, !done
    {
      if used == |stream| {
        waiting := true;
        return;
      }
      var c := stream[used];
      ghost var line := buffer[..index];
      assert stream[used..][1..] == stream[used + 1..];
      buffer[index] := c;
      assert buffer[..index] == line;
      used := used + 1;
      if IsEol(c) {
        buffer[index] := '\0';
        if index > 0 {
          length, done := index, true;
        }
      } else if IsErase(c) {
        if index > 0 {
          buffer[index] := '\0';
          buffer[index - 1] := '\0';
          index := index - 1;
          assert buffer[..index] == line[..index];
        }
      } else if IsInterrupt(c) {
        index := 0;
      } else {
        index := index + 1;
        assert buffer[..index] == line + [c];
      }
    }
    EditedLine(stream, []);
    if done {
      forall i | 0 <= i < length
        ensures buffer[i] !in {'\n', '\r', '\0', '\U{08}', '\U{7F}', '\U{03}'}
      {
        assert IsPlain(buffer[..length][i]);
        PlainIs(buffer[i]);
      }
    }
  }

  // ---------------------------------------------------------------------------
  // A stream of lines
  // ---------------------------------------------------------------------------

  /** The lines that repeated calls deliver; a line that fills the buffer counts as empty. */
  function Lines(stream: string): seq<string>
    decreases |stream|
  {
    match Edit(stream, [])
    case Line(text, rest) => [text] + Lines(rest)
    case Full(rest) => [""] + Lines(rest)
    case Typing(_) => []
  }

  predicate Typable(line: string) {
    0 < |line| < MAX && AllPlain(line)
  }

  function Joined(lines: seq<string>): string {
    if lines == [] then "" else lines[0] + "\r\n" + Joined(lines[1..])
  }

  lemma LineFeedIgnored(rest: string)
    ensures Lines("\n" + rest) == Lines(rest)
  {
    assert ("\n" + rest)[1..] == rest;
  }

  lemma OneLine(line: string, rest: string)
    requires Typable(line)
    ensures Lines(line + "\r\n" + rest) == [line] + Lines(rest)
  {
    var tail := "\r\n" + rest;
    assert line + "\r\n" + rest == line + tail;
    EditPlain(line, tail, []);
    assert [] + line == line;
    assert tail[1..] == "\n" + rest;
    LineFeedIgnored(rest);
  }

  /** Text printed with CR LF line ends comes back line by line. */
  lemma {:induction false} LinesOfJoined(lines: seq<string>)
    requires forall i :: 0 <= i < |lines| ==> Typable(lines[i])
    ensures Lines(Joined(lines)) == lines
  {
    if lines != [] {
      OneLine(lines[0], Joined(lines[1..]));
      LinesOfJoined(lines[1..]);
    }
  }
}
