/** Command lines of the CLI: looking up the command, counting and splitting the arguments
    in place, and fetching one parameter. A line is the text before its terminator. */
module CliTokens {
  import opened Basics

  predicate NoNul(s: string) {
    forall i :: 0 <= i < |s| ==> s[i] != '\0'
  }

  // ---------------------------------------------------------------------------
  // Words of a line
  // ---------------------------------------------------------------------------

  /** The first position from `i` on that is not a space. */
  function SkipSpaces(s: string, i: nat): (j: nat)
    requires i <= |s|
    ensures i <= j <= |s| && (j < |s| ==> s[j] != ' ')
    ensures forall k :: i <= k < j ==> s[k] == ' '
    decreases |s| - i
  {
    if i < |s| && s[i] == ' ' then SkipSpaces(s, i + 1) else i
  }

  /** The first position from `i` on that is a space or the end. */
  function WordEnd(s: string, i: nat): (j: nat)
    requires i <= |s|
    ensures i <= j <= |s| && (j < |s| ==> s[j] == ' ')
    ensures forall k :: i <= k < j ==> s[k] != ' '
    decreases |s| - i
  {
    if i < |s| && s[i] != ' ' then WordEnd(s, i + 1) else i
  }

  /** Where the words from `i` on begin. */
  function Starts(s: string, i: nat): (r: seq<nat>)
    requires i <= |s|
    ensures forall k :: 0 <= k < |r| ==> i <= r[k] < |s| && s[r[k]] != ' '
    decreases |s| - i
  {
    var j := SkipSpaces(s, i);
    if j == |s| then [] else [j] + Starts(s, WordEnd(s, j))
  }

  function Word(s: string, j: nat): string
    requires j <= |s|
  {
    s[j..WordEnd(s, j)]
  }

  /** The space-separated words of a line. */
  function Tokens(s: string): (t: seq<string>)
    ensures |t| == |Starts(s, 0)|
  {
    var starts := Starts(s, 0);
    seq(|starts|, k requires 0 <= k < |starts| => Word(s, starts[k]))
  }

  /** After a word, one space may be skipped before looking for the next. */
  lemma StartsAfterSpace(s: string, i: nat)
    requires i < |s| && s[i] == ' '
    ensures Starts(s, i) == Starts(s, i + 1)
  {
  }

  lemma {:induction false} StartsTail(s: string, i: nat, m: nat)
    requires i <= |s| && m < |Starts(s, i)|
    ensures Starts(s, i)[m + 1..] == Starts(s, WordEnd(s, Starts(s, i)[m]))
    decreases |s| - i
  {
    hide SkipSpaces;
    var j := SkipSpaces(s, i);
    var rest := Starts(s, WordEnd(s, j));
    assert Starts(s, i) == [j] + rest;
    if m > 0 {
      StartsTail(s, WordEnd(s, j), m - 1);
      assert ([j] + rest)[m + 1..] == rest[m..] && ([j] + rest)[m] == rest[m - 1];
    }
  }

  // ---------------------------------------------------------------------------
  // Counting
  // ---------------------------------------------------------------------------

  /** A character that ends a word: not a space, and a space or the end follows. */
  predicate EndsWord(s: string, i: nat)
    requires i < |s|
  {
    s[i] != ' ' && (i + 1 == |s| || s[i + 1] == ' ')
  }

  function CountEnds(s: string, i: nat): nat
    requires i <= |s|
    decreases |s| - i
  {
    if i == |s| then 0 else (if EndsWord(s, i) then 1 else 0) + CountEnds(s, i + 1)
  }

  lemma {:induction false} CountSkipsSpaces(s: string, i: nat)
    requires i <= |s|
    ensures CountEnds(s, i) == CountEnds(s, SkipSpaces(s, i))
    decreases |s| - i
  {
    if i < |s| && s[i] == ' ' {
      CountSkipsSpaces(s, i + 1);
    }
  }

  lemma {:induction false} CountWord(s: string, i: nat)
    requires i < |s| && s[i] != ' '
    ensures CountEnds(s, i) == 1 + CountEnds(s, WordEnd(s, i))
    decreases |s| - i
  {
    if i + 1 < |s| && s[i + 1] != ' ' {
      CountWord(s, i + 1);
    }
  }

  /** The words that end are as many as the words that start. */
  lemma {:induction false} CountIsWords(s: string, i: nat)
    requires i <= |s|
    ensures CountEnds(s, i) == |Starts(s, i)|
    decreases |s| - i
  {
    var j := SkipSpaces(s, i);
    CountSkipsSpaces(s, i);
    if j < |s| {
      CountWord(s, j);
      CountIsWords(s, WordEnd(s, j));
    }
  }

  /** prvGetNumberOfArgs */
  method GetNumberOfArgs(line: string) returns (count: nat)
    ensures count == |Tokens(line)|
  {
    count := 0;
    for i := 0 to |line|
      invariant count + CountEnds(line, i) == CountEnds(line, 0)
    {
      if EndsWord(line, i) {
        count := count + 1;
      }
    }
    CountIsWords(line, 0);
  }

  // ---------------------------------------------------------------------------
  // Looking up the command
  // ---------------------------------------------------------------------------

  predicate CommandName(name: string) {
    name != "" && ' ' !in name
  }

  /** The test of prvFindMatchingCommand. */
  predicate Matches(name: string, line: string) {
    name <= line && (|name| == |line| || line[|name|] == ' ')
  }

  /** A command matches exactly the lines that begin, without leading space, with it as
      their first word. */
  lemma MatchesFirstWord(name: string, line: string)
    requires CommandName(name)
    ensures Matches(name, line) <==> line != "" && line[0] != ' ' && Tokens(line) != [] && Tokens(line)[0] == name
  {
    assert name[0] in name;
    if line != "" && line[0] != ' ' {
      assert SkipSpaces(line, 0) == 0;
      assert Starts(line, 0)[0] == 0;
      var e := WordEnd(line, 0);
      assert Tokens(line)[0] == line[..e];
      if Matches(name, line) {
        assert forall k :: 0 <= k < |name| ==> line[k] == name[k] && name[k] in name;
        WordEndIs(line, 0, |name|);
        assert line[..e] == name;
      }
    }
  }

  lemma {:induction false} WordEndIs(s: string, i: nat, e: nat)
    requires i <= e <= |s| && (e < |s| ==> s[e] == ' ')
    requires forall k :: i <= k < e ==> s[k] != ' '
    ensures WordEnd(s, i) == e
    decreases e - i
  {
    if i < e {
      WordEndIs(s, i + 1, e);
    }
  }

  /** prvFindMatchingCommand: the first registered command that is the line's first word. */
  method FindMatchingCommand(commands: seq<string>, line: string) returns (found: Option<nat>)
    requires forall k :: 0 <= k < |commands| ==> CommandName(commands[k])
    ensures found.Some? ==> found.value < |commands| && Tokens(line) != [] && Tokens(line)[0] == commands[found.value]
    ensures found.Some? ==> line[0] != ' ' && commands[found.value] !in commands[..found.value]
    ensures found.None? ==> line == "" || line[0] == ' ' || Tokens(line)[0] !in commands
  {
    found := None;
    for k := 0 to |commands|
      invariant forall i :: 0 <= i < k ==> !Matches(commands[i], line)
    {
      if Matches(commands[k], line) {
        MatchesFirstWord(commands[k], line);
        forall i | 0 <= i < k
          ensures commands[i] != commands[k]
        {
          MatchesFirstWord(commands[i], line);
        }
        return Some(k);
      }
    }
    if line != "" && line[0] != ' ' {
      assert Tokens(line) != [] by { assert SkipSpaces(line, 0) == 0; }
      forall i | 0 <= i < |commands|
        ensures commands[i] != Tokens(line)[0]
      {
        MatchesFirstWord(commands[i], line);
      }
    }
  }

  // ---------------------------------------------------------------------------
  // Splitting in place
  // ---------------------------------------------------------------------------

  /** The text of a C string that begins at `j`. */
  function TextAt(buffer: seq<char>, j: nat): string
    requires j <= |buffer|
    decreases |buffer| - j
  {
    if j == |buffer| || buffer[j] == '\0' then "" else [buffer[j]] + TextAt(buffer, j + 1)
  }

  lemma {:induction false} TextUpTo(buffer: seq<char>, j: nat, e: nat)
    requires j <= e < |buffer| && buffer[e] == '\0' && NoNul(buffer[j..e])
    ensures TextAt(buffer, j) == buffer[j..e]
    decreases e - j
  {
    if j < e {
      assert buffer[j] == buffer[j..e][0] && buffer[j + 1..e] == buffer[j..e][1..];
      TextUpTo(buffer, j + 1, e);
    }
  }

  /** From position `from` on the buffer still holds the line. */
  predicate Untouched(buffer: seq<char>, line: string, from: nat) {
    && |buffer| == |line| + 1 && buffer[|line|] == '\0'
    && forall k :: from <= k < |line| ==> buffer[k] == line[k]
  }

  /** A word that has been cut out of the line, before position `limit` unless it is last. */
  predicate CutOut(buffer: seq<char>, line: string, j: nat, limit: nat) {
    && j <= |line| && |buffer| == |line| + 1
    && var e := WordEnd(line, j);
       && buffer[e] == '\0' && (forall k :: j <= k < e ==> buffer[k] == line[k])
       && e <= limit && (e < |line| ==> e < limit)
  }

  lemma CutOutText(buffer: seq<char>, line: string, j: nat, limit: nat)
    requires CutOut(buffer, line, j, limit) && NoNul(line)
    ensures TextAt(buffer, j) == Word(line, j)
  {
    var e := WordEnd(line, j);
    assert buffer[j..e] == line[j..e];
    TextUpTo(buffer, j, e);
  }

  lemma StillCutOut(before: seq<char>, after: seq<char>, line: string, words: seq<nat>, limit: nat, limit': nat)
    requires forall k :: 0 <= k < |words| ==> CutOut(before, line, words[k], limit)
    requires |after| == |before| > 0 && limit <= limit' && after[|after| - 1] == '\0'
    requires forall k :: 0 <= k < limit && k < |after| ==> after[k] == before[k]
    ensures forall k :: 0 <= k < |words| ==> CutOut(after, line, words[k], limit')
  {
    forall k | 0 <= k < |words|
      ensures CutOut(after, line, words[k], limit')
    {
      assert CutOut(before, line, words[k], limit);
    }
  }

  /** strtok_r with a single space as delimiter, from position `from`: the start of the next
      word, which gets terminated, and the position to go on from. */
  method NextToken(buffer: array<char>, line: string, from: nat) returns (start: Option<nat>, next: nat)
    requires from <= |line| && Untouched(buffer[..], line, from)
    modifies buffer
    ensures from <= next <= |line| && Untouched(buffer[..], line, next)
    ensures forall k :: 0 <= k < from ==> buffer[k] == old(buffer[k])
    ensures start.None? <==> Starts(line, from) == []
    ensures start.Some? ==> start.value == Starts(line, from)[0] && Starts(line, next) == Starts(line, from)[1..]
    ensures start.Some? ==> CutOut(buffer[..], line, start.value, next)
  {
    hide Starts, SkipSpaces, WordEnd;
    var j := SkipSpaces(line, from);
    StartsFirst(line, from);
    if j == |line| {
      return None, |line|;
    }
    var e := WordEnd(line, j);
    StartsTail(line, from, 0);
    start, next := Some(j), e;
    if e < |line| {
      buffer[e] := '\0';
      next := e + 1;
      StartsAfterSpace(line, e);
    }
  }

  /** The tokenizing part of FreeRTOS_CLIProcessCommand. As many tokens are found as were
      counted and then no more, so neither assertion fails, and each entry of the argument
      vector reads as one word of the line. */
  method SplitLine(buffer: array<char>, line: string) returns (argv: seq<nat>)
    requires NoNul(line) && Untouched(buffer[..], line, 0) && Tokens(line) != []
    modifies buffer
    ensures |argv| == |Tokens(line)|
    ensures forall i :: 0 <= i < |argv| ==> argv[i] < buffer.Length && TextAt(buffer[..], argv[i]) == Tokens(line)[i]
  {
    hide Starts, CutOut, Untouched, TextAt;
    var argc := GetNumberOfArgs(line);
    ghost var starts := Starts(line, 0);
    UntouchedSize(buffer[..], line, 0);
    var start, next := NextToken(buffer, line, 0);
    argv := [start.value];
    for i := 1 to argc
      invariant |argv| == i && argv == starts[..i]
      invariant next <= |line| && Untouched(buffer[..], line, next)
      invariant Starts(line, next) == starts[i..]
      invariant forall k :: 0 <= k < i ==> CutOut(buffer[..], line, argv[k], next)
    {
      ghost var before, limit := buffer[..], next;
      start, next := NextToken(buffer, line, next);
      assert start.Some?;  // configASSERT, line 180
      UntouchedSize(buffer[..], line, next);
      StillCutOut(before, buffer[..], line, argv, limit, next);
      argv := argv + [start.value];
    }
    ghost var before, limit := buffer[..], next;
    start, next := NextToken(buffer, line, next);
    assert start.None?;  // configASSERT, line 184
    UntouchedSize(buffer[..], line, next);
    StillCutOut(before, buffer[..], line, argv, limit, next);
    forall i | 0 <= i < |argv|
      ensures TextAt(buffer[..], argv[i]) == Tokens(line)[i]
    {
      CutOutText(buffer[..], line, argv[i], next);
    }
  }

  /** FreeRTOS_CLIProcessCommand up to the call of the command: on a match the argument
      vector holds the words of the line, the first of which is the command. */
  method ProcessCommand(commands: seq<string>, buffer: array<char>, line: string) returns (command: Option<nat>, argv: seq<nat>)
    requires forall k :: 0 <= k < |commands| ==> CommandName(commands[k])
    requires NoNul(line) && Untouched(buffer[..], line, 0)
    modifies buffer
    ensures command.None? ==> argv == [] && buffer[..] == old(buffer[..])
    ensures command.None? <==> line == "" || line[0] == ' ' || Tokens(line)[0] !in commands
    ensures command.Some? ==> command.value < |commands| && |argv| == |Tokens(line)|
    ensures command.Some? ==> argv[0] <= |buffer[..]| && TextAt(buffer[..], argv[0]) == commands[command.value]
    ensures forall i :: 0 <= i < |argv| ==> argv[i] < buffer.Length && TextAt(buffer[..], argv[i]) == Tokens(line)[i]
  {
    argv := [];
    command := FindMatchingCommand(commands, line);
    if command.Some? {
      argv := SplitLine(buffer, line);
    }
  }

  lemma UntouchedSize(buffer: seq<char>, line: string, from: nat)
    requires Untouched(buffer, line, from)
    ensures |buffer| == |line| + 1 && buffer[|line|] == '\0'
  {
  }

  // ---------------------------------------------------------------------------
  // One parameter
  // ---------------------------------------------------------------------------

  method SkipWord(line: string, from: nat) returns (p: nat)
    requires from <= |line|
    ensures p == WordEnd(line, from)
  {
    p := from;
    while p < |line| && line[p] != ' '
      invariant p <= |line| && WordEnd(line, p) == WordEnd(line, from)
    {
      p := p + 1;
    }
  }

  method SkipGap(line: string, from: nat) returns (p: nat)
    requires from <= |line|
    ensures p == SkipSpaces(line, from)
  {
    p := from;
    while p < |line| && line[p] == ' '
      invariant p <= |line| && SkipSpaces(line, p) == SkipSpaces(line, from)
    {
      p := p + 1;
    }
  }

  /** Parameters are numbered from the second word, or from the first if the line begins
      with a space. */
  function Numbering(line: string): nat {
    if line != "" && line[0] == ' ' then 1 else 0
  }

  /** FreeRTOS_CLIGetParameter: position and length of the wanted word of the line. */
  method GetParameter(line: string, wanted: nat) returns (at: Option<nat>, length: nat)
    ensures at.Some? <==> 0 < wanted && wanted - Numbering(line) < |Tokens(line)|
    ensures at.None? ==> length == 0
    ensures at.Some? ==> at.value + length <= |line| && line[at.value..at.value + length] == Tokens(line)[wanted - Numbering(line)]
  {
    hide Starts, WordEnd, SkipSpaces, Tokens;
    ghost var b := Numbering(line);
    ghost var passed := FirstWord(line);
    var p: nat := 0;
    var found: nat := 0;
    at, length := None, 0;
    TokensLength(line);
    while found < wanted
      invariant p <= |line| && at == None && length == 0 && (wanted == 0 || found < wanted)
      invariant Passed(line, p, passed)
      invariant |Tokens(line)| > 0 ==> passed == found - b + 1
    {
      NextWord(line, p, passed);
      p := SkipWord(line, p);
      p := SkipGap(line, p);
      if p < |line| {
        found := found + 1;
        passed := passed + 1;
        if found == wanted {
          at := Some(p);
          var end := SkipWord(line, p);
          length := end - p;
          break;
        }
      } else {
        break;
      }
    }
  }

  /** The first `passed` words of the line are over at the end of the word at `p`. */
  ghost predicate Passed(line: string, p: nat, passed: nat) {
    p <= |line| && passed <= |Starts(line, 0)| && Starts(line, WordEnd(line, p)) == Starts(line, 0)[passed..]
  }

  lemma TokensLength(line: string)
    ensures |Tokens(line)| == |Starts(line, 0)|
  {
  }

  lemma NextWord(line: string, p: nat, passed: nat)
    requires Passed(line, p, passed)
    ensures var q := SkipSpaces(line, WordEnd(line, p));
            if q == |line| then passed == |Tokens(line)|
            else passed < |Tokens(line)| && Passed(line, q, passed + 1) && Tokens(line)[passed] == line[q..WordEnd(line, q)]
  {
    hide Starts, WordEnd, SkipSpaces;
    StartsFirst(line, WordEnd(line, p));
    if SkipSpaces(line, WordEnd(line, p)) < |line| {
      StartsTail(line, 0, passed);
    }
  }

  lemma FirstWord(line: string) returns (passed: nat)
    ensures Passed(line, 0, passed)
    ensures |Tokens(line)| > 0 ==> passed == 1 - Numbering(line)
  {
    if line != "" && line[0] != ' ' {
      assert SkipSpaces(line, 0) == 0;
      StartsTail(line, 0, 0);
      passed := 1;
    } else {
      passed := 0;
    }
  }

  lemma StartsFirst(s: string, i: nat)
    requires i <= |s|
    ensures if SkipSpaces(s, i) == |s| then Starts(s, i) == [] else Starts(s, i) != [] && Starts(s, i)[0] == SkipSpaces(s, i)
  {
  }
}
