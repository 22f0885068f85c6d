/**
  Reading back the command an installed scheduler runs
  (src/machine/installed-scheduler-command.ts), against the writers that render
  it: `windowsCommandLineArgument` in src/machine/windows.layer.ts and
  `systemdQuote` in src/machine/linux.layer.ts.
 */
module SchedulerCommand {
  import opened Options
  import opened Strings

  datatype Command = Command(executable: string, arguments: seq<string>)

  /** `commandFrom`: the first word is the executable and must not be empty. */
  function CommandFrom(words: seq<string>): Option<Command> {
    if words == [] || words[0] == "" then None else Some(Command(words[0], words[1..]))
  }

  /** The characters `\s` matches. */
  function SkipSpaces(s: string): (rest: string)
    ensures |rest| <= |s|
    ensures rest != "" ==> !IsSpace(rest[0])
  {
    if s != "" && IsSpace(s[0]) then SkipSpaces(s[1..]) else s
  }

  function Repeat(c: char, n: nat): (s: string)
    ensures |s| == n && forall i :: 0 <= i < n ==> s[i] == c
  {
    seq(n, _ => c)
  }

  /** Empty, or starting with a space: where an unquoted word ends. */
  predicate AtBoundary(s: string) {
    s == "" || IsSpace(s[0])
  }

  // ----- Windows: Microsoft C runtime quoting -----

  /** The rest of a quoted argument after `slashes` backslashes still unwritten. */
  function QuotedBody(value: string, slashes: nat): string {
    if value == "" then Repeat('\\', 2 * slashes)
    else if value[0] == '\\' then QuotedBody(value[1..], slashes + 1)
    else if value[0] == '"' then Repeat('\\', 2 * slashes + 1) + "\"" + QuotedBody(value[1..], 0)
    else Repeat('\\', slashes) + [value[0]] + QuotedBody(value[1..], 0)
  }

  predicate NeedsQuotes(value: string) {
    value == "" || exists c | c in value :: IsSpace(c) || c == '"'
  }

  function WindowsArgument(value: string): string {
    if NeedsQuotes(value) then "\"" + QuotedBody(value, 0) + "\"" else value
  }

  /** What one word reads as, with `slashes` backslashes not yet interpreted:
      the word, whether a quote is still open, and the text after it. */
  function ReadWord(s: string, quoted: bool, slashes: nat, word: string): (read: (string, bool, string))
    ensures |read.2| <= |s|
    ensures s != "" && !IsSpace(s[0]) ==> |read.2| < |s|
  {
    if s == "" then (word + Repeat('\\', slashes), quoted, "")
    else if s[0] == '\\' then ReadWord(s[1..], quoted, slashes + 1, word)
    else if s[0] == '"' then
      if slashes % 2 == 1 then ReadWord(s[1..], quoted, 0, word + Repeat('\\', slashes / 2) + "\"")
      else ReadWord(s[1..], !quoted, 0, word + Repeat('\\', slashes / 2))
    else if !quoted && IsSpace(s[0]) then (word + Repeat('\\', slashes), quoted, s)
    else ReadWord(s[1..], quoted, 0, word + Repeat('\\', slashes) + [s[0]])
  }

  /** All words of a command line; none when a quote stays open. */
  function ReadWords(s: string): Option<seq<string>>
    decreases |s|
  {
    var start := SkipSpaces(s);
    if start == "" then Some([])
    else
      var (word, open, rest) := ReadWord(start, false, 0, "");
      if open then None
      else
        var others := ReadWords(rest);
        if others.None? then None else Some([word] + others.value)
  }

  function InstalledWindows(executable: Option<string>, arguments: Option<string>): Option<Command> {
    if executable.None? || arguments.None? then None
    else
      var words := ReadWords(arguments.value);
      if words.None? then None else CommandFrom([executable.value] + words.value)
  }

  // ----- the program's loops -----

  /** Skip spaces from an index. */
  method SkipFrom(s: string, from: nat) returns (index: nat)
    requires from <= |s|
    ensures from <= index <= |s| && s[index..] == SkipSpaces(s[from..])
  {
    index := from;
    while index < |s| && IsSpace(s[index])
      invariant from <= index <= |s| && SkipSpaces(s[index..]) == SkipSpaces(s[from..])
    {
      index := index + 1;
    }
  }

  /** A run of backslashes. */
  method SlashesFrom(s: string, from: nat, ghost quoted: bool, ghost word: string) returns (slashes: nat, index: nat)
    requires from <= |s|
    ensures index == from + slashes <= |s| && (index < |s| ==> s[index] != '\\')
    ensures forall k :: from <= k < index ==> s[k] == '\\'
    ensures ReadWord(s[from..], quoted, 0, word) == ReadWord(s[index..], quoted, slashes, word)
  {
    slashes, index := 0, from;
    while index < |s| && s[index] == '\\'
      invariant index == from + slashes <= |s| && forall k :: from <= k < index ==> s[k] == '\\'
      invariant ReadWord(s[from..], quoted, 0, word) == ReadWord(s[index..], quoted, slashes, word)
    {
      slashes := slashes + 1;
      index := index + 1;
    }
  }

  /** A run of backslashes and what follows it: a quote, a character of the word, or its end. */
  method PieceFrom(s: string, from: nat, open: bool, start: string) returns (word: string, quoted: bool, index: nat)
    requires from < |s| && (open || !IsSpace(s[from]))
    ensures from < index <= |s| && ReadWord(s[from..], open, 0, start) == ReadWord(s[index..], quoted, 0, word)
  {
    var slashes;
    word, quoted := start, open;
    slashes, index := SlashesFrom(s, from, quoted, word);
    if index < |s| && s[index] == '"' {
      word := word + Repeat('\\', slashes / 2);
      if slashes % 2 == 1 {
        word := word + "\"";
      } else {
        quoted := !quoted;
      }
      index := index + 1;
    } else {
      FlushSlashes(s[index..], quoted, slashes, word);
      word := word + Repeat('\\', slashes);
      if index < |s| && (quoted || !IsSpace(s[index])) {
        assert word + Repeat('\\', 0) + [s[index]] == word + [s[index]];
        word := word + [s[index]];
        index := index + 1;
      }
    }
  }

  /** The loop over one word: runs of backslashes, quotes and other characters. */
  method WordFrom(s: string, from: nat) returns (word: string, quoted: bool, index: nat)
    requires from < |s| && !IsSpace(s[from])
    ensures from < index <= |s| && (word, quoted, s[index..]) == ReadWord(s[from..], false, 0, "")
  {
    word, quoted, index := "", false, from;
    while index < |s| && (quoted || !IsSpace(s[index]))
      invariant from <= index <= |s|
      invariant index == from ==> word == "" && !quoted
      invariant ReadWord(s[from..], false, 0, "") == ReadWord(s[index..], quoted, 0, word)
      decreases |s| - index
    {
      word, quoted, index := PieceFrom(s, index, quoted, word);
    }
    assert word + Repeat('\\', 0) == word;
  }

  /** Backslashes not followed by a quote stand for themselves. */
  lemma FlushSlashes(s: string, quoted: bool, slashes: nat, word: string)
    requires s == "" || (s[0] != '\\' && s[0] != '"')
    ensures ReadWord(s, quoted, slashes, word) == ReadWord(s, quoted, 0, word + Repeat('\\', slashes))
  {
    var flushed := word + Repeat('\\', slashes);
    assert flushed + Repeat('\\', 0) == flushed;
  }

  method InstalledWindowsCommand(
      executable: Option<string>, arguments: Option<string>) returns (command: Option<Command>)
    ensures command == InstalledWindows(executable, arguments)
  {
    if executable.None? || arguments.None? {
      return None;
    }
    var s := arguments.value;
    var words: seq<string>, index := [], 0;
    while index < |s|
      invariant 0 <= index <= |s|
      invariant ReadWords(s) == Prepend(words, ReadWords(s[index..]))
    {
      ghost var from := index;
      index := SkipFrom(s, index);
      if index == |s| {
        assert SkipSpaces(s[from..]) == "";
        assert words + [] == words;
        return CommandFrom([executable.value] + words);
      }
      assert SkipSpaces(s[from..])[0] == s[index];
      var word, quoted, next := WordFrom(s, index);
      if quoted {
        return None;
      }
      PrependOne(words, word, ReadWords(s[next..]));
      words := words + [word];
      index := next;
    }
    assert s[index..] == "" && words + [] == words;
    return CommandFrom([executable.value] + words);
  }

  ghost function Prepend(words: seq<string>, rest: Option<seq<string>>): Option<seq<string>> {
    if rest.None? then None else if words == [] then rest else Some(words + rest.value)
  }

  lemma PrependOne(words: seq<string>, word: string, rest: Option<seq<string>>)
    ensures rest.Some? ==> Prepend(words, Some([word] + rest.value)) == Prepend(words + [word], rest)
  {
    assert words + [word] != [];
    if rest.Some? {
      assert words == [] ==> words + [word] == [word];
      assert words + ([word] + rest.value) == words + [word] + rest.value;
    }
  }

  // ----- reading back what was written -----

  lemma {:induction false} ReadSlashes(k: nat, rest: string, quoted: bool, slashes: nat, word: string)
    ensures ReadWord(Repeat('\\', k) + rest, quoted, slashes, word) == ReadWord(rest, quoted, slashes + k, word)
  {
    if k == 0 {
      assert Repeat('\\', 0) + rest == rest;
    } else {
      assert (Repeat('\\', k) + rest)[1..] == Repeat('\\', k - 1) + rest;
      ReadSlashes(k - 1, rest, quoted, slashes + 1, word);
    }
  }

  lemma RepeatMore(word: string, n: nat, tail: string)
    ensures word + Repeat('\\', n + 1) + tail == word + Repeat('\\', n) + (['\\'] + tail)
  {
    assert Repeat('\\', n + 1) == Repeat('\\', n) + ['\\'];
  }

  /** An odd run of backslashes before a quote escapes it. */
  lemma ReadEscapedQuote(slashes: nat, tail: string, word: string)
    ensures ReadWord(Repeat('\\', 2 * slashes + 1) + ("\"" + tail), true, 0, word)
         == ReadWord(tail, true, 0, word + Repeat('\\', slashes) + "\"")
  {
    ReadSlashes(2 * slashes + 1, "\"" + tail, true, 0, word);
    assert ("\"" + tail)[1..] == tail;
  }

  /** An even run of backslashes before a quote closes the word. */
  lemma ReadClosingQuote(slashes: nat, rest: string, word: string)
    requires AtBoundary(rest)
    ensures ReadWord(Repeat('\\', 2 * slashes) + ("\"" + rest), true, 0, word)
         == (word + Repeat('\\', slashes), false, rest)
  {
    ReadSlashes(2 * slashes, "\"" + rest, true, 0, word);
    assert ("\"" + rest)[1..] == rest;
    var done := word + Repeat('\\', slashes);
    assert done + Repeat('\\', 0) == done;
  }

  /** Backslashes before another character stand for themselves. */
  lemma ReadLiteral(slashes: nat, c: char, tail: string, word: string)
    requires c != '\\' && c != '"'
    ensures ReadWord(Repeat('\\', slashes) + ([c] + tail), true, 0, word)
         == ReadWord(tail, true, 0, word + Repeat('\\', slashes) + [c])
  {
    ReadSlashes(slashes, [c] + tail, true, 0, word);
    assert ([c] + tail)[1..] == tail;
  }

  /** Inside quotes, the body reads as its unwritten backslashes and then its value. */
  lemma {:induction false} ReadQuotedBody(value: string, slashes: nat, rest: string, word: string)
    requires AtBoundary(rest)
    ensures ReadWord(QuotedBody(value, slashes) + "\"" + rest, true, 0, word)
         == (word + Repeat('\\', slashes) + value, false, rest)
  {
    var body := QuotedBody(value, slashes);
    if value == "" {
      assert body + "\"" + rest == Repeat('\\', 2 * slashes) + ("\"" + rest);
      ReadClosingQuote(slashes, rest, word);
      assert word + Repeat('\\', slashes) + "" == word + Repeat('\\', slashes);
    } else if value[0] == '\\' {
      ReadQuotedBody(value[1..], slashes + 1, rest, word);
      RepeatMore(word, slashes, value[1..]);
      assert value == ['\\'] + value[1..];
    } else {
      var tail := QuotedBody(value[1..], 0) + "\"" + rest;
      var next := word + Repeat('\\', slashes) + [value[0]];
      if value[0] == '"' {
        assert body + "\"" + rest == Repeat('\\', 2 * slashes + 1) + ("\"" + tail);
        ReadEscapedQuote(slashes, tail, word);
      } else {
        assert body + "\"" + rest == Repeat('\\', slashes) + ([value[0]] + tail);
        ReadLiteral(slashes, value[0], tail, word);
      }
      ReadQuotedBody(value[1..], 0, rest, next);
      assert next + Repeat('\\', 0) + value[1..] == word + Repeat('\\', slashes) + value;
    }
  }

  /** Outside quotes, text without spaces and quotes reads as itself. */
  lemma {:induction false} ReadPlain(value: string, rest: string, slashes: nat, word: string)
    requires AtBoundary(rest) && forall c :: c in value ==> !IsSpace(c) && c != '"'
    ensures ReadWord(value + rest, false, slashes, word) == (word + Repeat('\\', slashes) + value, false, rest)
  {
    if value == "" {
      assert value + rest == rest && word + Repeat('\\', slashes) + value == word + Repeat('\\', slashes);
    } else {
      assert value[0] in value && (value + rest)[1..] == value[1..] + rest;
      if value[0] == '\\' {
        ReadPlain(value[1..], rest, slashes + 1, word);
        RepeatMore(word, slashes, value[1..]);
        assert value == ['\\'] + value[1..];
      } else {
        var next := word + Repeat('\\', slashes) + [value[0]];
        ReadPlain(value[1..], rest, 0, next);
        assert next + Repeat('\\', 0) + value[1..] == word + Repeat('\\', slashes) + value;
      }
    }
  }

  lemma ReadQuotedArgument(value: string, rest: string)
    requires AtBoundary(rest) && NeedsQuotes(value)
    ensures ReadWord(WindowsArgument(value) + rest, false, 0, "") == (value, false, rest)
  {
    var tail := QuotedBody(value, 0) + "\"" + rest;
    assert WindowsArgument(value) + rest == "\"" + tail && ("\"" + tail)[1..] == tail;
    assert "" + Repeat('\\', 0) == "";
    ReadQuotedBody(value, 0, rest, "");
    assert "" + Repeat('\\', 0) + value == value;
  }

  lemma ReadWindowsArgument(value: string, rest: string)
    requires AtBoundary(rest)
    ensures ReadWord(WindowsArgument(value) + rest, false, 0, "") == (value, false, rest)
    ensures WindowsArgument(value) != "" && !IsSpace(WindowsArgument(value)[0])
  {
    if NeedsQuotes(value) {
      ReadQuotedArgument(value, rest);
    } else {
      assert value[0] in value;
      ReadPlain(value, rest, 0, "");
      assert "" + Repeat('\\', 0) + value == value;
    }
  }

  function WindowsArguments(arguments: seq<string>): seq<string> {
    if arguments == [] then [] else [WindowsArgument(arguments[0])] + WindowsArguments(arguments[1..])
  }

  lemma {:induction false} ReadWindowsCommandLine(arguments: seq<string>)
    ensures ReadWords(Join(WindowsArguments(arguments), " ")) == Some(arguments)
  {
    if arguments != [] {
      var first, others := WindowsArgument(arguments[0]), WindowsArguments(arguments[1..]);
      var rest := if others == [] then "" else " " + Join(others, " ");
      assert ([first] + others)[1..] == others;
      assert Join([first] + others, " ") == first + rest;
      ReadWindowsArgument(arguments[0], rest);
      assert SkipSpaces(first + rest) == first + rest;
      ReadWindowsCommandLine(arguments[1..]);
      if others != [] {
        assert rest[1..] == Join(others, " ");
        assert SkipSpaces(rest) == SkipSpaces(rest[1..]);
        assert ReadWords(rest) == ReadWords(Join(others, " "));
      }
      assert [arguments[0]] + arguments[1..] == arguments;
    }
  }

  /** Every argument list is recovered from its quoted command line: empty
      strings, quotes and any run of backslashes included. Only an empty
      executable is refused. */
  lemma WindowsRoundTrip(executable: string, arguments: seq<string>)
    ensures InstalledWindows(Some(executable), Some(Join(WindowsArguments(arguments), " ")))
         == if executable == "" then None else Some(Command(executable, arguments))
  {
    ReadWindowsCommandLine(arguments);
    assert ([executable] + arguments)[1..] == arguments;
  }

  // ----- systemd: ExecStart quoting -----

  /** One character of a quoted word; `$` is doubled in arguments only. */
  function SystemdChar(c: char, argument: bool): string {
    if c == '\\' then "\\\\" else if c == '"' then "\\\"" else if c == '%' then "%%"
    else if c == '$' && argument then "$$" else [c]
  }

  function SystemdBody(value: string, argument: bool): string {
    if value == "" then "" else SystemdChar(value[0], argument) + SystemdBody(value[1..], argument)
  }

  function SystemdQuote(value: string, argument: bool): string {
    "\"" + SystemdBody(value, argument) + "\""
  }

  /** One quoted word after its opening quote: the word and the text after its
      closing quote, or nothing when the text is not ours. */
  function ReadQuoted(s: string, argument: bool, word: string): (read: Option<(string, string)>)
    ensures read.Some? ==> |read.value.1| < |s|
  {
    if s == "" then None
    else if s[0] == '"' then Some((word, s[1..]))
    else if s[0] == '\\' then
      if |s| >= 2 && (s[1] == '\\' || s[1] == '"') then ReadQuoted(s[2..], argument, word + [s[1]]) else None
    else if s[0] == '%' || (s[0] == '$' && argument) then
      if |s| >= 2 && s[1] == s[0] then ReadQuoted(s[2..], argument, word + [s[0]]) else None
    else ReadQuoted(s[1..], argument, word + [s[0]])
  }

  /** All words of an ExecStart line; `first` is the program path. */
  function ReadExecStart(s: string, first: bool): Option<seq<string>>
    decreases |s|
  {
    var start := SkipSpaces(s);
    if start == "" then Some([])
    else if start[0] != '"' then None
    else
      var read := ReadQuoted(start[1..], !first, "");
      if read.None? || !AtBoundary(read.value.1) then None
      else
        var others := ReadExecStart(read.value.1, false);
        if others.None? then None else Some([read.value.0] + others.value)
  }

  function InstalledSystemd(line: string): Option<Command> {
    var words := ReadExecStart(line, true);
    if words.None? then None else CommandFrom(words.value)
  }

  method QuotedFrom(s: string, from: nat, argument: bool) returns (closed: bool, word: string, index: nat)
    requires from <= |s|
    ensures from <= index <= |s|
    ensures closed ==> from < index && ReadQuoted(s[from..], argument, "") == Some((word, s[index..]))
    ensures !closed ==> ReadQuoted(s[from..], argument, "").None?
  {
    closed, word, index := false, "", from;
    while index < |s|
      invariant from <= index <= |s|
      invariant ReadQuoted(s[from..], argument, "") == ReadQuoted(s[index..], argument, word)
    {
      var character := s[index];
      index := index + 1;
      if character == '"' {
        closed := true;
        return;
      }
      if character == '\\' {
        if index == |s| || (s[index] != '\\' && s[index] != '"') {
          return;
        }
        word := word + [s[index]];
        index := index + 1;
      } else if character == '%' || (character == '$' && argument) {
        if index == |s| || s[index] != character {
          return;
        }
        word := word + [character];
        index := index + 1;
      } else {
        word := word + [character];
      }
    }
  }

  method InstalledSystemdCommand(s: string) returns (command: Option<Command>)
    ensures command == InstalledSystemd(s)
  {
    var words: seq<string>, index := [], 0;
    while index < |s|
      invariant 0 <= index <= |s|
      invariant ReadExecStart(s, true) == Prepend(words, ReadExecStart(s[index..], words == []))
    {
      ghost var from := index;
      index := SkipFrom(s, index);
      if index == |s| {
        assert SkipSpaces(s[from..]) == "";
        assert words + [] == words;
        return CommandFrom(words);
      }
      assert SkipSpaces(s[from..])[1..] == s[index + 1..];
      if s[index] != '"' {
        return None;
      }
      var closed, word, next := QuotedFrom(s, index + 1, words != []);
      if !closed || (next < |s| && !IsSpace(s[next])) {
        return None;
      }
      PrependOne(words, word, ReadExecStart(s[next..], false));
      words := words + [word];
      index := next;
    }
    assert s[index..] == "" && words + [] == words;
    return CommandFrom(words);
  }

  lemma {:induction false} ReadSystemdBody(value: string, argument: bool, rest: string, word: string)
    ensures ReadQuoted(SystemdBody(value, argument) + "\"" + rest, argument, word) == Some((word + value, rest))
  {
    if value == "" {
      assert SystemdBody(value, argument) + "\"" + rest
          == "\"" + rest && ("\"" + rest)[1..] == rest && word + value == word;
    } else {
      var tail := SystemdBody(value[1..], argument) + "\"" + rest;
      assert SystemdBody(value, argument) + "\"" + rest == SystemdChar(value[0], argument) + tail;
      ReadSystemdBody(value[1..], argument, rest, word + [value[0]]);
      ReadSystemdChar(value[0], argument, tail, word);
      assert word + [value[0]] + value[1..] == word + value;
    }
  }

  lemma ReadSystemdChar(c: char, argument: bool, tail: string, word: string)
    ensures ReadQuoted(SystemdChar(c, argument) + tail, argument, word) == ReadQuoted(tail, argument, word + [c])
  {
    var escaped := SystemdChar(c, argument);
    assert (escaped + tail)[|escaped|..] == tail;
  }

  /** What follows the first of several parts joined by spaces. */
  function AfterFirst(others: seq<string>): string {
    if others == [] then "" else " " + Join(others, " ")
  }

  lemma JoinFirst(first: string, others: seq<string>)
    ensures Join([first] + others, " ") == first + AfterFirst(others)
  {
    assert ([first] + others)[1..] == others;
    assert first + "" == first && first + " " + Join(others, " ") == first + (" " + Join(others, " "));
  }

  lemma {:induction false} ReadSystemdLine(words: seq<string>, first: bool)
    ensures ReadExecStart(Join(SystemdWords(words, first), " "), first) == Some(words)
  {
    if words != [] {
      var others := SystemdWords(words[1..], false);
      JoinFirst(SystemdQuote(words[0], !first), others);
      ReadSystemdLine(words[1..], false);
      ReadAfterSpace(others);
      ReadSystemdFirst(words[0], first, AfterFirst(others));
      assert [words[0]] + words[1..] == words;
    }
  }

  lemma ReadAfterSpace(others: seq<string>)
    ensures ReadExecStart(AfterFirst(others), false) == ReadExecStart(Join(others, " "), false)
  {
    if others != [] {
      var rest := AfterFirst(others);
      assert rest[1..] == Join(others, " ");
      assert SkipSpaces(rest) == SkipSpaces(rest[1..]);
    }
  }

  lemma ReadSystemdFirst(word: string, first: bool, rest: string)
    requires AtBoundary(rest)
    ensures ReadExecStart(SystemdQuote(word, !first) + rest, first)
         == (var others := ReadExecStart(rest, false); if others.None? then None else Some([word] + others.value))
  {
    var line := SystemdQuote(word, !first) + rest;
    assert SkipSpaces(line) == line;
    assert line[1..] == SystemdBody(word, !first) + "\"" + rest;
    ReadSystemdBody(word, !first, rest, "");
    assert "" + word == word;
  }

  /** The rendered words of a command: only arguments double `$`. */
  function SystemdWords(words: seq<string>, first: bool): seq<string> {
    if words == [] then [] else [SystemdQuote(words[0], !first)] + SystemdWords(words[1..], false)
  }

  /** Every command is recovered from its ExecStart line, with any `%`, `$`,
      quote or backslash; only an empty program path is refused. */
  lemma SystemdRoundTrip(executable: string, arguments: seq<string>)
    ensures InstalledSystemd(Join(SystemdWords([executable] + arguments, true), " "))
         == if executable == "" then None else Some(Command(executable, arguments))
  {
    ReadSystemdLine([executable] + arguments, true);
    assert ([executable] + arguments)[1..] == arguments;
  }

  // ----- every line that is accepted, not only the writer's -----

  ghost predicate IsBlank(s: string) {
    forall c :: c in s ==> IsSpace(c)
  }

  /** The parts in order, with spaces between them and perhaps around them. */
  ghost predicate IsSpaced(s: string, parts: seq<string>)
    decreases |parts|
  {
    if parts == [] then IsBlank(s)
    else exists a, b :: IsSplit(s, a, parts[0], b) && IsSpaced(b, parts[1..])
  }

  ghost predicate IsSplit(s: string, a: string, part: string, b: string) {
    s == a + part + b && IsBlank(a) && AtBoundary(b)
  }

  lemma {:induction false} SkipBlank(a: string, s: string)
    requires IsBlank(a)
    ensures SkipSpaces(a + s) == SkipSpaces(s)
  {
    if a == "" {
      assert a + s == s;
    } else {
      assert a[0] in a && (a + s)[1..] == a[1..] + s;
      SkipBlank(a[1..], s);
    }
  }

  lemma {:induction false} SkippedCount(s: string) returns (k: nat)
    ensures k <= |s| && SkipSpaces(s) == s[k..] && forall i :: 0 <= i < k ==> IsSpace(s[i])
  {
    k := 0;
    if s != "" && IsSpace(s[0]) {
      var rest := SkippedCount(s[1..]);
      k := rest + 1;
      assert forall i :: 0 < i < k ==> s[i] == s[1..][i - 1];
    }
  }

  lemma SkippedIsBlank(s: string) returns (a: string)
    ensures IsBlank(a) && s == a + SkipSpaces(s)
  {
    var k := SkippedCount(s);
    a := s[..k];
  }

  lemma OneMoreWritten(s: string, c: char, tail: string, others: string, argument: bool, rest: string)
    requires s == SystemdChar(c, argument) + tail && tail == SystemdBody(others, argument) + "\"" + rest
    ensures s == SystemdBody([c] + others, argument) + "\"" + rest
  {
    assert ([c] + others)[0] == c && ([c] + others)[1..] == others;
    assert SystemdChar(c, argument) + (SystemdBody(others, argument) + "\"" + rest)
        == SystemdChar(c, argument) + SystemdBody(others, argument) + "\"" + rest;
  }

  /** How the reader takes the next character, and that it is written so. */
  lemma NextIsWritten(s: string, argument: bool, word: string) returns (c: char, tail: string)
    requires ReadQuoted(s, argument, word).Some? && s[0] != '"'
    ensures |tail| < |s| && s == SystemdChar(c, argument) + tail
    ensures ReadQuoted(s, argument, word) == ReadQuoted(tail, argument, word + [c])
  {
    var escaped := s[0] == '\\' || s[0] == '%' || (s[0] == '$' && argument);
    c := if escaped then s[1] else s[0];
    tail := if escaped then s[2..] else s[1..];
    assert s == (if escaped then [s[0], s[1]] else [s[0]]) + tail;
  }

  /** The reader takes a quoted body exactly when it is how some word is written. */
  lemma {:induction false} ReadQuotedIsWritten(s: string, argument: bool, word: string) returns (value: string)
    requires ReadQuoted(s, argument, word).Some?
    ensures ReadQuoted(s, argument, word).value.0 == word + value
    ensures s == SystemdBody(value, argument) + "\"" + ReadQuoted(s, argument, word).value.1
    decreases |s|
  {
    if s[0] == '"' {
      value := "";
      assert word + "" == word && s == "" + "\"" + s[1..];
    } else {
      var c, tail := NextIsWritten(s, argument, word);
      var others := ReadQuotedIsWritten(tail, argument, word + [c]);
      value := [c] + others;
      assert word + [c] + others == word + value;
      OneMoreWritten(s, c, tail, others, argument, ReadQuoted(s, argument, word).value.1);
    }
  }

  lemma QuoteIsRead(word: string, argument: bool, b: string)
    ensures (SystemdQuote(word, argument) + b)[1..] == SystemdBody(word, argument) + "\"" + b
    ensures ReadQuoted((SystemdQuote(word, argument) + b)[1..], argument, "") == Some((word, b))
  {
    ReadSystemdBody(word, argument, b, "");
    assert "" + word == word;
  }

  lemma WrittenIsRead(s: string, a: string, word: string, first: bool, b: string)
    requires IsSplit(s, a, SystemdQuote(word, !first), b)
    ensures ReadExecStart(s, first)
         == (var others := ReadExecStart(b, false); if others.None? then None else Some([word] + others.value))
  {
    var quoted := SystemdQuote(word, !first);
    assert s == a + (quoted + b);
    SkipBlank(a, quoted + b);
    assert SkipSpaces(quoted + b) == quoted + b;
    QuoteIsRead(word, !first, b);
  }

  lemma FirstWordIsRead(s: string, first: bool)
    requires ReadExecStart(s, first).Some? && ReadExecStart(s, first).value != []
    ensures SkipSpaces(s) != "" && SkipSpaces(s)[0] == '"' && ReadQuoted(SkipSpaces(s)[1..], !first, "").Some?
    ensures var (word, b) := ReadQuoted(SkipSpaces(s)[1..], !first, "").value;
            && AtBoundary(b) && ReadExecStart(b, false).Some?
            && ReadExecStart(s, first).value == [word] + ReadExecStart(b, false).value
  {
  }

  lemma QuotedThenRest(start: string, value: string, argument: bool, b: string)
    requires start != "" && start[0] == '"' && start[1..] == SystemdBody(value, argument) + "\"" + b
    ensures start == SystemdQuote(value, argument) + b
  {
    assert start == "\"" + start[1..];
    assert "\"" + (SystemdBody(value, argument) + "\"" + b) == "\"" + SystemdBody(value, argument) + "\"" + b;
  }

  lemma ReadIsWritten(s: string, first: bool) returns (a: string, word: string, b: string)
    requires ReadExecStart(s, first).Some? && ReadExecStart(s, first).value != []
    ensures IsSplit(s, a, SystemdQuote(word, !first), b) && word == ReadExecStart(s, first).value[0]
    ensures ReadExecStart(b, false) == Some(ReadExecStart(s, first).value[1..])
  {
    FirstWordIsRead(s, first);
    a := SkippedIsBlank(s);
    var start := SkipSpaces(s);
    word, b := ReadQuoted(start[1..], !first, "").value.0, ReadQuoted(start[1..], !first, "").value.1;
    var value := ReadQuotedIsWritten(start[1..], !first, "");
    assert "" + value == value;
    QuotedThenRest(start, word, !first, b);
    assert a + (SystemdQuote(word, !first) + b) == a + SystemdQuote(word, !first) + b;
  }

  /** A line reads as some words exactly when it is these words, each quoted as the
      writer quotes it, with spaces between them: nothing else is accepted. */
  lemma {:induction false} ExecStartIff(s: string, words: seq<string>, first: bool)
    ensures ReadExecStart(s, first) == Some(words) <==> IsSpaced(s, SystemdWords(words, first))
    decreases |words|
  {
    var written := SystemdWords(words, first);
    if words == [] {
      BlankIffNothing(s, first);
    } else {
      assert written[1..] == SystemdWords(words[1..], false);
      if ReadExecStart(s, first) == Some(words) {
        var a, word, b := ReadIsWritten(s, first);
        ExecStartIff(b, words[1..], false);
        assert IsSplit(s, a, written[0], b) && IsSpaced(b, written[1..]);
      }
      if a, b :| IsSplit(s, a, written[0], b) && IsSpaced(b, written[1..]) {
        WrittenIsRead(s, a, words[0], first, b);
        ExecStartIff(b, words[1..], false);
        assert [words[0]] + words[1..] == words;
      }
    }
  }

  lemma BlankIffNothing(s: string, first: bool)
    ensures ReadExecStart(s, first) == Some([]) <==> IsBlank(s)
  {
    var a := SkippedIsBlank(s);
    if IsBlank(s) {
      SkipBlank(s, "");
      assert s + "" == s;
    }
    if SkipSpaces(s) == "" {
      assert a + "" == a;
    }
  }

  /** The quotes that open or close: those after an even run of backslashes. */
  function LiveQuotes(s: string, slashes: nat): nat {
    if s == "" then 0
    else if s[0] == '\\' then LiveQuotes(s[1..], slashes + 1)
    else (if s[0] == '"' && slashes % 2 == 0 then 1 else 0) + LiveQuotes(s[1..], 0)
  }

  lemma {:induction false} WordParity(s: string, quoted: bool, slashes: nat, word: string)
    ensures var (_, open, rest) := ReadWord(s, quoted, slashes, word);
            && LiveQuotes(rest, 0) <= LiveQuotes(s, slashes)
            && (open <==> ((LiveQuotes(s, slashes) - LiveQuotes(rest, 0)) % 2 == 0) == quoted)
            && (open ==> rest == "")
  {
    if s != "" {
      if s[0] == '\\' {
        WordParity(s[1..], quoted, slashes + 1, word);
      } else if s[0] == '"' {
        if slashes % 2 == 1 {
          WordParity(s[1..], quoted, 0, word + Repeat('\\', slashes / 2) + "\"");
        } else {
          WordParity(s[1..], !quoted, 0, word + Repeat('\\', slashes / 2));
        }
      } else if quoted || !IsSpace(s[0]) {
        WordParity(s[1..], quoted, 0, word + Repeat('\\', slashes) + [s[0]]);
      }
    }
  }

  lemma {:induction false} SpacesHoldNoQuotes(s: string)
    ensures LiveQuotes(SkipSpaces(s), 0) == LiveQuotes(s, 0)
  {
    if s != "" && IsSpace(s[0]) {
      SpacesHoldNoQuotes(s[1..]);
    }
  }

  /** A Windows command line is refused exactly when a quote stays open: when the
      number of quotes that are not escaped is odd. */
  lemma {:induction false} RefusedIffOddQuotes(s: string)
    ensures ReadWords(s).None? <==> LiveQuotes(s, 0) % 2 == 1
    decreases |s|
  {
    var start := SkipSpaces(s);
    SpacesHoldNoQuotes(s);
    if start != "" {
      var (word, open, rest) := ReadWord(start, false, 0, "");
      WordParity(start, false, 0, "");
      if !open {
        RefusedIffOddQuotes(rest);
      }
    }
  }

  /** In or out of quotes, a run of backslashes before a quote halves; an odd one makes
      the quote a character, an even one makes it open or close. */
  lemma SlashesBeforeQuote(n: nat, tail: string, quoted: bool, word: string)
    ensures ReadWord(Repeat('\\', n) + ("\"" + tail), quoted, 0, word)
         == if n % 2 == 1 then ReadWord(tail, quoted, 0, word + Repeat('\\', n / 2) + "\"")
            else ReadWord(tail, !quoted, 0, word + Repeat('\\', n / 2))
  {
    ReadSlashes(n, "\"" + tail, quoted, 0, word);
    assert ("\"" + tail)[1..] == tail;
  }

  /** Before anything else the backslashes, and the character unless it ends the word, stand for themselves. */
  lemma SlashesBeforeOther(n: nat, c: char, tail: string, quoted: bool, word: string)
    requires c != '\\' && c != '"'
    ensures ReadWord(Repeat('\\', n) + ([c] + tail), quoted, 0, word)
         == if !quoted && IsSpace(c) then (word + Repeat('\\', n), quoted, [c] + tail)
            else ReadWord(tail, quoted, 0, word + Repeat('\\', n) + [c])
  {
    ReadSlashes(n, [c] + tail, quoted, 0, word);
    assert ([c] + tail)[1..] == tail;
  }

  /** A Windows command is read exactly when both texts are there, the executable is
      not empty, and no quote stays open; the executable is then taken as it is. */
  lemma WindowsReadIff(executable: Option<string>, arguments: Option<string>)
    ensures InstalledWindows(executable, arguments).Some?
       <==> executable.Some? && executable.value != "" && arguments.Some? && LiveQuotes(arguments.value, 0) % 2 == 0
    ensures InstalledWindows(executable, arguments).Some? ==>
              InstalledWindows(executable, arguments).value.executable == executable.value
  {
    if arguments.Some? {
      RefusedIffOddQuotes(arguments.value);
    }
  }

  /** An ExecStart line is read as a command exactly when it is that command, quoted as
      the writer quotes it, with spaces between the words, and its program path is not empty. */
  lemma SystemdReadIff(line: string, command: Command)
    ensures InstalledSystemd(line) == Some(command)
       <==> command.executable != "" && IsSpaced(line, SystemdWords([command.executable] + command.arguments, true))
  {
    var words := [command.executable] + command.arguments;
    ExecStartIff(line, words, true);
    assert words[1..] == command.arguments;
    if InstalledSystemd(line) == Some(command) {
      assert ReadExecStart(line, true).value == words;
    }
  }
}
