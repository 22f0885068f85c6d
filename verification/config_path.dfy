/**
  The escape grammar of config key paths (src/domain/config-path.ts) and the
  check that a resource's declared keys own disjoint values
  (`validateConfigKeys` in src/domain/profile.ts).
 */
module ConfigPath {
  import opened Options
  import opened Sequences
  import opened Sorting
  import opened Strings

  datatype Issue = NulByte | InvalidEscape | EmptySegment | ReservedSegment

  const RESERVED: set<string> := {"__proto__", "constructor", "prototype"}

  predicate IsValidSegment(segment: string) {
    segment != "" && segment !in RESERVED && 0 as char !in segment
  }

  /** The literal key segments a path can name. */
  predicate IsValidSegments(segments: seq<string>) {
    segments != [] && forall s :: s in segments ==> IsValidSegment(s)
  }

  // ----- what a path reads as -----

  /** Read `path` on from a point where `done` segments are complete and
      `segment` is open. */
  function Scan(path: string, done: seq<string>, segment: string): Result<seq<string>, Issue> {
    if path == "" then Ok(done + [segment])
    else if path[0] == '\\' then
      if |path| < 2 || (path[1] != '.' && path[1] != '\\') then Err(InvalidEscape)
      else Scan(path[2..], done, segment + [path[1]])
    else if path[0] == '.' then Scan(path[1..], done + [segment], "")
    else Scan(path[1..], done, segment + [path[0]])
  }

  function Parsed(path: string): Result<seq<string>, Issue> {
    if 0 as char in path then Err(NulByte)
    else
      var scanned := Scan(path, [], "");
      if scanned.Err? then scanned
      else if "" in scanned.value then Err(EmptySegment)
      else if exists s | s in scanned.value :: s in RESERVED then Err(ReservedSegment)
      else scanned
  }

  /** `configPathSegments` and `configPathIssue`: the program's loop over an index. */
  method ParseConfigPath(path: string) returns (parsed: Result<seq<string>, Issue>)
    ensures parsed == Parsed(path)
  {
    if 0 as char in path {
      return Err(NulByte);
    }
    var segments: seq<string>, segment, index := [], "", 0;
    while index < |path|
      invariant 0 <= index <= |path|
      invariant Scan(path, [], "") == Scan(path[index..], segments, segment)
    {
      var character := path[index];
      if character == '\\' {
        if index + 1 >= |path| || (path[index + 1] != '.' && path[index + 1] != '\\') {
          return Err(InvalidEscape);
        }
        segment := segment + [path[index + 1]];
        index := index + 2;
      } else if character == '.' {
        segments := segments + [segment];
        segment := "";
        index := index + 1;
      } else {
        segment := segment + [character];
        index := index + 1;
      }
    }
    segments := segments + [segment];
    if "" in segments {
      return Err(EmptySegment);
    }
    if exists s | s in segments :: s in RESERVED {
      return Err(ReservedSegment);
    }
    return Ok(segments);
  }

  // ----- writing a path -----

  function EscapeSegment(segment: string): string {
    ReplaceAll(ReplaceAll(segment, "\\", "\\\\"), ".", "\\.")
  }

  function FormatConfigPath(segments: seq<string>): string {
    if segments == [] then ""
    else if |segments| == 1 then EscapeSegment(segments[0])
    else EscapeSegment(segments[0]) + "." + FormatConfigPath(segments[1..])
  }

  function EscapeChar(c: char): string {
    if c == '\\' then "\\\\" else if c == '.' then "\\." else [c]
  }

  /** A pattern of one character is replaced character by character. */
  lemma ReplaceFirst(s: string, c: char, with: string)
    requires s != ""
    ensures ReplaceAll(s, [c], with) == (if s[0] == c then with else [s[0]]) + ReplaceAll(s[1..], [c], with)
  {
    assert [c] <= s <==> s[0] == c;
  }

  lemma {:induction false} ReplaceAllConcat(a: string, b: string, c: char, with: string)
    ensures ReplaceAll(a + b, [c], with) == ReplaceAll(a, [c], with) + ReplaceAll(b, [c], with)
  {
    if a == "" {
      assert a + b == b;
    } else {
      assert (a + b)[1..] == a[1..] + b;
      ReplaceAllConcat(a[1..], b, c, with);
      ReplaceFirst(a, c, with);
      ReplaceFirst(a + b, c, with);
      JoinThree(if a[0] == c then with else [a[0]], ReplaceAll(a[1..], [c], with), ReplaceAll(b, [c], with));
    }
  }

  lemma JoinThree(a: string, b: string, c: string)
    ensures a + (b + c) == a + b + c
  {
  }

  /** The two replacements escape character by character: the second never
      touches what the first wrote. */
  lemma EscapeStep(segment: string)
    requires segment != ""
    ensures EscapeSegment(segment) == EscapeChar(segment[0]) + EscapeSegment(segment[1..])
  {
    var first := if segment[0] == '\\' then "\\\\" else [segment[0]];
    ReplaceAllConcat(first, ReplaceAll(segment[1..], "\\", "\\\\"), '.', "\\.");
    if segment[0] == '\\' {
      assert "\\\\"[1..] == "\\";
      assert ReplaceAll("\\\\", ".", "\\.") == "\\\\";
    } else {
      assert ReplaceAll([segment[0]], ".", "\\.") == EscapeChar(segment[0]);
    }
  }

  // ----- format and parse are inverse -----

  lemma ScanEscapedChar(c: char, rest: string, done: seq<string>, open: string)
    ensures Scan(EscapeChar(c) + rest, done, open) == Scan(rest, done, open + [c])
  {
    var path := EscapeChar(c) + rest;
    assert path[|EscapeChar(c)|..] == rest;
  }

  lemma {:induction false} ScanEscaped(segment: string, rest: string, done: seq<string>, open: string)
    ensures Scan(EscapeSegment(segment) + rest, done, open) == Scan(rest, done, open + segment)
  {
    if segment == "" {
      assert EscapeSegment(segment) + rest == rest && open + segment == open;
    } else {
      var c, tail := segment[0], segment[1..];
      EscapeStep(segment);
      ScanEscaped(tail, rest, done, open + [c]);
      ScanFirstEscaped(c, EscapeSegment(tail), rest, done, open);
      assert segment == [c] + tail;
      assert open + [c] + tail == open + ([c] + tail);
    }
  }

  lemma ScanFirstEscaped(c: char, escaped: string, rest: string, done: seq<string>, open: string)
    ensures Scan(EscapeChar(c) + escaped + rest, done, open) == Scan(escaped + rest, done, open + [c])
  {
    assert EscapeChar(c) + escaped + rest == EscapeChar(c) + (escaped + rest);
    ScanEscapedChar(c, escaped + rest, done, open);
  }

  lemma {:induction false} ScanFormatted(segments: seq<string>, done: seq<string>)
    requires segments != []
    ensures Scan(FormatConfigPath(segments), done, "") == Ok(done + segments)
  {
    if |segments| == 1 {
      ScanEscaped(segments[0], "", done, "");
      assert EscapeSegment(segments[0]) + "" == EscapeSegment(segments[0]);
      assert "" + segments[0] == segments[0] && [segments[0]] == segments;
    } else {
      var rest := "." + FormatConfigPath(segments[1..]);
      ScanEscaped(segments[0], rest, done, "");
      assert FormatConfigPath(segments) == EscapeSegment(segments[0]) + rest;
      assert rest[1..] == FormatConfigPath(segments[1..]);
      assert "" + segments[0] == segments[0];
      ScanFormatted(segments[1..], done + [segments[0]]);
      assert done + [segments[0]] + segments[1..] == done + segments;
    }
  }

  lemma {:induction false} EscapeKeepsNulFree(segment: string)
    requires 0 as char !in segment
    ensures 0 as char !in EscapeSegment(segment)
  {
    if segment != "" {
      EscapeStep(segment);
      EscapeKeepsNulFree(segment[1..]);
    }
  }

  lemma {:induction false} FormatKeepsNulFree(segments: seq<string>)
    requires forall s :: s in segments ==> 0 as char !in s
    ensures 0 as char !in FormatConfigPath(segments)
  {
    if segments != [] {
      assert segments[0] in segments && forall s :: s in segments[1..] ==> s in segments;
      EscapeKeepsNulFree(segments[0]);
      FormatKeepsNulFree(segments[1..]);
    }
  }

  /** Every valid segment list is read back from its formatted path. */
  lemma FormatThenParse(segments: seq<string>)
    requires IsValidSegments(segments)
    ensures Parsed(FormatConfigPath(segments)) == Ok(segments)
  {
    FormatKeepsNulFree(segments);
    ScanFormatted(segments, []);
    assert [] + segments == segments;
  }

  /** Escaping appends character by character. */
  lemma {:induction false} EscapeAppend(segment: string, c: char)
    ensures EscapeSegment(segment + [c]) == EscapeSegment(segment) + EscapeChar(c)
  {
    EscapeStep(segment + [c]);
    if segment == "" {
      assert EscapeSegment((segment + [c])[1..]) == "";
    } else {
      EscapeStep(segment);
      assert (segment + [c])[1..] == segment[1..] + [c];
      EscapeAppend(segment[1..], c);
    }
  }

  /** The text already read: complete segments, each ended by a dot, then the open one. */
  function ReadSoFar(done: seq<string>, segment: string): string {
    if done == [] then EscapeSegment(segment) else EscapeSegment(done[0]) + "." + ReadSoFar(done[1..], segment)
  }

  lemma {:induction false} ReadSoFarEnds(done: seq<string>, segment: string)
    ensures ReadSoFar(done, segment) == FormatConfigPath(done + [segment])
    ensures ReadSoFar(done, segment) + "." == ReadSoFar(done + [segment], "")
  {
    if done == [] {
      assert ReadSoFar([], "") == "";
      assert ([segment])[1..] == [];
      assert ReadSoFar([segment], "") == EscapeSegment(segment) + "." + "";
    } else {
      ReadSoFarEnds(done[1..], segment);
      assert (done + [segment])[1..] == done[1..] + [segment];
    }
  }

  lemma {:induction false} ReadSoFarAppend(done: seq<string>, segment: string, c: char)
    ensures ReadSoFar(done, segment + [c]) == ReadSoFar(done, segment) + EscapeChar(c)
  {
    if done == [] {
      EscapeAppend(segment, c);
    } else {
      ReadSoFarAppend(done[1..], segment, c);
    }
  }

  /** A successful scan spells its segments: every path has one reading. */
  lemma {:induction false} ScanSpells(path: string, done: seq<string>, segment: string, text: string)
    requires Scan(path, done, segment).Ok? && text == ReadSoFar(done, segment) + path
    ensures FormatConfigPath(Scan(path, done, segment).value) == text
    ensures Scan(path, done, segment).value != []
  {
    if path == "" {
      ReadSoFarEnds(done, segment);
      assert text == ReadSoFar(done, segment);
    } else if path[0] == '.' {
      ReadSoFarEnds(done, segment);
      assert text == ReadSoFar(done, segment) + "." + path[1..];
      ScanSpells(path[1..], done + [segment], "", text);
    } else {
      var c, rest := if path[0] == '\\' then path[1] else path[0], if path[0] == '\\' then path[2..] else path[1..];
      ReadSoFarAppend(done, segment, c);
      assert path == EscapeChar(c) + rest;
      assert text == ReadSoFar(done, segment) + EscapeChar(c) + rest;
      ScanSpells(rest, done, segment + [c], text);
    }
  }

  lemma {:induction false} ScanNulFree(path: string, done: seq<string>, segment: string)
    requires Scan(path, done, segment).Ok? && 0 as char !in path && 0 as char !in segment
    requires forall s :: s in done ==> 0 as char !in s
    ensures forall s :: s in Scan(path, done, segment).value ==> 0 as char !in s
  {
    if path != "" {
      if path[0] == '\\' {
        ScanNulFree(path[2..], done, segment + [path[1]]);
      } else if path[0] == '.' {
        ScanNulFree(path[1..], done + [segment], "");
      } else {
        ScanNulFree(path[1..], done, segment + [path[0]]);
      }
    }
  }

  /** Every valid path names a valid segment list and is exactly how that list
      is formatted. With `FormatThenParse`, the two are inverse bijections. */
  lemma ParseThenFormat(path: string)
    requires Parsed(path).Ok?
    ensures IsValidSegments(Parsed(path).value) && FormatConfigPath(Parsed(path).value) == path
  {
    assert ReadSoFar([], "") == "";
    ScanSpells(path, [], "", path);
    ScanNulFree(path, [], "");
  }

  /** Some list of segments, valid or not, is written as the path. */
  ghost predicate IsWritten(path: string, segments: seq<string>) {
    segments != [] && FormatConfigPath(segments) == path
  }

  lemma WrittenIsScanned(path: string, segments: seq<string>)
    ensures Scan(path, [], "") == Ok(segments) <==> IsWritten(path, segments)
  {
    if IsWritten(path, segments) {
      ScanFormatted(segments, []);
      assert [] + segments == segments;
    }
    if Scan(path, [], "") == Ok(segments) {
      assert ReadSoFar([], "") == "" && "" + path == path;
      ScanSpells(path, [], "", path);
    }
  }

  /** Each issue says what is wrong: a NUL, no reading at all, an empty segment in
      the one reading, or a reserved one, in this order. */
  lemma IssueNamesFault(path: string)
    ensures Parsed(path) == Err(NulByte) <==> 0 as char in path
    ensures Parsed(path) == Err(InvalidEscape) <==> 0 as char !in path && forall segments :: !IsWritten(path, segments)
    ensures Parsed(path) == Err(EmptySegment)
       <==> 0 as char !in path && exists segments :: IsWritten(path, segments) && "" in segments
    ensures Parsed(path) == Err(ReservedSegment)
       <==> 0 as char !in path
            && exists segments :: IsWritten(path, segments) && "" !in segments
                                  && exists s :: s in segments && s in RESERVED
  {
    forall segments ensures Scan(path, [], "") == Ok(segments) <==> IsWritten(path, segments) {
      WrittenIsScanned(path, segments);
    }
    ScanFailsInOneWay(path, [], "");
  }

  lemma {:induction false} ScanFailsInOneWay(path: string, done: seq<string>, segment: string)
    ensures Scan(path, done, segment).Err? ==> Scan(path, done, segment).error == InvalidEscape
  {
    if path != "" && path[0] == '\\' {
      if |path| >= 2 {
        ScanFailsInOneWay(path[2..], done, segment + [path[1]]);
      }
    } else if path != "" && path[0] == '.' {
      ScanFailsInOneWay(path[1..], done + [segment], "");
    } else if path != "" {
      ScanFailsInOneWay(path[1..], done, segment + [path[0]]);
    }
  }

  // ----- overlap -----

  predicate IsPrefixOf(a: seq<string>, b: seq<string>) {
    |a| <= |b| && b[..|a|] == a
  }

  predicate Overlap(left: string, right: string) {
    var l, r := Parsed(left), Parsed(right);
    if l.Err? || r.Err? then left == right else IsPrefixOf(l.value, r.value) || IsPrefixOf(r.value, l.value)
  }

  /** The key `inner` is `key` or lies below it. */
  predicate Holds(key: seq<string>, inner: seq<string>) {
    key <= inner
  }

  /** A key's value holds everything below the key, so two valid keys overlap exactly
      when some key is, or lies below, both. An invalid path overlaps only itself. */
  lemma OverlapIsSharedKey(a: seq<string>, b: seq<string>)
    requires IsValidSegments(a) && IsValidSegments(b)
    ensures Overlap(FormatConfigPath(a), FormatConfigPath(b)) <==> exists c :: Holds(a, c) && Holds(b, c)
    ensures forall path :: Parsed(path).Err? ==>
              Overlap(path, path) && !Overlap(path, FormatConfigPath(b)) && !Overlap(FormatConfigPath(b), path)
  {
    FormatThenParse(a);
    FormatThenParse(b);
    if c :| Holds(a, c) && Holds(b, c) {
      assert a == c[..|a|] && b == c[..|b|];
    }
    if IsPrefixOf(a, b) {
      assert Holds(a, b) && Holds(b, b);
    }
    if IsPrefixOf(b, a) {
      assert Holds(b, a) && Holds(a, a);
    }
  }

  /** The program compares segment by segment up to the shorter list. */
  method ConfigPathsOverlap(left: string, right: string) returns (overlap: bool)
    ensures overlap == Overlap(left, right)
  {
    var l := ParseConfigPath(left);
    var r := ParseConfigPath(right);
    if l.Err? || r.Err? {
      return left == right;
    }
    var shared := if |l.value| <= |r.value| then |l.value| else |r.value|;
    for index := 0 to shared
      invariant l.value[..index] == r.value[..index]
    {
      if l.value[index] != r.value[index] {
        assert l.value[..shared] != r.value[..shared] by {
          assert l.value[..shared][index] != r.value[..shared][index];
        }
        assert !IsPrefixOf(l.value, r.value) && !IsPrefixOf(r.value, l.value);
        return false;
      }
    }
    return true;
  }

  // ----- the declared keys of a config resource -----

  datatype ConfigKey = ConfigKey(path: string, inexactValue: bool)

  datatype KeyError =
    | InvalidPath(path: string, issue: Issue)
    | OverlappingPath(path: string, previous: string)
    | InexactNumber(path: string)

  predicate PathNotAfter(a: ConfigKey, b: ConfigKey) {
    TextNotAfter(a.path, b.path)
  }

  ghost predicate PathsApart(a: ConfigKey, b: ConfigKey) {
    !Overlap(a.path, b.path)
  }

  // ----- what is reported -----

  function InvalidErrors(entry: ConfigKey): seq<KeyError> {
    var parsed := Parsed(entry.path);
    if parsed.Err? then [InvalidPath(entry.path, parsed.error)] else []
  }

  /** One report for each of the first `n` entries that the entry overlaps. */
  function OverlapErrors(entries: seq<ConfigKey>, entry: ConfigKey, n: nat): seq<KeyError>
    requires n <= |entries|
  {
    if n == 0 then []
    else
      OverlapErrors(entries, entry, n - 1)
      + if Overlap(entries[n - 1].path, entry.path) then [OverlappingPath(entry.path, entries[n - 1].path)] else []
  }

  function InexactErrors(entry: ConfigKey): seq<KeyError> {
    if entry.inexactValue then [InexactNumber(entry.path)] else []
  }

  /** What is reported about the entry at `index`, given those before it. */
  function EntryReport(entries: seq<ConfigKey>, index: nat): seq<KeyError>
    requires index < |entries|
  {
    InvalidErrors(entries[index]) + OverlapErrors(entries, entries[index], index) + InexactErrors(entries[index])
  }

  /** What is reported about the first `n` entries, in order. */
  function Report(entries: seq<ConfigKey>, n: nat): seq<KeyError>
    requires n <= |entries|
  {
    if n == 0 then [] else Report(entries, n - 1) + EntryReport(entries, n - 1)
  }

  // ----- the program's loops -----

  method KeyErrors(entries: seq<ConfigKey>, index: nat) returns (errors: seq<KeyError>)
    requires index < |entries|
    ensures errors == EntryReport(entries, index)
  {
    var entry := entries[index];
    var reason := ParseConfigPath(entry.path);
    errors := if reason.Err? then [InvalidPath(entry.path, reason.error)] else [];
    for previous := 0 to index
      invariant errors == InvalidErrors(entry) + OverlapErrors(entries, entry, previous)
    {
      var overlap := ConfigPathsOverlap(entries[previous].path, entry.path);
      if overlap {
        errors := errors + [OverlappingPath(entry.path, entries[previous].path)];
      }
    }
    if entry.inexactValue {
      errors := errors + [InexactNumber(entry.path)];
    }
  }

  /** The loop over the sorted keys. */
  method ValidateConfigKeys(keys: seq<ConfigKey>) returns (errors: seq<KeyError>)
    ensures errors == Report(SortBy(keys, PathNotAfter), |keys|)
    ensures ReportsExactly(errors, keys)
    ensures (forall e :: e in errors ==> e.InexactNumber?) <==> KeysAreDisjoint(keys)
  {
    var entries := SortBy(keys, PathNotAfter);
    errors := [];
    for index := 0 to |entries|
      invariant errors == Report(entries, index)
    {
      var found := KeyErrors(entries, index);
      errors := errors + found;
    }
    ReportIsExact(keys);
    CleanReportMeansDisjoint(errors, keys);
  }

  // ----- the meaning of the report -----

  ghost predicate HasInvalid(keys: seq<ConfigKey>, p: string, issue: Issue) {
    Parsed(p) == Err(issue) && exists k :: k in keys && k.path == p
  }

  ghost predicate HasInexact(keys: seq<ConfigKey>, p: string) {
    exists k :: k in keys && k.path == p && k.inexactValue
  }

  /** Two different keys have the paths `q` and `p`, which overlap, and `q` sorts first. */
  ghost predicate HasOverlap(keys: seq<ConfigKey>, p: string, q: string) {
    Overlap(q, p) && TextNotAfter(q, p) && exists a, b :: HoldsPair(keys, a, b) && a.path == q && b.path == p
  }

  /** Every invalid path, every inexact number and every overlapping pair is
      reported, and nothing else. */
  ghost predicate ReportsExactly(errors: seq<KeyError>, keys: seq<ConfigKey>) {
    && (forall p, issue :: InvalidPath(p, issue) in errors <==> HasInvalid(keys, p, issue))
    && (forall p :: InexactNumber(p) in errors <==> HasInexact(keys, p))
    && (forall p, q :: OverlappingPath(p, q) in errors <==> HasOverlap(keys, p, q))
  }

  /** The overlap of `p` with an entry `q` before it. */
  ghost predicate HasEarlier(entries: seq<ConfigKey>, n: nat, p: string, q: string)
    requires n <= |entries|
  {
    Overlap(q, p) && exists i, j :: 0 <= i < j < n && entries[i].path == q && entries[j].path == p
  }

  lemma {:induction false} OverlapErrorsMembers(entries: seq<ConfigKey>, entry: ConfigKey, n: nat, e: KeyError)
    requires n <= |entries|
    ensures e in OverlapErrors(entries, entry, n)
       <==> e.OverlappingPath? && e.path == entry.path && Overlap(e.previous, e.path)
            && exists i :: 0 <= i < n && entries[i].path == e.previous
  {
    if n > 0 {
      OverlapErrorsMembers(entries, entry, n - 1, e);
    }
  }

  lemma {:induction false} InvalidIffReported(entries: seq<ConfigKey>, n: nat, p: string, issue: Issue)
    requires n <= |entries|
    ensures InvalidPath(p, issue) in Report(entries, n) <==> HasInvalid(entries[..n], p, issue)
  {
    if n > 0 {
      InvalidIffReported(entries, n - 1, p, issue);
      InvalidStep(entries, n - 1, p, issue);
    }
  }

  lemma InvalidStep(entries: seq<ConfigKey>, n: nat, p: string, issue: Issue)
    requires n < |entries|
    requires InvalidPath(p, issue) in Report(entries, n) <==> HasInvalid(entries[..n], p, issue)
    ensures InvalidPath(p, issue) in Report(entries, n + 1) <==> HasInvalid(entries[..n + 1], p, issue)
  {
    InvalidReported(entries, n, p, issue);
    InvalidInNext(entries, n, p, issue);
  }

  lemma InvalidReported(entries: seq<ConfigKey>, n: nat, p: string, issue: Issue)
    requires n < |entries|
    ensures InvalidPath(p, issue) in Report(entries, n + 1)
       <==> InvalidPath(p, issue) in Report(entries, n) || InvalidPath(p, issue) in InvalidErrors(entries[n])
  {
    EntryReported(entries, n, InvalidPath(p, issue));
  }

  lemma InvalidInNext(entries: seq<ConfigKey>, n: nat, p: string, issue: Issue)
    requires n < |entries|
    ensures HasInvalid(entries[..n + 1], p, issue)
       <==> HasInvalid(entries[..n], p, issue) || InvalidPath(p, issue) in InvalidErrors(entries[n])
  {
    PrefixNext(entries, n);
    assert forall k :: k in entries[..n + 1] <==> k in entries[..n] || k == entries[n];
  }

  lemma {:induction false} InexactIffReported(entries: seq<ConfigKey>, n: nat, p: string)
    requires n <= |entries|
    ensures InexactNumber(p) in Report(entries, n) <==> HasInexact(entries[..n], p)
  {
    if n > 0 {
      InexactIffReported(entries, n - 1, p);
      EntryReported(entries, n - 1, InexactNumber(p));
      InexactInNext(entries, n - 1, p);
    }
  }

  lemma InexactInNext(entries: seq<ConfigKey>, n: nat, p: string)
    requires n < |entries|
    ensures HasInexact(entries[..n + 1], p)
       <==> HasInexact(entries[..n], p) || InexactNumber(p) in InexactErrors(entries[n])
  {
    PrefixNext(entries, n);
    assert forall k :: k in entries[..n + 1] <==> k in entries[..n] || k == entries[n];
  }

  /** An error among the first `n + 1` entries is among the first `n`, or of the entry at `n`. */
  lemma EntryReported(entries: seq<ConfigKey>, n: nat, e: KeyError)
    requires n < |entries|
    ensures e in Report(entries, n + 1)
       <==> e in Report(entries, n) || e in InvalidErrors(entries[n]) || e in InexactErrors(entries[n])
            || (e.OverlappingPath? && e.path == entries[n].path && Overlap(e.previous, e.path)
                && exists i :: 0 <= i < n && entries[i].path == e.previous)
  {
    OverlapErrorsMembers(entries, entries[n], n, e);
  }

  lemma {:induction false} EarlierIffReported(entries: seq<ConfigKey>, n: nat, p: string, q: string)
    requires n <= |entries|
    ensures OverlappingPath(p, q) in Report(entries, n) <==> HasEarlier(entries, n, p, q)
  {
    if n > 0 {
      EarlierIffReported(entries, n - 1, p, q);
      EarlierStep(entries, n - 1, p, q);
    }
  }

  lemma EarlierStep(entries: seq<ConfigKey>, n: nat, p: string, q: string)
    requires n < |entries|
    requires OverlappingPath(p, q) in Report(entries, n) <==> HasEarlier(entries, n, p, q)
    ensures OverlappingPath(p, q) in Report(entries, n + 1) <==> HasEarlier(entries, n + 1, p, q)
  {
    EarlierReported(entries, n, p, q);
    EarlierInNext(entries, n, p, q);
  }

  /** The entry at `n` is an overlap of `p` with an entry `q` before it. */
  ghost predicate OverlapsAt(entries: seq<ConfigKey>, n: nat, p: string, q: string)
    requires n < |entries|
  {
    entries[n].path == p && Overlap(q, p) && exists i :: 0 <= i < n && entries[i].path == q
  }

  lemma EarlierReported(entries: seq<ConfigKey>, n: nat, p: string, q: string)
    requires n < |entries|
    ensures OverlappingPath(p, q) in Report(entries, n + 1)
       <==> OverlappingPath(p, q) in Report(entries, n) || OverlapsAt(entries, n, p, q)
  {
    EntryReported(entries, n, OverlappingPath(p, q));
  }

  lemma EarlierInNext(entries: seq<ConfigKey>, n: nat, p: string, q: string)
    requires n < |entries|
    ensures HasEarlier(entries, n + 1, p, q) <==> HasEarlier(entries, n, p, q) || OverlapsAt(entries, n, p, q)
  {
  }

  /** In sorted order the earlier of two overlapping keys is the one that sorts first. */
  lemma EarlierIffOverlap(keys: seq<ConfigKey>, p: string, q: string)
    ensures HasEarlier(SortBy(keys, PathNotAfter), |keys|, p, q) <==> HasOverlap(keys, p, q)
  {
    var entries := SortBy(keys, PathNotAfter);
    PathOrderIsLinear();
    SortIsOrdered(keys, PathNotAfter);
    if HasEarlier(entries, |keys|, p, q) {
      EarlierIsPair(entries, p, q);
      var a, b :| HoldsPair(entries, a, b) && a.path == q && b.path == p;
      SamePairs(entries, keys, a, b);
    }
    if a, b :| HoldsPair(keys, a, b) && a.path == q && b.path == p && TextNotAfter(q, p) {
      SamePairs(keys, entries, a, b);
      PairInOrder(entries, a, b);
    }
  }

  lemma EarlierIsPair(entries: seq<ConfigKey>, p: string, q: string)
    requires Ordered(entries, PathNotAfter) && HasEarlier(entries, |entries|, p, q)
    ensures TextNotAfter(q, p) && exists a, b :: HoldsPair(entries, a, b) && a.path == q && b.path == p
  {
    var i, j :| 0 <= i < j < |entries| && entries[i].path == q && entries[j].path == p;
    assert PathNotAfter(entries[i], entries[j]) && HoldsPair(entries, entries[i], entries[j]);
  }

  lemma SamePairs(xs: seq<ConfigKey>, ys: seq<ConfigKey>, a: ConfigKey, b: ConfigKey)
    requires multiset(xs) == multiset(ys)
    ensures HoldsPair(xs, a, b) ==> HoldsPair(ys, a, b)
  {
    PairIffCounted(xs, a, b);
    PairIffCounted(ys, a, b);
  }

  lemma PairInOrder(entries: seq<ConfigKey>, a: ConfigKey, b: ConfigKey)
    requires Ordered(entries, PathNotAfter) && HoldsPair(entries, a, b) && TextNotAfter(a.path, b.path)
    ensures exists i, j :: 0 <= i < j < |entries| && entries[i].path == a.path && entries[j].path == b.path
  {
    var i, j :| 0 <= i < |entries| && 0 <= j < |entries| && i != j && entries[i] == a && entries[j] == b;
    if j < i {
      assert PathNotAfter(entries[j], entries[i]);
      TextOrderIsAntisymmetric(a.path, b.path);
      assert entries[j].path == a.path && entries[i].path == b.path;
    }
  }

  lemma PathOrderIsLinear()
    ensures Total(PathNotAfter) && Transitive(PathNotAfter)
  {
    forall a: ConfigKey, b: ConfigKey
      ensures PathNotAfter(a, b) || PathNotAfter(b, a)
    {
      TextOrderIsTotal(a.path, b.path);
    }
    forall a: ConfigKey, b: ConfigKey, c: ConfigKey | PathNotAfter(a, b) && PathNotAfter(b, c)
      ensures PathNotAfter(a, c)
    {
      TextOrderIsTransitive(a.path, b.path, c.path);
    }
  }

  /** Whatever the order the keys are declared in. */
  lemma ReportIsExact(keys: seq<ConfigKey>)
    ensures ReportsExactly(Report(SortBy(keys, PathNotAfter), |keys|), keys)
  {
    var entries := SortBy(keys, PathNotAfter);
    assert entries[..|keys|] == entries;
    SameElements(keys, PathNotAfter);
    forall p, issue
      ensures InvalidPath(p, issue) in Report(entries, |keys|) <==> HasInvalid(keys, p, issue)
    {
      InvalidIffReported(entries, |keys|, p, issue);
    }
    forall p
      ensures InexactNumber(p) in Report(entries, |keys|) <==> HasInexact(keys, p)
    {
      InexactIffReported(entries, |keys|, p);
    }
    forall p, q
      ensures OverlappingPath(p, q) in Report(entries, |keys|) <==> HasOverlap(keys, p, q)
    {
      EarlierIffReported(entries, |keys|, p, q);
      EarlierIffOverlap(keys, p, q);
    }
  }

  /** Every declared path is valid, and none's segments begin another's. */
  ghost predicate KeysAreDisjoint(keys: seq<ConfigKey>) {
    && (forall k :: k in keys ==> Parsed(k.path).Ok?)
    && forall i, j :: 0 <= i < |keys| && 0 <= j < |keys| && i != j ==> !IsPrefixOf(Segments(keys[i]), Segments(keys[j]))
  }

  ghost function Segments(key: ConfigKey): seq<string> {
    if Parsed(key.path).Ok? then Parsed(key.path).value else []
  }

  lemma ErrorIsReported(errors: seq<KeyError>, keys: seq<ConfigKey>, k: ConfigKey)
    requires ReportsExactly(errors, keys) && k in keys
    ensures Parsed(k.path).Err? ==> InvalidPath(k.path, Parsed(k.path).error) in errors
  {
    if Parsed(k.path).Err? {
      assert HasInvalid(keys, k.path, Parsed(k.path).error);
    }
  }

  /** No pair overlaps exactly when all keys are apart. */
  lemma NoOverlapIffApart(keys: seq<ConfigKey>)
    ensures (forall p, q :: !HasOverlap(keys, p, q)) <==> Pairwise(keys, PathsApart)
  {
    if forall p, q :: !HasOverlap(keys, p, q) {
      forall i, j | 0 <= i < j < |keys|
        ensures PathsApart(keys[i], keys[j])
      {
        assert HoldsPair(keys, keys[i], keys[j]) && HoldsPair(keys, keys[j], keys[i]);
        TextOrderIsTotal(keys[i].path, keys[j].path);
        assert !HasOverlap(keys, keys[i].path, keys[j].path) && !HasOverlap(keys, keys[j].path, keys[i].path);
      }
    }
    if Pairwise(keys, PathsApart) {
      forall p, q
        ensures !HasOverlap(keys, p, q)
      {
        if a, b :| HoldsPair(keys, a, b) && a.path == q && b.path == p {
          var i, j :| 0 <= i < |keys| && 0 <= j < |keys| && i != j && keys[i] == a && keys[j] == b;
          assert PathsApart(keys[if i < j then i else j], keys[if i < j then j else i]);
        }
      }
    }
  }

  lemma CleanReportMeansDisjoint(errors: seq<KeyError>, keys: seq<ConfigKey>)
    requires ReportsExactly(errors, keys)
    ensures (forall e :: e in errors ==> e.InexactNumber?) <==> KeysAreDisjoint(keys)
  {
    NoOverlapIffApart(keys);
    if forall e :: e in errors ==> e.InexactNumber? {
      forall k | k in keys
        ensures Parsed(k.path).Ok?
      {
        ErrorIsReported(errors, keys, k);
      }
      assert forall p, q :: OverlappingPath(p, q) !in errors;
      ApartIsPrefixFree(keys);
    }
    if KeysAreDisjoint(keys) {
      ApartIsPrefixFree(keys);
      assert forall p, issue :: !HasInvalid(keys, p, issue);
      assert forall p, q :: !HasOverlap(keys, p, q);
      forall e | e in errors
        ensures e.InexactNumber?
      {
      }
    }
  }

  /** Valid keys are apart exactly when no segment list begins another. */
  lemma ApartIsPrefixFree(keys: seq<ConfigKey>)
    requires forall k :: k in keys ==> Parsed(k.path).Ok?
    ensures Pairwise(keys, PathsApart) <==> KeysAreDisjoint(keys)
  {
    if Pairwise(keys, PathsApart) {
      forall i, j | 0 <= i < |keys| && 0 <= j < |keys| && i != j
        ensures !IsPrefixOf(Segments(keys[i]), Segments(keys[j]))
      {
        assert PathsApart(keys[if i < j then i else j], keys[if i < j then j else i]);
      }
    }
  }
}
