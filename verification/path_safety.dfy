/**
  What the path checks let through, and that it stays where it belongs
  (`invalidTargetReason`, `invalidRelativeTargetReason` and
  `normalizedTargetPath`, src/domain/profile.ts).

  A target and an entry are read here as a file system reads them: one component
  after another, where `..` leaves a directory. Accepted paths never do.
 */
module PathSafety {
  import opened Options
  import opened Sorting
  import opened Strings
  import opened TargetPaths
  import opened PathConflicts

  // ----- components of a text -----

  predicate IsSeparator(c: char) {
    c == '/' || c == '\\'
  }

  /** `part` stands in the text with a separator, or an end of the text, on each side. */
  ghost predicate HasComponent(text: string, part: string) {
    exists a, b :: IsComponentAt(text, part, a, b)
  }

  ghost predicate IsComponentAt(text: string, part: string, a: nat, b: nat) {
    && a <= b <= |text| && text[a..b] == part
    && (a == 0 || IsSeparator(text[a - 1])) && (b == |text| || IsSeparator(text[b]))
  }

  ghost predicate HasNoSeparator(part: string) {
    forall c :: c in part ==> !IsSeparator(c)
  }

  lemma NoSeparatorInside(text: string, part: string, a: nat, b: nat)
    requires IsComponentAt(text, part, a, b) && HasNoSeparator(part)
    ensures forall i :: a <= i < b ==> !IsSeparator(text[i])
  {
    forall i | a <= i < b ensures !IsSeparator(text[i]) {
      assert part[i - a] == text[i] && part[i - a] in part;
    }
  }

  /** A component is the text before the first separator, or a component of the rest. */
  lemma ComponentFirstOrLater(text: string, part: string, head: nat)
    requires head < |text| && IsSeparator(text[head]) && forall i :: 0 <= i < head ==> !IsSeparator(text[i])
    requires HasNoSeparator(part)
    ensures HasComponent(text, part) <==> part == text[..head] || HasComponent(text[head + 1..], part)
  {
    var rest := text[head + 1..];
    if a: nat, b: nat :| IsComponentAt(text, part, a, b) {
      NoSeparatorInside(text, part, a, b);
      if a <= head {
        assert a == 0 && b == head;
      } else {
        assert rest[a - head - 1..b - head - 1] == part;
        assert IsComponentAt(rest, part, a - head - 1, b - head - 1);
      }
    }
    if part == text[..head] {
      assert IsComponentAt(text, part, 0, head);
    }
    if a: nat, b: nat :| IsComponentAt(rest, part, a, b) {
      assert text[a + head + 1..b + head + 1] == part;
      assert IsComponentAt(text, part, a + head + 1, b + head + 1);
    }
  }

  lemma WholeComponent(text: string, part: string)
    requires HasNoSeparator(text) && HasNoSeparator(part)
    ensures HasComponent(text, part) <==> part == text
  {
    forall i | 0 <= i < |text| ensures !IsSeparator(text[i]) {
      assert text[i] in text;
    }
    assert text[0..|text|] == text;
    assert IsComponentAt(text, text, 0, |text|);
  }

  /** Splitting the slashed text finds exactly the components. */
  lemma {:induction false} SplitFindsComponents(text: string, part: string)
    requires HasNoSeparator(part)
    ensures part in Split(Slashes(text)) <==> HasComponent(text, part)
    decreases |text|
  {
    var slashed := Slashes(text);
    var head := |Head(slashed)|;
    forall i | 0 <= i < head ensures !IsSeparator(text[i]) {
      assert slashed[i] == Head(slashed)[i] && slashed[i] in Head(slashed);
    }
    assert text[..head] == Head(slashed) by {
      assert forall i :: 0 <= i < head ==> text[i] == slashed[i];
    }
    if head == |text| {
      WholeComponent(text, part);
    } else {
      assert slashed[head] == '/' && IsSeparator(text[head]);
      SlashesFrom(text, head + 1);
      SplitFindsComponents(text[head + 1..], part);
      ComponentFirstOrLater(text, part, head);
    }
  }

  lemma SlashesFrom(text: string, from: nat)
    requires from <= |text|
    ensures Slashes(text[from..]) == Slashes(text)[from..]
  {
  }

  // ----- which targets and entries are accepted -----

  ghost predicate IsBlank(text: string) {
    forall i :: 0 <= i < |text| ==> IsSpace(text[i])
  }

  ghost predicate IsGlobFree(text: string) {
    '*' !in text && '?' !in text && '[' !in text && ']' !in text
  }

  /** A target is accepted exactly when it is not blank and holds no NUL, no glob and no parent component. */
  lemma TargetAcceptedIff(target: string)
    ensures InvalidTargetReason(target).None?
       <==> !IsBlank(target) && 0 as char !in target && IsGlobFree(target) && !HasComponent(target, "..")
    ensures match InvalidTargetReason(target)
            case None => true
            case Some(EmptyTarget) => IsBlank(target)
            case Some(NullByte) => 0 as char in target
            case Some(ParentTraversal) => HasComponent(target, "..")
            case Some(Glob) => !IsGlobFree(target)
  {
    SplitFindsComponents(target, "..");
    BlankIffAllBlank(target);
    GlobIffHasAny(target);
  }

  lemma BlankIffAllBlank(text: string)
    ensures IsAllBlank(text) <==> IsBlank(text)
  {
    if IsAllBlank(text) {
      forall i | 0 <= i < |text| ensures IsSpace(text[i]) {
        assert text[i] in text;
      }
    }
  }

  lemma GlobIffHasAny(text: string)
    ensures HasAny(text, GLOB) <==> !IsGlobFree(text)
  {
  }

  /** Characters, endings and names no Windows file may have. */
  ghost predicate IsWindowsName(segment: string) {
    && (forall c :: c in segment ==> c !in {'<', '>', ':', '"', '|', '?', '*'})
    && (segment != "" ==> segment[|segment| - 1] != '.' && segment[|segment| - 1] != ' ')
    && !IsReservedName(segment)
  }

  lemma WindowsNameIff(segment: string)
    ensures IsWindowsName(segment)
       <==> !HasAny(segment, RESERVED_CHARACTERS) && !IsReservedName(segment)
            && !(segment != "" && segment[|segment| - 1] in {'.', ' '})
  {
    assert segment != "" ==> segment[|segment| - 1] in segment;
  }

  lemma {:induction false} WindowsReasonIff(segments: seq<string>)
    ensures WindowsReason(segments).None? <==> forall s :: s in segments ==> IsWindowsName(s)
  {
    if segments != [] {
      WindowsReasonIff(segments[1..]);
      WindowsNameIff(segments[0]);
      assert forall s :: s in segments <==> s == segments[0] || s in segments[1..];
    }
  }

  predicate IsDevice(name: string) {
    name in {"con", "prn", "aux", "nul"} || (|name| == 4 && name[..3] in {"com", "lpt"} && '1' <= name[3] <= '9')
  }

  /** A device name in any case, alone or before a dot, and nothing else, is reserved. */
  lemma ReservedIffDevice(segment: string)
    ensures IsReservedName(segment)
       <==> exists n :: 0 <= n <= |segment| && IsDevice(LowerAscii(segment[..n])) && IsExtension(segment[n..])
  {
    if |segment| >= 3 {
      LowerAsciiAt(segment[..3]);
    }
    if |segment| >= 4 {
      LowerAsciiAt(segment[..4]);
      assert LowerAscii(segment[..4])[..3] == LowerAscii(segment[..3]) by {
        assert segment[..4][..3] == segment[..3];
      }
    }
    forall n | 0 <= n <= |segment| && IsDevice(LowerAscii(segment[..n])) ensures n == 3 || n == 4 {
      LowerAsciiAt(segment[..n]);
    }
  }

  lemma {:induction false} LowerAsciiAt(text: string)
    ensures |LowerAscii(text)| == |text|
    ensures forall i :: 0 <= i < |text| ==>
              LowerAscii(text)[i] == if 'A' <= text[i] <= 'Z' then text[i] + ('a' - 'A') else text[i]
  {
    if text != "" {
      LowerAsciiAt(text[1..]);
    }
  }

  /** The path names something below any directory, in one way only. */
  ghost predicate IsPlainPath(p: Platform, path: string) {
    && !IsBlank(path) && 0 as char !in path && '\\' !in path && IsGlobFree(path) && p.nfc(path) == path
    && !(|path| >= 2 && IsLetter(path[0]) && path[1] == ':')
    && (forall s :: s in Split(path) ==> s != "" && s != "." && s != "..")
    && (p.windows ==> forall s :: s in Split(path) ==> IsWindowsName(s))
  }

  lemma {:induction false} SlashesWithoutBackslash(text: string)
    requires '\\' !in text
    ensures Slashes(text) == text
  {
    if text != "" {
      SlashesWithoutBackslash(text[1..]);
    }
  }

  /** Every check passes. */
  ghost predicate PassesChecks(p: Platform, path: string) {
    && !IsAllBlank(path) && 0 as char !in path && !IsAnchored(path) && ".." !in Split(Slashes(path))
    && '\\' !in path && "" !in Split(path) && "." !in Split(path) && p.nfc(path) == path
    && (p.windows ==> WindowsReason(Split(path)).None?) && !HasAny(path, GLOB)
  }

  lemma AcceptedIffPasses(p: Platform, path: string)
    ensures InvalidPathReason(p, path).None? <==> PassesChecks(p, path)
  {
  }

  lemma PlainIffPasses(p: Platform, path: string)
    ensures IsPlainPath(p, path) <==> PassesChecks(p, path)
  {
    BlankIffAllBlank(path);
    GlobIffHasAny(path);
    WindowsReasonIff(Split(path));
    if '\\' !in path {
      SlashesWithoutBackslash(path);
    }
    if path != "" && path[0] == '/' {
      assert Head(path) == "" && "" in Split(path);
    }
  }

  lemma EntryAcceptedIff(p: Platform, path: string)
    ensures InvalidPathReason(p, path).None? <==> IsPlainPath(p, path)
  {
    AcceptedIffPasses(p, path);
    PlainIffPasses(p, path);
  }

  /** A path with a parent component is never accepted, whichever separator it uses. */
  lemma ParentIsRefused(p: Platform, path: string)
    requires HasComponent(path, "..")
    ensures InvalidPathReason(p, path).Some?
  {
    SplitFindsComponents(path, "..");
  }

  /** The reason given for a refused entry names something wrong with it. */
  ghost predicate IsFault(p: Platform, path: string, reason: PathReason) {
    match reason
    case EmptyPath => IsBlank(path)
    case NullByteInPath => 0 as char in path
    case NotRelative => path != "" && (IsSeparator(path[0]) || (|path| >= 2 && IsLetter(path[0]) && path[1] == ':'))
    case ParentTraversalInPath => HasComponent(path, "..")
    case AlternateSeparator => '\\' in path
    case NotCanonical => HasComponent(path, "") || HasComponent(path, ".") || p.nfc(path) != path
    case GlobInPath => !IsGlobFree(path)
    case _ => p.windows && exists s :: s in Split(path) && IsWindowsFault(s, reason)
  }

  predicate IsWindowsFault(segment: string, reason: PathReason) {
    match reason
    case ReservedCharacter => HasAny(segment, {'<', '>', ':', '"', '|', '?', '*'})
    case TrailingDotOrSpace => segment != "" && segment[|segment| - 1] in {'.', ' '}
    case ReservedName => IsReservedName(segment)
    case _ => false
  }

  /** Which check failed, for the checks that do not look at single segments. */
  ghost predicate FailedCheck(p: Platform, path: string, reason: PathReason) {
    match reason
    case EmptyPath => IsAllBlank(path)
    case NullByteInPath => 0 as char in path
    case NotRelative => IsAnchored(path)
    case ParentTraversalInPath => ".." in Split(Slashes(path))
    case AlternateSeparator => '\\' in path
    case GlobInPath => HasAny(path, GLOB)
    case _ => true
  }

  lemma ReasonIsFailedCheck(p: Platform, path: string)
    requires InvalidPathReason(p, path).Some? && InvalidPathReason(p, path) != WindowsReason(Split(path))
    ensures FailedCheck(p, path, InvalidPathReason(p, path).value)
    ensures InvalidPathReason(p, path).value !in {ReservedCharacter, TrailingDotOrSpace, ReservedName}
  {
  }

  lemma FailedCheckIsFault(p: Platform, path: string, reason: PathReason)
    requires FailedCheck(p, path, reason)
    requires reason !in {ReservedCharacter, TrailingDotOrSpace, ReservedName, NotCanonical}
    ensures IsFault(p, path, reason)
  {
    match reason
    case EmptyPath => BlankIffAllBlank(path);
    case ParentTraversalInPath => SplitFindsComponents(path, "..");
    case GlobInPath => GlobIffHasAny(path);
    case _ =>
  }

  lemma ReasonIsTruthful(p: Platform, path: string)
    ensures InvalidPathReason(p, path).Some? ==> IsFault(p, path, InvalidPathReason(p, path).value)
  {
    WindowsReasonIsTruthful(Split(path));
    var reason := InvalidPathReason(p, path);
    if reason == Some(NotCanonical) {
      NotCanonicalIsFault(p, path);
    } else if reason.Some? && reason != WindowsReason(Split(path)) {
      ReasonIsFailedCheck(p, path);
      FailedCheckIsFault(p, path, reason.value);
    }
  }

  lemma NotCanonicalMeans(p: Platform, path: string)
    requires InvalidPathReason(p, path) == Some(NotCanonical) && WindowsReason(Split(path)) != Some(NotCanonical)
    ensures '\\' !in path && ("" in Split(path) || "." in Split(path) || p.nfc(path) != path)
  {
  }

  lemma NotCanonicalIsFault(p: Platform, path: string)
    requires InvalidPathReason(p, path) == Some(NotCanonical) && WindowsReason(Split(path)) != Some(NotCanonical)
    ensures IsFault(p, path, NotCanonical)
  {
    NotCanonicalMeans(p, path);
    SlashesWithoutBackslash(path);
    SplitFindsComponents(path, if "" in Split(path) then "" else ".");
  }

  lemma {:induction false} WindowsReasonIsTruthful(segments: seq<string>)
    ensures var reason := WindowsReason(segments);
            reason.Some? ==>
              reason.value in {ReservedCharacter, TrailingDotOrSpace, ReservedName}
              && exists s :: s in segments && IsWindowsFault(s, reason.value)
  {
    if segments != [] {
      assert segments[0] in segments && forall s :: s in segments[1..] ==> s in segments;
      assert RESERVED_CHARACTERS == {'<', '>', ':', '"', '|', '?', '*'};
      WindowsReasonIsTruthful(segments[1..]);
    }
  }

  // ----- where accepted paths lead -----

  /** Follow components from a directory: none and `.` stay, `..` leaves it. */
  function Walk(at: seq<string>, parts: seq<string>): seq<string>
    decreases |parts|
  {
    if parts == [] then at
    else if parts[0] == "" || parts[0] == "." then Walk(at, parts[1..])
    else if parts[0] == ".." then Walk(if at == [] then at else at[..|at| - 1], parts[1..])
    else Walk(at + [parts[0]], parts[1..])
  }

  lemma {:induction false} WalkConcat(at: seq<string>, a: seq<string>, b: seq<string>)
    ensures Walk(at, a + b) == Walk(Walk(at, a), b)
    decreases |a|
  {
    if a == [] {
      assert a + b == b;
    } else {
      assert (a + b)[1..] == a[1..] + b && (a + b)[0] == a[0];
      if a[0] == "" || a[0] == "." {
        WalkConcat(at, a[1..], b);
      } else if a[0] == ".." {
        WalkConcat(if at == [] then at else at[..|at| - 1], a[1..], b);
      } else {
        WalkConcat(at + [a[0]], a[1..], b);
      }
    }
  }

  /** Named components only go down. */
  lemma {:induction false} NamedGoDown(at: seq<string>, parts: seq<string>)
    requires forall s :: s in parts ==> s != "" && s != "." && s != ".."
    ensures Walk(at, parts) == at + parts
    decreases |parts|
  {
    if parts != [] {
      assert parts[0] in parts && forall s :: s in parts[1..] ==> s in parts;
      NamedGoDown(at + [parts[0]], parts[1..]);
      assert at + [parts[0]] + parts[1..] == at + parts;
    } else {
      assert at + [] == at;
    }
  }

  function Reached(text: string): seq<string> {
    Walk([], Split(Slashes(text)))
  }

  /** An accepted entry leads from its target to its own components, in order, and
      so strictly below the target, whatever the target is. */
  lemma EntryStaysBelowTarget(p: Platform, target: string, path: string)
    requires InvalidPathReason(p, path).None?
    ensures Reached(target + "/" + path) == Reached(target) + Split(path)
    ensures Reached(target) < Reached(target + "/" + path)
  {
    EntryAcceptedIff(p, path);
    SlashesWithoutBackslash(path);
    SlashesJoined(target, path);
    SplitConcat(Slashes(target), Slashes(path));
    WalkConcat([], Split(Slashes(target)), Split(path));
    NamedGoDown(Reached(target), Split(path));
  }

  /** The text by which two components are the same place. */
  function Key(p: Platform, part: string): string {
    if p.windows then p.lower(p.nfc(part)) else p.nfc(part)
  }

  function Keys(p: Platform, parts: seq<string>): (keys: seq<string>)
    ensures |keys| == |parts| && forall i :: 0 <= i < |parts| ==> keys[i] == Key(p, parts[i])
  {
    if parts == [] then [] else [Key(p, parts[0])] + Keys(p, parts[1..])
  }

  /** The kept parts with letter case folded, which become a location's segments. */
  function Placed(p: Platform, parts: seq<string>): seq<string> {
    if p.windows then LowerAll(p, Kept(p, parts)) else Kept(p, parts)
  }

  lemma PlacedNext(p: Platform, parts: seq<string>)
    requires parts != []
    ensures Placed(p, parts)
         == if parts[0] == "" || parts[0] == "." then Placed(p, parts[1..])
            else [Key(p, parts[0])] + Placed(p, parts[1..])
  {
    var rest := Kept(p, parts[1..]);
    assert ([p.nfc(parts[0])] + rest)[1..] == rest;
  }

  lemma {:induction false} WalkIsKept(p: Platform, at: seq<string>, parts: seq<string>)
    requires ".." !in parts
    ensures Keys(p, Walk(at, parts)) == Keys(p, at) + Placed(p, parts)
    decreases |parts|
  {
    if parts != [] {
      var rest := parts[1..];
      assert parts[0] in parts && forall s :: s in rest ==> s in parts;
      PlacedNext(p, parts);
      if parts[0] == "" || parts[0] == "." {
        WalkIsKept(p, at, rest);
      } else {
        WalkIsKept(p, at + [parts[0]], rest);
        KeysAppend(p, at, parts[0]);
        Regrouped(Keys(p, at), [Key(p, parts[0])], Placed(p, rest));
      }
    } else {
      assert Keys(p, at) + [] == Keys(p, at);
    }
  }

  lemma Regrouped(a: seq<string>, b: seq<string>, c: seq<string>)
    ensures a + b + c == a + (b + c)
  {
  }

  lemma KeysAppend(p: Platform, parts: seq<string>, part: string)
    ensures Keys(p, parts + [part]) == Keys(p, parts) + [Key(p, part)]
  {
  }

  /** The location of an accepted target is the place its components lead to, with
      letter case and composition folded. */
  lemma LocationIsReached(p: Platform, target: string)
    requires InvalidTargetReason(target).None?
    ensures LocationOf(p, target).segments == Keys(p, Walk([], Split(Body(Slashes(target)))))
  {
    var text := Slashes(target);
    assert ".." !in Split(Body(text)) by {
      if StartsWithDrive(text) {
        DriveIsComponent(text);
      }
    }
    WalkIsKept(p, [], Split(Body(text)));
  }

  /** Its root is the drive, in lower case, or the leading slash, or nothing. */
  lemma RootIsRead(p: Platform, target: string)
    ensures var text, root := Slashes(target), LocationOf(p, target).root;
            if StartsWithDrive(text) then
              var drive := if 'A' <= text[0] <= 'Z' then text[0] + ('a' - 'A') else text[0];
              root == Drive(if p.windows then p.lower([drive, ':']) else [drive, ':'])
            else if text != "" && text[0] == '/' then root == Slash
            else root == Relative
  {
  }

  lemma DriveIsComponent(text: string)
    requires StartsWithDrive(text)
    ensures forall s :: s in Split(Body(text)) ==> s == "" || s in Split(text)
  {
    if |text| == 2 {
      assert Head("") == "" && Split(Body(text)) == [""];
    } else {
      var rest := text[3..];
      assert text == text[..2] + "/" + rest && Body(text) == "" + "/" + rest;
      SplitConcat(text[..2], rest);
      SplitConcat("", rest);
      assert Head("") == "" && Split("") == [""];
    }
  }

  // ----- who claims paths -----

  /** Every resource but tools and credentials claims its target; and of its entries,
      exactly those that are accepted, each as its own kind, on behalf of the resource. */
  lemma ClaimsAre(p: Platform, r: Resource)
    ensures OwnClaims(p, r) == [] <==> r.kind == Tool || r.kind == Credential
    ensures OwnClaims(p, r) != [] ==>
              forall c :: c in OwnClaims(p, r) ==>
                c.id == r.id && c.target == r.target
                && (c.isRoot ==> c.rawPath == r.target && c.path == Text(LocationOf(p, r.target)))
    ensures OwnClaims(p, r) != [] ==>
              forall e :: e in r.entries && InvalidPathReason(p, e.path).None? ==>
                Claim(r.id, r.target, Text(LocationOf(p, r.target + "/" + e.path)), e.path, false, e.isDirectory)
                in OwnClaims(p, r)
  {
    SameElements(r.entries, EntryNotAfter);
    forall c { EntryClaimsFor(p, r, SortedEntries(r), c); }
  }

  lemma {:induction false} EntryClaimsFor(p: Platform, r: Resource, entries: seq<Entry>, c: Claim)
    ensures c in EntryClaims(p, r, entries)
       <==> exists e :: e in entries && InvalidPathReason(p, e.path).None? && c == EntryClaim(p, r, e)
  {
    if entries != [] {
      EntryClaimsFor(p, r, entries[1..], c);
      assert forall e :: e in entries <==> e == entries[0] || e in entries[1..];
    }
  }

  // ----- what is reported -----

  lemma {:induction false} ComparingKeepsInput(errors: seq<Error>, c: Claim, others: seq<Claim>, e: Error)
    requires !e.Conflict?
    ensures e in Against(errors, c, others) <==> e in errors
    decreases |others|
  {
    if others != [] {
      ComparingKeepsInput(Compare(errors, c, others[0]), c, others[1..], e);
    }
  }

  lemma {:induction false} PairsKeepInput(errors: seq<Error>, claims: seq<Claim>, e: Error)
    requires !e.Conflict?
    ensures e in AllPairs(errors, claims) <==> e in errors
    decreases |claims|
  {
    if claims != [] {
      ComparingKeepsInput(errors, claims[0], claims[1..], e);
      PairsKeepInput(Against(errors, claims[0], claims[1..]), claims[1..], e);
    }
  }

  /** What is wrong with one resource, taken alone. */
  ghost predicate IsOwnError(p: Platform, r: Resource, e: Error) {
    match e
    case InvalidTarget(id, target, reason) =>
      id == r.id && target == r.target && InvalidTargetReason(r.target) == Some(reason)
    case InvalidPath(id, path, reason) =>
      id == r.id && InvalidPathReason(p, path) == Some(reason)
      && exists entry :: entry in r.entries && entry.path == path
    case Conflict(_, _, _, _) => false
  }

  lemma {:induction false} EntryErrorsAre(p: Platform, r: Resource, entries: seq<Entry>, e: Error)
    ensures e in EntryErrors(p, r, entries)
       <==> e.InvalidPath? && e.id == r.id && InvalidPathReason(p, e.path) == Some(e.pathReason)
            && exists entry :: entry in entries && entry.path == e.path
  {
    if entries != [] {
      EntryErrorsAre(p, r, entries[1..], e);
      assert forall entry :: entry in entries <==> entry == entries[0] || entry in entries[1..];
    }
  }

  lemma {:induction false} InputErrorsAre(p: Platform, ordered: seq<Resource>, e: Error)
    ensures e in InputErrors(p, ordered) <==> exists r :: r in ordered && IsOwnError(p, r, e)
  {
    if ordered != [] {
      var r := ordered[0];
      InputErrorsAre(p, ordered[1..], e);
      EntryErrorsAre(p, r, SortedEntries(r), e);
      SameElements(r.entries, EntryNotAfter);
      assert forall s :: s in ordered <==> s == r || s in ordered[1..];
      assert e in TargetErrors(r) + EntryErrors(p, r, SortedEntries(r)) <==> IsOwnError(p, r, e);
    }
  }

  /** Exactly the invalid targets and entries are reported, each with its reason. */
  lemma InvalidPathsAreReported(p: Platform, resources: seq<Resource>, e: Error)
    requires !e.Conflict?
    ensures e in Errors(p, resources) <==> exists r :: r in resources && IsOwnError(p, r, e)
  {
    var ordered := SortBy(resources, ResourceNotAfter);
    PairsKeepInput(InputErrors(p, ordered), SortedClaims(p, resources), e);
    InputErrorsAre(p, ordered, e);
    SameElements(resources, ResourceNotAfter);
  }

  /** The conflict reported for two claims that may not both stand. */
  ghost predicate IsConflictOf(e: Error, c: Claim, o: Claim) {
    && e.Conflict? && e.id == c.id && e.conflictsWith == o.id && Overlaps(c.path, o.path)
    && match e.conflict
       case DeclaredTwice(path) => c.id == o.id && e.target == c.rawPath == o.rawPath && path == c.path
       case ManagedOverlap(path, other) =>
         c.id == o.id && e.target == c.rawPath != o.rawPath && path == c.path && other == o.path
       case TargetOverlap(path, other) => c.id != o.id && e.target == c.target && path == c.path && other == o.path
  }

  ghost predicate AreConflictsOf(errors: seq<Error>, claims: seq<Claim>) {
    forall e :: e in errors && e.Conflict? ==> exists c, o :: c in claims && o in claims && IsConflictOf(e, c, o)
  }

  lemma CompareIsTruthful(errors: seq<Error>, c: Claim, o: Claim, claims: seq<Claim>)
    requires AreConflictsOf(errors, claims) && c in claims && o in claims
    ensures AreConflictsOf(Compare(errors, c, o), claims)
  {
    var after := Compare(errors, c, o);
    forall e | e in after && e.Conflict?
      ensures exists c, o :: c in claims && o in claims && IsConflictOf(e, c, o)
    {
      if e !in errors {
        assert IsConflictOf(e, c, o);
      }
    }
  }

  lemma {:induction false} AgainstIsTruthful(errors: seq<Error>, c: Claim, others: seq<Claim>, claims: seq<Claim>)
    requires AreConflictsOf(errors, claims) && c in claims && forall o :: o in others ==> o in claims
    ensures AreConflictsOf(Against(errors, c, others), claims)
    decreases |others|
  {
    if others != [] {
      CompareIsTruthful(errors, c, others[0], claims);
      AgainstIsTruthful(Compare(errors, c, others[0]), c, others[1..], claims);
    }
  }

  lemma {:induction false} PairsAreTruthful(errors: seq<Error>, some: seq<Claim>, claims: seq<Claim>)
    requires AreConflictsOf(errors, claims) && forall o :: o in some ==> o in claims
    ensures AreConflictsOf(AllPairs(errors, some), claims)
    decreases |some|
  {
    if some != [] {
      AgainstIsTruthful(errors, some[0], some[1..], claims);
      PairsAreTruthful(Against(errors, some[0], some[1..]), some[1..], claims);
    }
  }

  /** Every reported conflict names two overlapping claims and says which. */
  lemma ConflictsAreTruthful(p: Platform, resources: seq<Resource>)
    ensures AreConflictsOf(Errors(p, resources), SortedClaims(p, resources))
  {
    InputErrorsAreNotConflicts(p, SortBy(resources, ResourceNotAfter));
    PairsAreTruthful(InputErrors(p, SortBy(resources, ResourceNotAfter)), SortedClaims(p, resources),
                     SortedClaims(p, resources));
  }
}
