/**
  The check that resources claim disjoint paths (`invalidTargetReason`,
  `canonicalResourcePathClaims` and `validateResourcePathConflicts`,
  src/domain/profile.ts).
 */
module PathConflicts {
  import opened Options
  import opened Sorting
  import opened Strings
  import opened TargetPaths

  datatype Kind = File | Directory | Config | Skill | Tool | Credential

  datatype Entry = Entry(path: string, isDirectory: bool)

  datatype Resource = Resource(id: string, kind: Kind, target: string, entries: seq<Entry>)

  datatype TargetReason = EmptyTarget | NullByte | ParentTraversal | Glob

  datatype PathReason =
    | EmptyPath | NullByteInPath | NotRelative | ParentTraversalInPath | AlternateSeparator | NotCanonical
    | ReservedCharacter | TrailingDotOrSpace | ReservedName | GlobInPath

  datatype ConflictReason =
    | DeclaredTwice(path: string)
    | ManagedOverlap(path: string, other: string)
    | TargetOverlap(path: string, other: string)

  datatype Error =
    | InvalidTarget(id: string, target: string, reason: TargetReason)
    | InvalidPath(id: string, path: string, pathReason: PathReason)
    | Conflict(id: string, target: string, conflictsWith: string, conflict: ConflictReason)

  /** One path a resource claims: its target, or an entry below it. */
  datatype Claim = Claim(id: string, target: string, path: string, rawPath: string, isRoot: bool, isDirectory: bool)

  // ----- well-formed targets and entries -----

  predicate IsAllBlank(text: string) {
    forall c | c in text :: IsSpace(c)
  }

  const GLOB: set<char> := {'*', '?', '[', ']'}

  const RESERVED_CHARACTERS: set<char> := {'<', '>', ':', '"', '|', '?', '*'}

  const RESERVED_NAMES: set<string> := {"con", "prn", "aux", "nul"}

  predicate HasAny(text: string, characters: set<char>) {
    exists c | c in text :: c in characters
  }

  function InvalidTargetReason(target: string): Option<TargetReason> {
    if IsAllBlank(target) then Some(EmptyTarget)
    else if 0 as char in target then Some(NullByte)
    else if ".." in Split(Slashes(target)) then Some(ParentTraversal)
    else if HasAny(target, GLOB) then Some(Glob)
    else None
  }

  function LowerAscii(text: string): string {
    if text == "" then ""
    else [if IsUpper(text[0]) then text[0] + ('a' - 'A') else text[0]] + LowerAscii(text[1..])
  }

  predicate IsUpper(c: char) {
    'A' <= c <= 'Z'
  }

  /** Nothing, or a dot and a rest on one line. */
  predicate IsExtension(text: string) {
    text == "" || (text[0] == '.' && forall c | c in text[1..] ::
        c != '\n' && c != '\r' && c as int != 0x2028 && c as int != 0x2029)
  }

  predicate IsReservedName(segment: string) {
    || (|segment| >= 3 && LowerAscii(segment[..3]) in RESERVED_NAMES && IsExtension(segment[3..]))
    || (|segment| >= 4 && LowerAscii(segment[..3]) in {"com", "lpt"} && '1' <= segment[3] <= '9'
        && IsExtension(segment[4..]))
  }

  function WindowsReason(segments: seq<string>): Option<PathReason> {
    if segments == [] then None
    else
      var segment := segments[0];
      if HasAny(segment, RESERVED_CHARACTERS) then Some(ReservedCharacter)
      else if segment != "" && segment[|segment| - 1] in {'.', ' '} then Some(TrailingDotOrSpace)
      else if IsReservedName(segment) then Some(ReservedName)
      else WindowsReason(segments[1..])
  }

  predicate IsAnchored(path: string) {
    path != "" && (path[0] == '/' || path[0] == '\\' || (|path| >= 2 && IsLetter(path[0]) && path[1] == ':'))
  }

  function InvalidPathReason(p: Platform, path: string): Option<PathReason> {
    var segments := Split(path);
    if IsAllBlank(path) then Some(EmptyPath)
    else if 0 as char in path then Some(NullByteInPath)
    else if IsAnchored(path) then Some(NotRelative)
    else if ".." in Split(Slashes(path)) then Some(ParentTraversalInPath)
    else if '\\' in path then Some(AlternateSeparator)
    else if "" in segments || "." in segments then Some(NotCanonical)
    else if p.nfc(path) != path then Some(NotCanonical)
    else if p.windows && WindowsReason(segments).Some? then WindowsReason(segments)
    else if HasAny(path, GLOB) then Some(GlobInPath)
    else None
  }

  // ----- the claims -----

  predicate EntryNotAfter(a: Entry, b: Entry) {
    TextNotAfter(a.path, b.path)
  }

  predicate ResourceNotAfter(a: Resource, b: Resource) {
    TextNotAfter(a.id, b.id)
  }

  /** By resource, then by path, then by the path as declared. */
  predicate ClaimNotAfter(a: Claim, b: Claim) {
    if a.id != b.id then TextNotAfter(a.id, b.id)
    else if a.path != b.path then TextNotAfter(a.path, b.path)
    else TextNotAfter(a.rawPath, b.rawPath)
  }

  function RootClaim(p: Platform, r: Resource): Claim {
    Claim(r.id, r.target, Text(LocationOf(p, r.target)), r.target, true, r.kind == Directory || r.kind == Skill)
  }

  function EntryClaim(p: Platform, r: Resource, e: Entry): Claim {
    Claim(r.id, r.target, Text(LocationOf(p, r.target + "/" + e.path)), e.path, false, e.isDirectory)
  }

  function EntryClaims(p: Platform, r: Resource, entries: seq<Entry>): seq<Claim> {
    if entries == [] then []
    else
      (if InvalidPathReason(p, entries[0].path).Some? then [] else [EntryClaim(p, r, entries[0])])
      + EntryClaims(p, r, entries[1..])
  }

  function EntryErrors(p: Platform, r: Resource, entries: seq<Entry>): seq<Error> {
    if entries == [] then []
    else
      var reason := InvalidPathReason(p, entries[0].path);
      (if reason.Some? then [InvalidPath(r.id, entries[0].path, reason.value)] else [])
      + EntryErrors(p, r, entries[1..])
  }

  function SortedEntries(r: Resource): seq<Entry> {
    SortBy(r.entries, EntryNotAfter)
  }

  method CanonicalResourcePathClaims(p: Platform, r: Resource) returns (claims: seq<Claim>, errors: seq<Error>)
    requires IsFaithful(p)
    ensures claims == EntryClaims(p, r, SortedEntries(r)) && errors == EntryErrors(p, r, SortedEntries(r))
  {
    claims, errors := CollectEntries(p, r, SortedEntries(r));
  }

  method CollectEntries(p: Platform, r: Resource, entries: seq<Entry>) returns (claims: seq<Claim>, errors: seq<Error>)
    requires IsFaithful(p)
    ensures claims == EntryClaims(p, r, entries) && errors == EntryErrors(p, r, entries)
  {
    claims, errors := [], [];
    var index := 0;
    assert entries[0..] == entries;
    while index < |entries|
      invariant 0 <= index <= |entries|
      invariant EntryClaims(p, r, entries) == claims + EntryClaims(p, r, entries[index..])
      invariant EntryErrors(p, r, entries) == errors + EntryErrors(p, r, entries[index..])
    {
      EntryClaimsFrom(p, r, entries, index, claims);
      EntryErrorsFrom(p, r, entries, index, errors);
      var reason := InvalidPathReason(p, entries[index].path);
      if reason.Some? {
        errors := errors + [InvalidPath(r.id, entries[index].path, reason.value)];
      } else {
        var claim := ClaimEntry(p, r, entries[index]);
        claims := claims + [claim];
      }
      index := index + 1;
    }
  }

  method ClaimEntry(p: Platform, r: Resource, e: Entry) returns (claim: Claim)
    requires IsFaithful(p)
    ensures claim == EntryClaim(p, r, e)
  {
    var path := NormalizedTargetPath(p, r.target + "/" + e.path);
    claim := Claim(r.id, r.target, path, e.path, false, e.isDirectory);
  }

  lemma EntryClaimsFrom(p: Platform, r: Resource, entries: seq<Entry>, index: nat, claims: seq<Claim>)
    requires index < |entries|
    ensures var e := entries[index];
            claims + EntryClaims(p, r, entries[index..])
            == (if InvalidPathReason(p, e.path).Some? then claims else claims + [EntryClaim(p, r, e)])
               + EntryClaims(p, r, entries[index + 1..])
  {
    var e, rest := entries[index], EntryClaims(p, r, entries[index + 1..]);
    assert entries[index..][1..] == entries[index + 1..];
    assert [] + rest == rest;
    assert claims + ([EntryClaim(p, r, e)] + rest) == claims + [EntryClaim(p, r, e)] + rest;
  }

  lemma EntryErrorsFrom(p: Platform, r: Resource, entries: seq<Entry>, index: nat, errors: seq<Error>)
    requires index < |entries|
    ensures var reason := InvalidPathReason(p, entries[index].path);
            errors + EntryErrors(p, r, entries[index..])
            == (if reason.Some? then errors + [InvalidPath(r.id, entries[index].path, reason.value)] else errors)
               + EntryErrors(p, r, entries[index + 1..])
  {
    var reason, rest := InvalidPathReason(p, entries[index].path), EntryErrors(p, r, entries[index + 1..]);
    assert entries[index..][1..] == entries[index + 1..];
    assert [] + rest == rest;
    if reason.Some? {
      var error := InvalidPath(r.id, entries[index].path, reason.value);
      assert errors + ([error] + rest) == errors + [error] + rest;
    }
  }

  // ----- the program's result -----

  function TargetErrors(r: Resource): seq<Error> {
    var reason := InvalidTargetReason(r.target);
    if reason.Some? then [InvalidTarget(r.id, r.target, reason.value)] else []
  }

  function InputErrors(p: Platform, ordered: seq<Resource>): seq<Error> {
    if ordered == [] then []
    else TargetErrors(ordered[0]) + EntryErrors(p, ordered[0], SortedEntries(ordered[0])) + InputErrors(p, ordered[1..])
  }

  /** The entry claims kept under each id: those of the last resource with that id. */
  function ClaimsById(p: Platform, ordered: seq<Resource>): map<string, seq<Claim>> {
    if ordered == [] then map[]
    else
      var r := ordered[|ordered| - 1];
      ClaimsById(p, ordered[..|ordered| - 1])[r.id := EntryClaims(p, r, SortedEntries(r))]
  }

  predicate IsFilesystem(r: Resource) {
    r.kind == File || r.kind == Directory || r.kind == Config || r.kind == Skill
  }

  function Renamed(claims: seq<Claim>, r: Resource): seq<Claim> {
    if claims == [] then [] else [claims[0].(id := r.id, target := r.target)] + Renamed(claims[1..], r)
  }

  function AllClaims(p: Platform, ordered: seq<Resource>, byId: map<string, seq<Claim>>): seq<Claim> {
    if ordered == [] then []
    else
      var r := ordered[0];
      (if IsFilesystem(r) then [RootClaim(p, r)] + Renamed(if r.id in byId then byId[r.id] else [], r) else [])
      + AllClaims(p, ordered[1..], byId)
  }

  /** Of two overlapping paths, the outer one is declared a directory. */
  predicate OuterIsDirectory(c: Claim, o: Claim) {
    if o.path + "/" <= c.path then o.isDirectory else c.path + "/" <= o.path && c.isDirectory
  }

  predicate HasConflict(errors: seq<Error>, id: string, other: string) {
    exists e | e in errors :: e.Conflict? && e.id == id && e.conflictsWith == other
  }

  /** The errors after comparing one pair. */
  function Compare(errors: seq<Error>, c: Claim, o: Claim): seq<Error> {
    if !Overlaps(c.path, o.path) then errors
    else if c.id == o.id then
      if c.isRoot || o.isRoot then errors
      else if c.rawPath == o.rawPath then errors + [Conflict(c.id, c.rawPath, o.id, DeclaredTwice(c.path))]
      else if OuterIsDirectory(c, o) then errors
      else errors + [Conflict(c.id, c.rawPath, o.id, ManagedOverlap(c.path, o.path))]
    else if HasConflict(errors, c.id, o.id) then errors
    else errors + [Conflict(c.id, c.target, o.id, TargetOverlap(c.path, o.path))]
  }

  function Against(errors: seq<Error>, c: Claim, others: seq<Claim>): seq<Error>
    decreases |others|
  {
    if others == [] then errors else Against(Compare(errors, c, others[0]), c, others[1..])
  }

  function AllPairs(errors: seq<Error>, claims: seq<Claim>): seq<Error>
    decreases |claims|
  {
    if claims == [] then errors else AllPairs(Against(errors, claims[0], claims[1..]), claims[1..])
  }

  function SortedClaims(p: Platform, resources: seq<Resource>): seq<Claim> {
    var ordered := SortBy(resources, ResourceNotAfter);
    SortBy(AllClaims(p, ordered, ClaimsById(p, ordered)), ClaimNotAfter)
  }

  function Errors(p: Platform, resources: seq<Resource>): seq<Error> {
    AllPairs(InputErrors(p, SortBy(resources, ResourceNotAfter)), SortedClaims(p, resources))
  }

  method ValidateResourcePathConflicts(p: Platform, resources: seq<Resource>) returns (errors: seq<Error>)
    requires IsFaithful(p)
    ensures errors == Errors(p, resources)
  {
    var ordered := SortBy(resources, ResourceNotAfter);
    var byId: map<string, seq<Claim>>;
    errors, byId := CollectClaims(p, ordered);
    var claims := SortBy(AllClaims(p, ordered, byId), ClaimNotAfter);
    var index := 0;
    assert claims[0..] == claims;
    while index < |claims|
      invariant 0 <= index <= |claims| && AllPairs(errors, claims[index..]) == Errors(p, resources)
    {
      assert claims[index..][1..] == claims[index + 1..];
      errors := CompareWithLater(errors, claims[index], claims[index + 1..]);
      index := index + 1;
    }
  }

  /** The first loop: every resource's own errors, and its entry claims by id. */
  method CollectClaims(p: Platform, ordered: seq<Resource>) returns (errors: seq<Error>, byId: map<string, seq<Claim>>)
    requires IsFaithful(p)
    ensures errors == InputErrors(p, ordered) && byId == ClaimsById(p, ordered)
  {
    errors, byId := [], map[];
    var index := 0;
    assert ordered[0..] == ordered;
    while index < |ordered|
      invariant 0 <= index <= |ordered|
      invariant InputErrors(p, ordered) == errors + InputErrors(p, ordered[index..])
      invariant byId == ClaimsById(p, ordered[..index])
    {
      var r := ordered[index];
      InputErrorsFrom(p, ordered, index, errors);
      ClaimsByIdNext(p, ordered, index);
      errors := errors + TargetErrors(r);
      var claims, entryErrors := CanonicalResourcePathClaims(p, r);
      errors := errors + entryErrors;
      byId := byId[r.id := claims];
      index := index + 1;
    }
    assert ordered[..index] == ordered;
  }

  lemma InputErrorsFrom(p: Platform, ordered: seq<Resource>, index: nat, errors: seq<Error>)
    requires index < |ordered|
    ensures errors + InputErrors(p, ordered[index..])
         == errors + TargetErrors(ordered[index]) + EntryErrors(p, ordered[index], SortedEntries(ordered[index]))
            + InputErrors(p, ordered[index + 1..])
  {
    var rest := ordered[index..];
    assert rest[0] == ordered[index] && rest[1..] == ordered[index + 1..];
    Regroup(errors, TargetErrors(rest[0]), EntryErrors(p, rest[0], SortedEntries(rest[0])), InputErrors(p, rest[1..]));
  }

  lemma Regroup(a: seq<Error>, b: seq<Error>, c: seq<Error>, d: seq<Error>)
    ensures a + (b + c + d) == a + b + c + d
  {
  }

  lemma ClaimsByIdNext(p: Platform, ordered: seq<Resource>, index: nat)
    requires index < |ordered|
    ensures ClaimsById(p, ordered[..index + 1])
         == ClaimsById(p, ordered[..index])[ordered[index].id :=
             EntryClaims(p, ordered[index], SortedEntries(ordered[index]))]
  {
    assert ordered[..index + 1][..index] == ordered[..index];
  }

  /** The inner loop: one claim against those after it. */
  method CompareWithLater(before: seq<Error>, claim: Claim, others: seq<Claim>) returns (errors: seq<Error>)
    ensures errors == Against(before, claim, others)
  {
    errors := before;
    var index := 0;
    assert others[0..] == others;
    while index < |others|
      invariant 0 <= index <= |others| && Against(errors, claim, others[index..]) == Against(before, claim, others)
    {
      var other := others[index];
      assert others[index..][1..] == others[index + 1..];
      index := index + 1;
      if !Overlaps(claim.path, other.path) {
        continue;
      }
      if claim.id == other.id {
        if claim.isRoot || other.isRoot {
          continue;
        }
        if claim.rawPath == other.rawPath {
          errors := errors + [Conflict(claim.id, claim.rawPath, other.id, DeclaredTwice(claim.path))];
        } else if !OuterIsDirectory(claim, other) {
          errors := errors + [Conflict(claim.id, claim.rawPath, other.id, ManagedOverlap(claim.path, other.path))];
        }
        continue;
      }
      if !HasConflict(errors, claim.id, other.id) {
        errors := errors + [Conflict(claim.id, claim.target, other.id, TargetOverlap(claim.path, other.path))];
      }
    }
  }

  // ----- at most one conflict for each pair of resources -----

  /** The conflicts between different resources, each pair once and the lesser id first. */
  ghost predicate AreOncePerPair(errors: seq<Error>) {
    && (forall e :: e in errors && e.Conflict? ==> TextNotAfter(e.id, e.conflictsWith))
    && forall i, j :: 0 <= i < j < |errors| && IsCross(errors[i]) && errors[j].Conflict? ==>
         errors[i].id != errors[j].id || errors[i].conflictsWith != errors[j].conflictsWith
  }

  /** A conflict between two different resources. */
  predicate IsCross(e: Error) {
    e.Conflict? && e.id != e.conflictsWith
  }

  lemma CompareKeepsOncePerPair(errors: seq<Error>, c: Claim, o: Claim)
    requires AreOncePerPair(errors) && TextNotAfter(c.id, o.id)
    ensures AreOncePerPair(Compare(errors, c, o))
  {
  }

  lemma {:induction false} AgainstKeepsOncePerPair(errors: seq<Error>, c: Claim, others: seq<Claim>)
    requires AreOncePerPair(errors) && forall o :: o in others ==> TextNotAfter(c.id, o.id)
    ensures AreOncePerPair(Against(errors, c, others))
    decreases |others|
  {
    if others != [] {
      CompareKeepsOncePerPair(errors, c, others[0]);
      AgainstKeepsOncePerPair(Compare(errors, c, others[0]), c, others[1..]);
    }
  }

  /** Claims of lesser resources come first. */
  ghost predicate AreInOrder(claims: seq<Claim>) {
    forall i, j :: 0 <= i < j < |claims| ==> TextNotAfter(claims[i].id, claims[j].id)
  }

  lemma {:induction false} PairsKeepOncePerPair(errors: seq<Error>, claims: seq<Claim>)
    requires AreOncePerPair(errors) && AreInOrder(claims)
    ensures AreOncePerPair(AllPairs(errors, claims))
    decreases |claims|
  {
    if claims != [] {
      AgainstKeepsOncePerPair(errors, claims[0], claims[1..]);
      PairsKeepOncePerPair(Against(errors, claims[0], claims[1..]), claims[1..]);
    }
  }

  lemma ClaimOrderIsLinear()
    ensures Total(ClaimNotAfter) && Transitive(ClaimNotAfter)
  {
    forall a: Claim, b: Claim
      ensures ClaimNotAfter(a, b) || ClaimNotAfter(b, a)
    {
      TextOrderIsTotal(a.id, b.id);
      TextOrderIsTotal(a.path, b.path);
      TextOrderIsTotal(a.rawPath, b.rawPath);
    }
    forall a: Claim, b: Claim, c: Claim | ClaimNotAfter(a, b) && ClaimNotAfter(b, c)
      ensures ClaimNotAfter(a, c)
    {
      ClaimOrderIsTransitive(a, b, c);
    }
  }

  lemma ClaimOrderIsTransitive(a: Claim, b: Claim, c: Claim)
    requires ClaimNotAfter(a, b) && ClaimNotAfter(b, c)
    ensures ClaimNotAfter(a, c)
  {
    if a.id != b.id && b.id != c.id {
      TextOrderIsTransitive(a.id, b.id, c.id);
      if a.id == c.id {
        TextOrderIsAntisymmetric(a.id, b.id);
      }
    } else if a.id == b.id == c.id {
      if a.path != b.path && b.path != c.path {
        TextOrderIsTransitive(a.path, b.path, c.path);
        if a.path == c.path {
          TextOrderIsAntisymmetric(a.path, b.path);
        }
      } else if a.path == b.path == c.path {
        TextOrderIsTransitive(a.rawPath, b.rawPath, c.rawPath);
      }
    }
  }

  lemma {:induction false} InputErrorsAreNotConflicts(p: Platform, ordered: seq<Resource>)
    ensures forall e :: e in InputErrors(p, ordered) ==> !e.Conflict?
  {
    if ordered != [] {
      EntryErrorsAreNotConflicts(p, ordered[0], SortedEntries(ordered[0]));
      InputErrorsAreNotConflicts(p, ordered[1..]);
    }
  }

  lemma {:induction false} EntryErrorsAreNotConflicts(p: Platform, r: Resource, entries: seq<Entry>)
    ensures forall e :: e in EntryErrors(p, r, entries) ==> !e.Conflict?
  {
    if entries != [] {
      EntryErrorsAreNotConflicts(p, r, entries[1..]);
    }
  }

  lemma SortedByResource(p: Platform, resources: seq<Resource>)
    ensures AreInOrder(SortedClaims(p, resources))
  {
    var ordered := SortBy(resources, ResourceNotAfter);
    ClaimOrderIsLinear();
    SortIsOrdered(AllClaims(p, ordered, ClaimsById(p, ordered)), ClaimNotAfter);
    var claims := SortedClaims(p, resources);
    forall i, j | 0 <= i < j < |claims|
      ensures TextNotAfter(claims[i].id, claims[j].id)
    {
      assert ClaimNotAfter(claims[i], claims[j]);
      TextOrderIsTotal(claims[i].id, claims[i].id);
    }
  }

  lemma OncePerPairEitherWay(errors: seq<Error>, i: nat, j: nat)
    requires AreOncePerPair(errors) && i < j < |errors| && errors[i].Conflict? && errors[j].Conflict?
    requires errors[i].id != errors[i].conflictsWith
    ensures {errors[i].id, errors[i].conflictsWith} != {errors[j].id, errors[j].conflictsWith}
  {
    var e, f := errors[i], errors[j];
    assert e in errors && f in errors;
    if e.id == f.conflictsWith && e.conflictsWith == f.id {
      TextOrderIsAntisymmetric(e.id, e.conflictsWith);
      assert false;
    }
    assert e.id in {e.id, e.conflictsWith} && e.conflictsWith in {e.id, e.conflictsWith};
  }

  /** Two resources are reported as conflicting at most once, whichever way round. */
  lemma OneConflictPerPair(p: Platform, resources: seq<Resource>, i: nat, j: nat)
    requires i < j < |Errors(p, resources)|
    requires Errors(p, resources)[i].Conflict? && Errors(p, resources)[j].Conflict?
    requires Errors(p, resources)[i].id != Errors(p, resources)[i].conflictsWith
    ensures var e, f := Errors(p, resources)[i], Errors(p, resources)[j];
            {e.id, e.conflictsWith} != {f.id, f.conflictsWith}
  {
    var ordered := SortBy(resources, ResourceNotAfter);
    InputErrorsAreNotConflicts(p, ordered);
    SortedByResource(p, resources);
    PairsKeepOncePerPair(InputErrors(p, ordered), SortedClaims(p, resources));
    OncePerPairEitherWay(Errors(p, resources), i, j);
  }

  // ----- which pairs are reported -----

  /** The first claim is of one resource, the second of the other, and they may not both stand. */
  ghost predicate IsReported(c: Claim, o: Claim, id: string, other: string) {
    c.id == id && o.id == other && !Quiet(c, o)
  }

  ghost function Unreported(id: string, other: string): (Claim, Claim) -> bool {
    (c, o) => !IsReported(c, o, id, other)
  }

  lemma CompareReports(errors: seq<Error>, c: Claim, o: Claim, id: string, other: string)
    ensures HasConflict(Compare(errors, c, o), id, other)
       <==> HasConflict(errors, id, other) || IsReported(c, o, id, other)
  {
    var after := Compare(errors, c, o);
    if after != errors {
      assert after == errors + [after[|errors|]];
      assert forall e :: e in after <==> e in errors || e == after[|errors|];
    }
  }

  lemma {:induction false} AgainstReports(errors: seq<Error>, c: Claim, others: seq<Claim>, id: string, other: string)
    ensures HasConflict(Against(errors, c, others), id, other)
       <==> HasConflict(errors, id, other) || exists i :: 0 <= i < |others| && IsReported(c, others[i], id, other)
    decreases |others|
  {
    if others != [] {
      CompareReports(errors, c, others[0], id, other);
      AgainstReports(Compare(errors, c, others[0]), c, others[1..], id, other);
      if i :| 0 <= i < |others| && IsReported(c, others[i], id, other) {
        assert i > 0 ==> IsReported(c, others[1..][i - 1], id, other);
      }
      if i :| 0 <= i < |others[1..]| && IsReported(c, others[1..][i], id, other) {
        assert IsReported(c, others[i + 1], id, other);
      }
    }
  }

  lemma {:induction false} PairsReport(errors: seq<Error>, claims: seq<Claim>, id: string, other: string)
    ensures HasConflict(AllPairs(errors, claims), id, other)
       <==> HasConflict(errors, id, other) || !Pairwise(claims, Unreported(id, other))
    decreases |claims|
  {
    if claims != [] {
      AgainstReports(errors, claims[0], claims[1..], id, other);
      PairsReport(Against(errors, claims[0], claims[1..]), claims[1..], id, other);
      PairwiseFirst(claims, Unreported(id, other));
      assert forall i :: 0 <= i < |claims[1..]| ==>
          (Unreported(id, other)(claims[0], claims[1..][i]) <==> !IsReported(claims[0], claims[1..][i], id, other));
    }
  }

  /** Some claim of one resource overlaps some claim of the other. */
  ghost predicate HaveOverlap(claims: seq<Claim>, id: string, other: string) {
    exists x, y :: x in claims && y in claims && x.id == id && y.id == other && Overlaps(x.path, y.path)
  }

  /** Whatever else is wrong, two resources are reported exactly when some of their
      claims overlap, the lesser id first. */
  lemma ConflictIffOverlap(p: Platform, resources: seq<Resource>, id: string, other: string)
    requires id != other && TextNotAfter(id, other)
    ensures HasConflict(Errors(p, resources), id, other)
       <==> HaveOverlap(SortedClaims(p, resources), id, other)
  {
    var claims := SortedClaims(p, resources);
    InputErrorsAreNotConflicts(p, SortBy(resources, ResourceNotAfter));
    PairsReport(InputErrors(p, SortBy(resources, ResourceNotAfter)), claims, id, other);
    SortedByResource(p, resources);
    OverlapInOrder(claims, id, other);
  }

  lemma ReportedIffOverlap(c: Claim, o: Claim, id: string, other: string)
    requires id != other
    ensures IsReported(c, o, id, other) <==> c.id == id && o.id == other && Overlaps(c.path, o.path)
  {
  }

  lemma OverlapInOrder(claims: seq<Claim>, id: string, other: string)
    requires id != other && TextNotAfter(id, other) && AreInOrder(claims)
    ensures !Pairwise(claims, Unreported(id, other)) <==> HaveOverlap(claims, id, other)
  {
    var unreported := Unreported(id, other);
    if HaveOverlap(claims, id, other) {
      var i, j := OverlappingPositions(claims, id, other);
      ReportedIffOverlap(claims[i], claims[j], id, other);
      assert !unreported(claims[i], claims[j]);
    }
    if !Pairwise(claims, unreported) {
      var i, j :| 0 <= i < j < |claims| && !unreported(claims[i], claims[j]);
      ReportedIffOverlap(claims[i], claims[j], id, other);
      assert claims[i] in claims && claims[j] in claims;
    }
  }

  lemma OverlappingPositions(claims: seq<Claim>, id: string, other: string) returns (i: nat, j: nat)
    requires id != other && TextNotAfter(id, other) && AreInOrder(claims) && HaveOverlap(claims, id, other)
    ensures i < j < |claims| && claims[i].id == id && claims[j].id == other
    ensures Overlaps(claims[i].path, claims[j].path)
  {
    var x, y :| x in claims && y in claims && x.id == id && y.id == other && Overlaps(x.path, y.path);
    i :| 0 <= i < |claims| && claims[i] == x;
    j :| 0 <= j < |claims| && claims[j] == y;
    if j < i {
      LaterIsNotLess(claims, j, i);
      TextOrderIsAntisymmetric(id, other);
    }
  }

  /** One resource is reported against itself exactly when two of its claims may not both stand. */
  lemma OwnConflictIffDisturbed(p: Platform, resources: seq<Resource>, id: string)
    ensures HasConflict(Errors(p, resources), id, id)
       <==> var claims := SortedClaims(p, resources);
            exists i, j :: 0 <= i < j < |claims| && claims[i].id == id == claims[j].id && !Quiet(claims[i], claims[j])
  {
    var claims := SortedClaims(p, resources);
    InputErrorsAreNotConflicts(p, SortBy(resources, ResourceNotAfter));
    PairsReport(InputErrors(p, SortBy(resources, ResourceNotAfter)), claims, id, id);
    if i, j :| 0 <= i < j < |claims| && claims[i].id == id == claims[j].id && !Quiet(claims[i], claims[j]) {
      assert !Unreported(id, id)(claims[i], claims[j]);
    }
    if !Pairwise(claims, Unreported(id, id)) {
      var i, j :| 0 <= i < j < |claims| && !Unreported(id, id)(claims[i], claims[j]);
      assert IsReported(claims[i], claims[j], id, id);
    }
  }

  lemma LaterIsNotLess(claims: seq<Claim>, i: nat, j: nat)
    requires AreInOrder(claims) && i < j < |claims|
    ensures TextNotAfter(claims[i].id, claims[j].id)
  {
  }

  // ----- when nothing is reported -----

  /** Comparing the two reports nothing. */
  predicate Quiet(c: Claim, o: Claim) {
    !Overlaps(c.path, o.path) || (c.id == o.id
        && (c.isRoot || o.isRoot || (c.rawPath != o.rawPath && OuterIsDirectory(c, o))))
  }

  lemma QuietIsSymmetric(c: Claim, o: Claim)
    ensures Quiet(c, o) <==> Quiet(o, c)
  {
    assert Overlaps(c.path, o.path) <==> Overlaps(o.path, c.path);
    assert !(o.path + "/" <= c.path && c.path + "/" <= o.path) by {
      assert |o.path + "/"| == |o.path| + 1 && |c.path + "/"| == |c.path| + 1;
    }
  }

  lemma {:induction false} AgainstIsQuiet(errors: seq<Error>, c: Claim, others: seq<Claim>)
    ensures |errors| <= |Against(errors, c, others)|
    ensures errors == [] ==>
              (Against(errors, c, others) == [] <==> forall i :: 0 <= i < |others| ==> Quiet(c, others[i]))
    decreases |others|
  {
    if others != [] {
      AgainstIsQuiet(Compare(errors, c, others[0]), c, others[1..]);
      assert others == [others[0]] + others[1..];
    }
  }

  lemma {:induction false} AllPairsIsQuiet(errors: seq<Error>, claims: seq<Claim>)
    ensures |errors| <= |AllPairs(errors, claims)|
    ensures errors == [] ==> (AllPairs(errors, claims) == [] <==> Pairwise(claims, Quiet))
    decreases |claims|
  {
    if claims != [] {
      AgainstIsQuiet(errors, claims[0], claims[1..]);
      AllPairsIsQuiet(Against(errors, claims[0], claims[1..]), claims[1..]);
      PairwiseFirst(claims, Quiet);
    }
  }

  lemma PairwiseFirst<T>(xs: seq<T>, related: (T, T) -> bool)
    requires xs != []
    ensures Pairwise(xs, related)
       <==> (forall i :: 0 <= i < |xs[1..]| ==> related(xs[0], xs[1..][i])) && Pairwise(xs[1..], related)
  {
    if (forall i :: 0 <= i < |xs[1..]| ==> related(xs[0], xs[1..][i])) && Pairwise(xs[1..], related) {
      forall i, j | 0 <= i < j < |xs|
        ensures related(xs[i], xs[j])
      {
        assert related(if i == 0 then xs[0] else xs[1..][i - 1], xs[1..][j - 1]);
      }
    }
    if Pairwise(xs, related) {
      forall i, j | 0 <= i < j < |xs[1..]|
        ensures related(xs[1..][i], xs[1..][j])
      {
        assert related(xs[i + 1], xs[j + 1]);
      }
    }
  }

  ghost predicate HaveUniqueIds(resources: seq<Resource>) {
    forall i, j :: 0 <= i < j < |resources| ==> resources[i].id != resources[j].id
  }

  /** What one resource claims when no other has its id. */
  function OwnClaims(p: Platform, r: Resource): seq<Claim> {
    if IsFilesystem(r) then [RootClaim(p, r)] + EntryClaims(p, r, SortedEntries(r)) else []
  }

  function Flat(p: Platform, ordered: seq<Resource>): seq<Claim> {
    if ordered == [] then [] else OwnClaims(p, ordered[0]) + Flat(p, ordered[1..])
  }

  lemma {:induction false} ClaimsByIdAre(p: Platform, ordered: seq<Resource>, i: nat)
    requires HaveUniqueIds(ordered) && i < |ordered|
    ensures ordered[i].id in ClaimsById(p, ordered)
    ensures ClaimsById(p, ordered)[ordered[i].id] == EntryClaims(p, ordered[i], SortedEntries(ordered[i]))
    decreases |ordered|
  {
    if i < |ordered| - 1 {
      ClaimsByIdAre(p, ordered[..|ordered| - 1], i);
    }
  }

  lemma {:induction false} RenamedIsSame(p: Platform, r: Resource, entries: seq<Entry>)
    ensures Renamed(EntryClaims(p, r, entries), r) == EntryClaims(p, r, entries)
  {
    if entries != [] {
      RenamedIsSame(p, r, entries[1..]);
      if InvalidPathReason(p, entries[0].path).Some? {
        assert [] + EntryClaims(p, r, entries[1..]) == EntryClaims(p, r, entries[1..]);
      } else {
        assert EntryClaims(p, r, entries)[1..] == EntryClaims(p, r, entries[1..]);
      }
    }
  }

  lemma {:induction false} AllClaimsAreFlat(p: Platform, ordered: seq<Resource>, byId: map<string, seq<Claim>>)
    requires forall i :: 0 <= i < |ordered| ==>
               ordered[i].id in byId && byId[ordered[i].id] == EntryClaims(p, ordered[i], SortedEntries(ordered[i]))
    ensures AllClaims(p, ordered, byId) == Flat(p, ordered)
  {
    if ordered != [] {
      RenamedIsSame(p, ordered[0], SortedEntries(ordered[0]));
      AllClaimsAreFlat(p, ordered[1..], byId);
    }
  }

  /** No claim of one disturbs a claim of the other. */
  predicate QuietResources(p: Platform, r: Resource, s: Resource) {
    forall x, y | x in OwnClaims(p, r) && y in OwnClaims(p, s) :: Quiet(x, y)
  }

  ghost function QuietIn(p: Platform): (Resource, Resource) -> bool {
    (r, s) => QuietResources(p, r, s)
  }

  lemma PairwiseConcat<T>(a: seq<T>, b: seq<T>, related: (T, T) -> bool)
    ensures Pairwise(a + b, related)
       <==> Pairwise(a, related) && Pairwise(b, related) && forall x, y :: x in a && y in b ==> related(x, y)
  {
    var all := a + b;
    if Pairwise(all, related) {
      forall i, j | 0 <= i < j < |a|
        ensures related(a[i], a[j])
      {
        assert related(all[i], all[j]);
      }
      forall i, j | 0 <= i < j < |b|
        ensures related(b[i], b[j])
      {
        assert related(all[|a| + i], all[|a| + j]);
      }
      forall x, y | x in a && y in b
        ensures related(x, y)
      {
        var i :| 0 <= i < |a| && a[i] == x;
        var j :| 0 <= j < |b| && b[j] == y;
        assert related(all[i], all[|a| + j]);
      }
    }
    if Pairwise(a, related) && Pairwise(b, related) && forall x, y :: x in a && y in b ==> related(x, y) {
      forall i, j | 0 <= i < j < |all|
        ensures related(all[i], all[j])
      {
        if j < |a| {
          assert related(a[i], a[j]);
        } else if i >= |a| {
          assert related(b[i - |a|], b[j - |a|]);
        } else {
          assert a[i] in a && b[j - |a|] in b;
          assert related(a[i], b[j - |a|]);
        }
      }
    }
  }

  ghost predicate IsClaimed(p: Platform, ordered: seq<Resource>, x: Claim) {
    exists r :: r in ordered && x in OwnClaims(p, r)
  }

  lemma {:induction false} InFlat(p: Platform, ordered: seq<Resource>, x: Claim)
    ensures x in Flat(p, ordered) <==> IsClaimed(p, ordered, x)
  {
    if ordered != [] {
      InFlat(p, ordered[1..], x);
      ClaimedFirst(p, ordered, x);
    }
  }

  lemma ClaimedFirst(p: Platform, ordered: seq<Resource>, x: Claim)
    requires ordered != []
    ensures IsClaimed(p, ordered, x) <==> x in OwnClaims(p, ordered[0]) || IsClaimed(p, ordered[1..], x)
  {
    assert forall r :: r in ordered <==> r == ordered[0] || r in ordered[1..];
  }

  ghost predicate AreEachQuiet(p: Platform, ordered: seq<Resource>) {
    forall r :: r in ordered ==> Pairwise(OwnClaims(p, r), Quiet)
  }

  ghost predicate AreQuietTogether(p: Platform, r: Resource, rest: seq<Resource>) {
    forall x, y :: x in OwnClaims(p, r) && y in Flat(p, rest) ==> Quiet(x, y)
  }

  lemma {:induction false} FlatIsQuiet(p: Platform, ordered: seq<Resource>)
    ensures Pairwise(Flat(p, ordered), Quiet) <==> AreEachQuiet(p, ordered) && Pairwise(ordered, QuietIn(p))
  {
    if ordered != [] {
      FlatIsQuietFirst(p, ordered);
      FlatIsQuiet(p, ordered[1..]);
      PairwiseFirst(ordered, QuietIn(p));
      FirstIsQuiet(p, ordered[0], ordered[1..]);
      EachQuietFirst(p, ordered);
    }
  }

  lemma FlatIsQuietFirst(p: Platform, ordered: seq<Resource>)
    requires ordered != []
    ensures Pairwise(Flat(p, ordered), Quiet)
       <==> Pairwise(OwnClaims(p, ordered[0]), Quiet) && Pairwise(Flat(p, ordered[1..]), Quiet)
            && AreQuietTogether(p, ordered[0], ordered[1..])
  {
    PairwiseConcat(OwnClaims(p, ordered[0]), Flat(p, ordered[1..]), Quiet);
  }

  lemma EachQuietFirst(p: Platform, ordered: seq<Resource>)
    requires ordered != []
    ensures AreEachQuiet(p, ordered) <==> Pairwise(OwnClaims(p, ordered[0]), Quiet) && AreEachQuiet(p, ordered[1..])
  {
    assert forall r :: r in ordered <==> r == ordered[0] || r in ordered[1..];
  }

  lemma FirstIsQuiet(p: Platform, r: Resource, rest: seq<Resource>)
    ensures AreQuietTogether(p, r, rest) <==> forall i :: 0 <= i < |rest| ==> QuietIn(p)(r, rest[i])
  {
    if forall i :: 0 <= i < |rest| ==> QuietIn(p)(r, rest[i]) {
      forall x, y | x in OwnClaims(p, r) && y in Flat(p, rest)
        ensures Quiet(x, y)
      {
        InFlat(p, rest, y);
        var s :| s in rest && y in OwnClaims(p, s);
        var i :| 0 <= i < |rest| && rest[i] == s;
        assert QuietIn(p)(r, rest[i]);
      }
    }
    if AreQuietTogether(p, r, rest) {
      forall i | 0 <= i < |rest|
        ensures QuietIn(p)(r, rest[i])
      {
        forall x, y | x in OwnClaims(p, r) && y in OwnClaims(p, rest[i])
          ensures Quiet(x, y)
        {
          InFlat(p, rest, y);
        }
      }
    }
  }

  // ----- what the resources must satisfy -----

  predicate IsValid(p: Platform, r: Resource) {
    InvalidTargetReason(r.target).None? && forall e | e in r.entries :: InvalidPathReason(p, e.path).None?
  }

  ghost function EntryLocation(p: Platform, target: string, e: Entry): Location {
    LocationOf(p, target + "/" + e.path)
  }

  /** Two entries overlap only when one is a declared directory around the other. */
  ghost predicate AreCompatible(p: Platform, target: string, a: Entry, b: Entry) {
    var x, y := EntryLocation(p, target, a), EntryLocation(p, target, b);
    Nested(x, y) ==> x != y && (if IsWithin(x, y) then a.isDirectory else b.isDirectory)
  }

  ghost function CompatibleIn(p: Platform, target: string): (Entry, Entry) -> bool {
    (a, b) => AreCompatible(p, target, a, b)
  }

  ghost predicate OwnDisjointTrees(p: Platform, r: Resource, s: Resource) {
    IsFilesystem(r) && IsFilesystem(s) ==> AreDisjoint(LocationOf(p, r.target), LocationOf(p, s.target))
  }

  ghost function DisjointIn(p: Platform): (Resource, Resource) -> bool {
    (r, s) => OwnDisjointTrees(p, r, s)
  }

  /** Every path is valid, resources own disjoint trees, and entries overlap only below declared directories. */
  ghost predicate AreConsistent(p: Platform, resources: seq<Resource>) {
    AreValid(p, resources) && HaveCompatibleEntries(p, resources) && Pairwise(resources, DisjointIn(p))
  }

  /** A target strictly below its root, which does not read as a drive. */
  ghost predicate IsBelowRoot(p: Platform, r: Resource) {
    LocationOf(p, r.target).segments != [] && !IsAmbiguous(LocationOf(p, r.target))
  }

  lemma {:induction false} NoEntryErrors(p: Platform, r: Resource, entries: seq<Entry>)
    ensures EntryErrors(p, r, entries) == [] <==> forall e :: e in entries ==> InvalidPathReason(p, e.path).None?
  {
    if entries != [] {
      NoEntryErrors(p, r, entries[1..]);
      assert entries == [entries[0]] + entries[1..];
    }
  }

  ghost predicate AreValid(p: Platform, resources: seq<Resource>) {
    forall r :: r in resources ==> IsValid(p, r)
  }

  lemma NoOwnErrors(p: Platform, r: Resource)
    ensures TargetErrors(r) == [] && EntryErrors(p, r, SortedEntries(r)) == [] <==> IsValid(p, r)
  {
    NoEntryErrors(p, r, SortedEntries(r));
    SameElements(r.entries, EntryNotAfter);
  }

  lemma {:induction false} NoInputErrors(p: Platform, ordered: seq<Resource>)
    ensures InputErrors(p, ordered) == [] <==> AreValid(p, ordered)
  {
    if ordered != [] {
      NoInputErrors(p, ordered[1..]);
      NoOwnErrors(p, ordered[0]);
      assert forall r :: r in ordered <==> r == ordered[0] || r in ordered[1..];
    }
  }

  /** A claim's path is the text of a location inside its resource's tree. */
  ghost predicate IsPlaced(p: Platform, r: Resource, c: Claim, l: Location) {
    c.id == r.id && c.path == Text(l) && IsWellFormed(l) && l.segments != [] && !IsAmbiguous(l)
        && IsWithin(LocationOf(p, r.target), l)
  }

  lemma ValidTargetIsNotEmpty(target: string)
    requires InvalidTargetReason(target).None?
    ensures target != ""
  {
  }

  lemma EntryIsPlaced(p: Platform, r: Resource, e: Entry)
    requires IsFaithful(p) && IsBelowRoot(p, r) && r.target != ""
    ensures IsPlaced(p, r, EntryClaim(p, r, e), EntryLocation(p, r.target, e))
  {
    EntryIsWithinTarget(p, r.target, e.path);
    LocationIsWellFormed(p, r.target + "/" + e.path);
  }

  ghost predicate AreValidEntries(p: Platform, entries: seq<Entry>) {
    forall e :: e in entries ==> InvalidPathReason(p, e.path).None?
  }

  lemma {:induction false} EntryClaimsAre(p: Platform, r: Resource, entries: seq<Entry>)
    requires AreValidEntries(p, entries)
    ensures |EntryClaims(p, r, entries)| == |entries|
  {
    if entries != [] {
      EntryClaimsAre(p, r, entries[1..]);
      ValidEntryFirst(p, r, entries);
    }
  }

  lemma {:induction false} EntryClaimAt(p: Platform, r: Resource, entries: seq<Entry>, i: nat)
    requires AreValidEntries(p, entries) && i < |entries| == |EntryClaims(p, r, entries)|
    ensures EntryClaims(p, r, entries)[i] == EntryClaim(p, r, entries[i])
  {
    ValidEntryFirst(p, r, entries);
    if i > 0 {
      EntryClaimAt(p, r, entries[1..], i - 1);
    }
  }

  lemma ValidEntryFirst(p: Platform, r: Resource, entries: seq<Entry>)
    requires AreValidEntries(p, entries) && entries != []
    ensures EntryClaims(p, r, entries) == [EntryClaim(p, r, entries[0])] + EntryClaims(p, r, entries[1..])
    ensures AreValidEntries(p, entries[1..])
  {
  }

  lemma OwnClaimIsPlaced(p: Platform, r: Resource, c: Claim) returns (l: Location)
    requires IsFaithful(p) && IsBelowRoot(p, r) && IsValid(p, r) && c in OwnClaims(p, r)
    ensures IsPlaced(p, r, c, l)
  {
    if c == RootClaim(p, r) {
      l := LocationOf(p, r.target);
      LocationIsWellFormed(p, r.target);
    } else {
      var e := EntryOfClaim(p, r, c);
      ValidTargetIsNotEmpty(r.target);
      EntryIsPlaced(p, r, e);
      l := EntryLocation(p, r.target, e);
    }
  }

  lemma EntryOfClaim(p: Platform, r: Resource, c: Claim) returns (e: Entry)
    requires IsValid(p, r) && c in OwnClaims(p, r) && c != RootClaim(p, r)
    ensures c == EntryClaim(p, r, e)
  {
    var entries := SortedEntries(r);
    SameElements(r.entries, EntryNotAfter);
    EntryClaimsAre(p, r, entries);
    var i :| 0 <= i < |entries| && c == EntryClaims(p, r, entries)[i];
    EntryClaimAt(p, r, entries, i);
    e := entries[i];
  }

  lemma QuietRootsAreDisjoint(p: Platform, r: Resource, s: Resource)
    requires IsFaithful(p) && r.id != s.id && IsBelowRoot(p, r) && IsBelowRoot(p, s)
    requires Quiet(RootClaim(p, r), RootClaim(p, s))
    ensures AreDisjoint(LocationOf(p, r.target), LocationOf(p, s.target))
  {
    LocationIsWellFormed(p, r.target);
    LocationIsWellFormed(p, s.target);
    OverlapIsNesting(LocationOf(p, r.target), LocationOf(p, s.target));
    DisjointIffNotNested(LocationOf(p, r.target), LocationOf(p, s.target));
  }

  /** Claims of different resources are quiet exactly when the trees are disjoint. */
  lemma QuietIffDisjoint(p: Platform, r: Resource, s: Resource)
    requires IsFaithful(p) && r.id != s.id && IsValid(p, r) && IsValid(p, s)
    requires IsFilesystem(r) ==> IsBelowRoot(p, r)
    requires IsFilesystem(s) ==> IsBelowRoot(p, s)
    ensures QuietResources(p, r, s) <==> OwnDisjointTrees(p, r, s)
  {
    if IsFilesystem(r) && IsFilesystem(s) {
      if QuietResources(p, r, s) {
        RootIsOwn(p, r);
        RootIsOwn(p, s);
        QuietRootsAreDisjoint(p, r, s);
      }
      if OwnDisjointTrees(p, r, s) {
        forall x, y | x in OwnClaims(p, r) && y in OwnClaims(p, s)
          ensures Quiet(x, y)
        {
          DisjointTreesAreQuiet(p, r, s, x, y);
        }
      }
    }
  }

  lemma RootIsOwn(p: Platform, r: Resource)
    requires IsFilesystem(r)
    ensures RootClaim(p, r) in OwnClaims(p, r)
  {
  }

  lemma DisjointTreesAreQuiet(p: Platform, r: Resource, s: Resource, x: Claim, y: Claim)
    requires IsFaithful(p) && IsValid(p, r) && IsValid(p, s) && IsBelowRoot(p, r) && IsBelowRoot(p, s)
    requires AreDisjoint(LocationOf(p, r.target), LocationOf(p, s.target))
    requires x in OwnClaims(p, r) && y in OwnClaims(p, s)
    ensures Quiet(x, y)
  {
    var a := OwnClaimIsPlaced(p, r, x);
    var b := OwnClaimIsPlaced(p, s, y);
    OverlapIsNesting(a, b);
    assert !Nested(a, b) by {
      assert !(IsWithin(LocationOf(p, r.target), a) && IsWithin(LocationOf(p, s.target), a));
      assert !(IsWithin(LocationOf(p, r.target), b) && IsWithin(LocationOf(p, s.target), b));
    }
  }

  /** Two entry claims of one resource are quiet exactly when the entries are compatible. */
  lemma QuietIffCompatible(p: Platform, r: Resource, a: Entry, b: Entry)
    requires IsFaithful(p) && IsBelowRoot(p, r) && r.target != ""
    ensures Quiet(EntryClaim(p, r, a), EntryClaim(p, r, b)) <==> AreCompatible(p, r.target, a, b)
  {
    EntryIsPlaced(p, r, a);
    EntryIsPlaced(p, r, b);
    var x, y := EntryLocation(p, r.target, a), EntryLocation(p, r.target, b);
    OverlapIsNesting(x, y);
    OverlapIsPrefix(x, y);
    OverlapIsPrefix(y, x);
    PathPrefixIsWithin(x, y);
    PathPrefixIsWithin(y, x);
    assert x == y ==> Path(x) == Path(y);
    assert IsWithin(x, y) && IsWithin(y, x) ==> x == y;
  }

  lemma ClaimsAreQuiet(p: Platform, r: Resource, entries: seq<Entry>)
    requires IsFaithful(p) && IsBelowRoot(p, r) && r.target != "" && AreValidEntries(p, entries)
    ensures Pairwise(EntryClaims(p, r, entries), Quiet) <==> Pairwise(entries, CompatibleIn(p, r.target))
  {
    var claims, compatible := EntryClaims(p, r, entries), CompatibleIn(p, r.target);
    EntryClaimsAre(p, r, entries);
    forall i, j | 0 <= i < j < |entries|
      ensures Quiet(claims[i], claims[j]) <==> compatible(entries[i], entries[j])
    {
      PairIsQuiet(p, r, entries, i, j);
    }
    PairwiseCorresponds(claims, Quiet, entries, compatible);
  }

  lemma PairIsQuiet(p: Platform, r: Resource, entries: seq<Entry>, i: nat, j: nat)
    requires IsFaithful(p) && IsBelowRoot(p, r) && r.target != "" && AreValidEntries(p, entries)
    requires i < j < |entries| == |EntryClaims(p, r, entries)|
    ensures Quiet(EntryClaims(p, r, entries)[i], EntryClaims(p, r, entries)[j])
       <==> CompatibleIn(p, r.target)(entries[i], entries[j])
  {
    EntryClaimAt(p, r, entries, i);
    EntryClaimAt(p, r, entries, j);
    QuietIffCompatible(p, r, entries[i], entries[j]);
  }

  lemma PairwiseCorresponds<S, T>(xs: seq<S>, p: (S, S) -> bool, ys: seq<T>, q: (T, T) -> bool)
    requires |xs| == |ys| && forall i, j :: 0 <= i < j < |xs| ==> (p(xs[i], xs[j]) <==> q(ys[i], ys[j]))
    ensures Pairwise(xs, p) <==> Pairwise(ys, q)
  {
  }

  lemma {:induction false} EntryClaimsHaveId(p: Platform, r: Resource, entries: seq<Entry>)
    ensures forall c :: c in EntryClaims(p, r, entries) ==> c.id == r.id
  {
    if entries != [] {
      EntryClaimsHaveId(p, r, entries[1..]);
    }
  }

  /** A target is never in conflict with what lies below it. */
  lemma RootIsQuiet(p: Platform, r: Resource)
    requires IsFilesystem(r)
    ensures Pairwise(OwnClaims(p, r), Quiet) <==> Pairwise(EntryClaims(p, r, SortedEntries(r)), Quiet)
  {
    var claims := EntryClaims(p, r, SortedEntries(r));
    EntryClaimsHaveId(p, r, SortedEntries(r));
    PairwiseConcat([RootClaim(p, r)], claims, Quiet);
  }

  lemma EntriesAreQuiet(p: Platform, r: Resource)
    requires IsFaithful(p) && IsBelowRoot(p, r) && IsValid(p, r) && IsFilesystem(r)
    ensures Pairwise(OwnClaims(p, r), Quiet) <==> Pairwise(r.entries, CompatibleIn(p, r.target))
  {
    SameElements(r.entries, EntryNotAfter);
    ValidTargetIsNotEmpty(r.target);
    ClaimsAreQuiet(p, r, SortedEntries(r));
    RootIsQuiet(p, r);
    CompatibleIsSymmetric(p, r.target);
    PairwiseIgnoresOrder(SortedEntries(r), r.entries, CompatibleIn(p, r.target));
  }

  lemma CompatibleIsSymmetric(p: Platform, target: string)
    ensures forall a, b :: CompatibleIn(p, target)(a, b) <==> CompatibleIn(p, target)(b, a)
  {
    forall a, b
      ensures CompatibleIn(p, target)(a, b) <==> CompatibleIn(p, target)(b, a)
    {
      var x, y := EntryLocation(p, target, a), EntryLocation(p, target, b);
      assert IsWithin(x, y) && IsWithin(y, x) ==> x == y;
    }
  }

  lemma {:induction false} QuietInIsSymmetric(p: Platform)
    ensures forall r, s :: QuietIn(p)(r, s) <==> QuietIn(p)(s, r)
  {
    forall r, s
      ensures QuietIn(p)(r, s) <==> QuietIn(p)(s, r)
    {
      forall x, y
        ensures Quiet(x, y) <==> Quiet(y, x)
      {
        QuietIsSymmetric(x, y);
      }
    }
  }

  /** Ignoring the order in which the program visits claims and resources. */
  lemma PairsOfResources(p: Platform, resources: seq<Resource>)
    requires HaveUniqueIds(resources)
    ensures Pairwise(SortedClaims(p, resources), Quiet)
       <==> AreEachQuiet(p, resources) && Pairwise(resources, QuietIn(p))
  {
    var ordered := SortBy(resources, ResourceNotAfter);
    UniqueIdsIgnoreOrder(resources);
    forall i | 0 <= i < |ordered|
      ensures ordered[i].id in ClaimsById(p, ordered)
              && ClaimsById(p, ordered)[ordered[i].id] == EntryClaims(p, ordered[i], SortedEntries(ordered[i]))
    {
      ClaimsByIdAre(p, ordered, i);
    }
    AllClaimsAreFlat(p, ordered, ClaimsById(p, ordered));
    forall x, y
      ensures Quiet(x, y) <==> Quiet(y, x)
    {
      QuietIsSymmetric(x, y);
    }
    PairwiseIgnoresOrder(SortedClaims(p, resources), Flat(p, ordered), Quiet);
    FlatIsQuiet(p, ordered);
    QuietInIsSymmetric(p);
    PairwiseIgnoresOrder(ordered, resources, QuietIn(p));
    SameElements(resources, ResourceNotAfter);
  }

  ghost predicate DifferInId(r: Resource, s: Resource) {
    r.id != s.id
  }

  lemma UniqueIdsIgnoreOrder(resources: seq<Resource>)
    requires HaveUniqueIds(resources)
    ensures HaveUniqueIds(SortBy(resources, ResourceNotAfter))
  {
    var differ: (Resource, Resource) -> bool := (r, s) => DifferInId(r, s);
    PairwiseIgnoresOrder(resources, SortBy(resources, ResourceNotAfter), differ);
    assert forall i, j :: 0 <= i < j < |resources| ==> differ(resources[i], resources[j]);
    var ordered := SortBy(resources, ResourceNotAfter);
    assert forall i, j :: 0 <= i < j < |ordered| ==> differ(ordered[i], ordered[j]);
  }

  /** The targets the text check is exact for. */
  ghost predicate AreBelowRoots(p: Platform, resources: seq<Resource>) {
    forall r :: r in resources && IsFilesystem(r) ==> IsBelowRoot(p, r)
  }

  ghost predicate HaveCompatibleEntries(p: Platform, resources: seq<Resource>) {
    forall r :: r in resources && IsFilesystem(r) ==> Pairwise(r.entries, CompatibleIn(p, r.target))
  }

  lemma OwnClaimsAreQuiet(p: Platform, resources: seq<Resource>)
    requires IsFaithful(p) && AreBelowRoots(p, resources) && AreValid(p, resources)
    ensures AreEachQuiet(p, resources) <==> HaveCompatibleEntries(p, resources)
  {
    forall r | r in resources
      ensures Pairwise(OwnClaims(p, r), Quiet) <==> (IsFilesystem(r) ==> Pairwise(r.entries, CompatibleIn(p, r.target)))
    {
      if IsFilesystem(r) {
        EntriesAreQuiet(p, r);
      }
    }
  }

  lemma PairsAreQuiet(p: Platform, resources: seq<Resource>)
    requires IsFaithful(p) && AreBelowRoots(p, resources) && AreValid(p, resources) && HaveUniqueIds(resources)
    ensures Pairwise(resources, QuietIn(p)) <==> Pairwise(resources, DisjointIn(p))
  {
    forall i, j | 0 <= i < j < |resources|
      ensures QuietIn(p)(resources[i], resources[j]) <==> DisjointIn(p)(resources[i], resources[j])
    {
      QuietIffDisjoint(p, resources[i], resources[j]);
    }
  }

  lemma NoErrorIffQuiet(p: Platform, resources: seq<Resource>)
    requires HaveUniqueIds(resources)
    ensures Errors(p, resources) == []
       <==> AreValid(p, resources) && AreEachQuiet(p, resources) && Pairwise(resources, QuietIn(p))
  {
    var ordered := SortBy(resources, ResourceNotAfter);
    NoInputErrors(p, ordered);
    SameElements(resources, ResourceNotAfter);
    AllPairsIsQuiet(InputErrors(p, ordered), SortedClaims(p, resources));
    PairsOfResources(p, resources);
  }

  /** Nothing is reported exactly when every path is valid, resources own disjoint
      trees, and entries of one resource overlap only below declared directories. */
  lemma NoErrorIffConsistent(p: Platform, resources: seq<Resource>)
    requires IsFaithful(p) && HaveUniqueIds(resources) && AreBelowRoots(p, resources)
    ensures Errors(p, resources) == [] <==> AreConsistent(p, resources)
  {
    NoErrorIffQuiet(p, resources);
    if AreValid(p, resources) {
      OwnClaimsAreQuiet(p, resources);
      PairsAreQuiet(p, resources);
    }
  }

  /** Trees inside disjoint trees are disjoint. */
  lemma InnerTreesAreDisjoint(outer: Location, other: Location, a: Location, b: Location)
    requires AreDisjoint(outer, other) && IsWithin(outer, a) && IsWithin(other, b)
    ensures AreDisjoint(a, b)
  {
    forall l
      ensures !(IsWithin(a, l) && IsWithin(b, l))
    {
      assert !(IsWithin(outer, l) && IsWithin(other, l));
    }
  }

  /** Without errors, the places of any claims of two resources, targets and
      entries alike, are disjoint trees. Each claim has a place. */
  lemma ManagedPathsAreDisjoint(p: Platform, resources: seq<Resource>, i: nat, j: nat, x: Claim, y: Claim)
    requires IsFaithful(p) && HaveUniqueIds(resources) && AreBelowRoots(p, resources)
    requires Errors(p, resources) == [] && i < j < |resources|
    requires x in OwnClaims(p, resources[i]) && y in OwnClaims(p, resources[j])
    ensures exists a :: IsPlaced(p, resources[i], x, a)
    ensures exists b :: IsPlaced(p, resources[j], y, b)
    ensures ArePlacedApart(p, resources[i], resources[j], x, y)
  {
    NoErrorIffConsistent(p, resources);
    assert DisjointIn(p)(resources[i], resources[j]);
    var a := OwnClaimIsPlaced(p, resources[i], x);
    var b := OwnClaimIsPlaced(p, resources[j], y);
    PlacedClaimsAreApart(p, resources[i], resources[j], x, y);
  }

  /** Wherever the two claims are placed, nothing lies below both places. */
  ghost predicate ArePlacedApart(p: Platform, r: Resource, s: Resource, x: Claim, y: Claim) {
    forall a, b :: IsPlaced(p, r, x, a) && IsPlaced(p, s, y, b) ==> AreDisjoint(a, b)
  }

  lemma PlacedClaimsAreApart(p: Platform, r: Resource, s: Resource, x: Claim, y: Claim)
    requires AreDisjoint(LocationOf(p, r.target), LocationOf(p, s.target))
    ensures ArePlacedApart(p, r, s, x, y)
  {
    forall a, b | IsPlaced(p, r, x, a) && IsPlaced(p, s, y, b)
      ensures AreDisjoint(a, b)
    {
      InnerTreesAreDisjoint(LocationOf(p, r.target), LocationOf(p, s.target), a, b);
    }
  }

  /** In particular no entry of one resource is, contains or lies below an entry of another. */
  lemma EntriesOfTwoAreDisjoint(p: Platform, resources: seq<Resource>, i: nat, j: nat, e: Entry, f: Entry)
    requires IsFaithful(p) && HaveUniqueIds(resources) && AreBelowRoots(p, resources)
    requires Errors(p, resources) == [] && i < j < |resources|
    requires IsFilesystem(resources[i]) && IsFilesystem(resources[j])
    requires e in resources[i].entries && f in resources[j].entries
    ensures AreDisjoint(EntryLocation(p, resources[i].target, e), EntryLocation(p, resources[j].target, f))
  {
    var r, s := resources[i], resources[j];
    NoErrorIffConsistent(p, resources);
    assert DisjointIn(p)(r, s);
    ValidTargetIsNotEmpty(r.target);
    ValidTargetIsNotEmpty(s.target);
    EntryIsWithinTarget(p, r.target, e.path);
    EntryIsWithinTarget(p, s.target, f.path);
    InnerTreesAreDisjoint(LocationOf(p, r.target), LocationOf(p, s.target),
                          EntryLocation(p, r.target, e), EntryLocation(p, s.target, f));
  }
}
