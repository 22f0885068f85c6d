/**
  How a target path is normalized and what the check for overlap on the
  normalized text means (`normalizedTargetPath` and the `overlaps` predicate of
  `validateResourcePathConflicts`, src/domain/profile.ts).

  Unicode normalization and lower-casing are parameters, of which only `IsFaithful`
  is assumed: both may change lengths and look at neighbouring characters, but not
  across a slash.
 */
module TargetPaths {
  import opened Strings

  datatype Platform = Platform(windows: bool, nfc: string -> string, lower: string -> string)

  predicate IsSegment(s: string) {
    s != "" && s != "." && '/' !in s
  }

  predicate IsLetter(c: char) {
    'A' <= c <= 'Z' || 'a' <= c <= 'z'
  }

  predicate LooksLikeDrive(s: string) {
    |s| == 2 && s[1] == ':'
  }

  /** Two texts with a slash between them. */
  function Below(outer: string, inner: string): string {
    outer + "/" + inner
  }

  /** Normalization and lower-casing keep segments segments; lower-casing works on
      each side of a slash alone and keeps drive names drive names. */
  ghost predicate IsFaithful(p: Platform) {
    && (forall s :: IsSegment(s) ==> IsSegment(p.nfc(s)))
    && (forall s :: IsSegment(s) ==> IsSegment(p.lower(s)))
    && (forall a, b :: p.lower(Below(a, b)) == Below(p.lower(a), p.lower(b)))
    && (forall c :: IsLetter(c) ==> LooksLikeDrive(p.lower([c, ':'])))
    && p.lower("") == "" && p.lower(".") == "."
  }

  // ----- text and segments -----

  function Slashes(value: string): (text: string)
    ensures |text| == |value| && forall i :: 0 <= i < |value| ==> text[i] == if value[i] == '\\' then '/' else value[i]
  {
    if value == "" then "" else [if value[0] == '\\' then '/' else value[0]] + Slashes(value[1..])
  }

  /** The text before the first slash. */
  function Head(text: string): (head: string)
    ensures |head| <= |text| && head == text[..|head|] && '/' !in head
    ensures |head| < |text| ==> text[|head|] == '/'
  {
    if text == "" || text[0] == '/' then "" else [text[0]] + Head(text[1..])
  }

  /** `text.split("/")` */
  function Split(text: string): (segments: seq<string>)
    ensures segments != [] && forall s :: s in segments ==> '/' !in s
    decreases |text|
  {
    var head := Head(text);
    if |head| == |text| then [head] else [head] + Split(text[|head| + 1..])
  }

  ghost predicate AreSlashFree(segments: seq<string>) {
    forall s :: s in segments ==> '/' !in s
  }

  lemma {:induction false} HeadOfJoin(first: string, rest: string)
    requires '/' !in first
    ensures Head(first + "/" + rest) == first && Head(first) == first
  {
    if first == "" {
      assert first + "/" + rest == "/" + rest;
    } else {
      HeadOfJoin(first[1..], rest);
      assert (first + "/" + rest)[1..] == first[1..] + "/" + rest;
    }
  }

  lemma {:induction false} SplitJoin(segments: seq<string>)
    requires segments != [] && AreSlashFree(segments)
    ensures Split(Join(segments, "/")) == segments
  {
    if |segments| == 1 {
      HeadOfJoin(segments[0], "");
    } else {
      var rest := Join(segments[1..], "/");
      HeadOfJoin(segments[0], rest);
      SplitJoin(segments[1..]);
      assert (segments[0] + "/" + rest)[|segments[0]| + 1..] == rest;
    }
  }

  lemma {:induction false} JoinSplit(text: string)
    ensures Join(Split(text), "/") == text
    decreases |text|
  {
    var head := Head(text);
    if |head| < |text| {
      JoinSplit(text[|head| + 1..]);
      assert text == head + "/" + text[|head| + 1..];
    }
  }

  lemma {:induction false} JoinConcat(a: seq<string>, b: seq<string>)
    requires a != [] && b != []
    ensures Join(a + b, "/") == Join(a, "/") + "/" + Join(b, "/")
  {
    if |a| == 1 {
      assert (a + b)[1..] == b;
    } else {
      assert (a + b)[1..] == a[1..] + b;
      JoinConcat(a[1..], b);
      assert a[0] + "/" + (Join(a[1..], "/") + "/" + Join(b, "/"))
          == a[0] + "/" + Join(a[1..], "/") + "/" + Join(b, "/");
    }
  }

  lemma SplitConcat(a: string, b: string)
    ensures Split(a + "/" + b) == Split(a) + Split(b)
  {
    JoinSplit(a);
    JoinSplit(b);
    JoinConcat(Split(a), Split(b));
    SplitJoin(Split(a) + Split(b));
  }

  // ----- where a path is -----

  datatype Root = Relative | Slash | Drive(name: string)

  /** A root and the segments below it. */
  datatype Location = Location(root: Root, segments: seq<string>)

  predicate StartsWithDrive(text: string) {
    |text| >= 2 && IsLetter(text[0]) && text[1] == ':' && (|text| == 2 || text[2] == '/')
  }

  function LowerLetter(c: char): char
    requires IsLetter(c)
  {
    if 'A' <= c <= 'Z' then c + ('a' - 'A') else c
  }

  function RootOf(text: string): Root {
    if StartsWithDrive(text) then Drive([LowerLetter(text[0]), ':'])
    else if text != "" && text[0] == '/' then Slash
    else Relative
  }

  function Body(text: string): string {
    if StartsWithDrive(text) then text[2..] else text
  }

  /** The segments that are kept, in normal form. */
  function Kept(p: Platform, segments: seq<string>): seq<string> {
    if segments == [] then []
    else if segments[0] == "" || segments[0] == "." then Kept(p, segments[1..])
    else [p.nfc(segments[0])] + Kept(p, segments[1..])
  }

  function LowerAll(p: Platform, segments: seq<string>): (lowered: seq<string>)
    ensures |lowered| == |segments| && forall i :: 0 <= i < |segments| ==> lowered[i] == p.lower(segments[i])
  {
    if segments == [] then [] else [p.lower(segments[0])] + LowerAll(p, segments[1..])
  }

  function Folded(p: Platform, l: Location): Location {
    if !p.windows then l
    else Location(if l.root.Drive? then Drive(p.lower(l.root.name)) else l.root, LowerAll(p, l.segments))
  }

  /** Where a path leads, with letter case folded on Windows. */
  function LocationOf(p: Platform, value: string): Location {
    var text := Slashes(value);
    Folded(p, Location(RootOf(text), Kept(p, Split(Body(text)))))
  }

  /** The normalized text of a location. */
  function Text(l: Location): string {
    match l.root
    case Slash => "/" + Join(l.segments, "/")
    case Drive(name) => name + "/" + Join(l.segments, "/")
    case Relative => if l.segments == [] then "." else Join(l.segments, "/")
  }

  method NormalizedTargetPath(p: Platform, value: string) returns (path: string)
    requires IsFaithful(p)
    ensures path == Text(LocationOf(p, value))
  {
    var text := Slashes(value);
    var body, parts := Body(text), Split(Body(text));
    var segments: seq<string>, index := [], 0;
    while index < |parts|
      invariant 0 <= index <= |parts| && Kept(p, parts) == segments + Kept(p, parts[index..])
    {
      assert parts[index..][0] == parts[index] && parts[index..][1..] == parts[index + 1..];
      if parts[index] != "" && parts[index] != "." {
        assert segments + ([p.nfc(parts[index])] + Kept(p, parts[index + 1..]))
            == segments + [p.nfc(parts[index])] + Kept(p, parts[index + 1..]);
        segments := segments + [p.nfc(parts[index])];
      }
      index := index + 1;
    }
    assert segments + [] == segments;
    var l := Location(RootOf(text), segments);
    var normalized := Text(l);
    if p.windows {
      LowerText(p, l);
      return p.lower(normalized);
    }
    return normalized;
  }

  lemma {:induction false} LowerJoin(p: Platform, segments: seq<string>)
    requires IsFaithful(p)
    ensures p.lower(Join(segments, "/")) == Join(LowerAll(p, segments), "/")
  {
    if |segments| > 1 {
      LowerJoin(p, segments[1..]);
      assert Join(segments, "/") == Below(segments[0], Join(segments[1..], "/"));
    }
  }

  lemma LowerText(p: Platform, l: Location)
    requires IsFaithful(p) && p.windows
    ensures p.lower(Text(l)) == Text(Folded(p, l))
  {
    LowerJoin(p, l.segments);
    match l.root
    case Slash => assert Text(l) == Below("", Join(l.segments, "/"));
    case Drive(name) => assert Text(l) == Below(name, Join(l.segments, "/"));
    case Relative =>
  }

  // ----- well-formed locations -----

  ghost predicate AreSegments(segments: seq<string>) {
    forall s :: s in segments ==> IsSegment(s)
  }

  ghost predicate IsWellFormed(l: Location) {
    AreSegments(l.segments) && (l.root.Drive? ==> '/' !in l.root.name && LooksLikeDrive(l.root.name))
  }

  lemma {:induction false} KeptAreSegments(p: Platform, segments: seq<string>)
    requires IsFaithful(p) && AreSlashFree(segments)
    ensures AreSegments(Kept(p, segments))
  {
    if segments != [] {
      KeptAreSegments(p, segments[1..]);
      if segments[0] != "" && segments[0] != "." {
        assert IsSegment(segments[0]);
      }
    }
  }

  lemma LocationIsWellFormed(p: Platform, value: string)
    requires IsFaithful(p)
    ensures IsWellFormed(LocationOf(p, value))
  {
    var text := Slashes(value);
    var segments := Kept(p, Split(Body(text)));
    KeptAreSegments(p, Split(Body(text)));
    if p.windows {
      forall i | 0 <= i < |segments|
        ensures IsSegment(LowerAll(p, segments)[i])
      {
        assert IsSegment(segments[i]);
      }
      if RootOf(text).Drive? {
        DriveNameIsSegment(RootOf(text).name);
        assert RootOf(text).name == [RootOf(text).name[0], ':'];
      }
    } else if RootOf(text).Drive? {
      DriveNameIsSegment(RootOf(text).name);
    }
  }

  lemma DriveNameIsSegment(name: string)
    requires |name| == 2 && IsLetter(name[0]) && name[1] == ':'
    ensures IsSegment(name)
  {
  }

  // ----- overlap -----

  /** `left === right || left.startsWith(right + "/") || right.startsWith(left + "/")` */
  predicate Overlaps(left: string, right: string) {
    left == right || right + "/" <= left || left + "/" <= right
  }

  /** `l` is the location `tree` or lies below it. */
  predicate IsWithin(tree: Location, l: Location) {
    tree.root == l.root && tree.segments <= l.segments
  }

  predicate Nested(a: Location, b: Location) {
    IsWithin(a, b) || IsWithin(b, a)
  }

  /** Nothing lies below both. */
  ghost predicate AreDisjoint(a: Location, b: Location) {
    forall l :: !(IsWithin(a, l) && IsWithin(b, l))
  }

  lemma PrefixesOfOneAreNested(a: seq<string>, b: seq<string>, l: seq<string>)
    ensures a <= l && b <= l ==> a <= b || b <= a
  {
    if a <= l && b <= l {
      assert a == l[..|a|] && b == l[..|b|];
    }
  }

  lemma DisjointIffNotNested(a: Location, b: Location)
    ensures AreDisjoint(a, b) <==> !Nested(a, b)
  {
    if Nested(a, b) {
      var inner := if IsWithin(a, b) then b else a;
      assert IsWithin(a, inner) && IsWithin(b, inner);
    } else {
      forall l
        ensures !(IsWithin(a, l) && IsWithin(b, l))
      {
        PrefixesOfOneAreNested(a.segments, b.segments, l.segments);
      }
    }
  }

  /** The root and the segments as one list, whose join is the text. */
  function Path(l: Location): seq<string> {
    match l.root
    case Slash => [""] + (if l.segments == [] then [""] else l.segments)
    case Drive(name) => [name] + (if l.segments == [] then [""] else l.segments)
    case Relative => if l.segments == [] then ["."] else l.segments
  }

  lemma TextIsJoinedPath(l: Location)
    requires IsWellFormed(l)
    ensures Text(l) == Join(Path(l), "/") && AreSlashFree(Path(l))
  {
    assert forall s :: s in l.segments ==> '/' !in s;
    match l.root
    case Slash =>
      assert Path(l)[1..] == if l.segments == [] then [""] else l.segments;
      assert "" + "/" + Join(Path(l)[1..], "/") == "/" + Join(Path(l)[1..], "/");
    case Drive(name) => assert Path(l)[1..] == if l.segments == [] then [""] else l.segments;
    case Relative =>
  }

  /** One joined list starts with another and a slash exactly when the other is a proper prefix. */
  lemma StartsWithIsProperPrefix(a: seq<string>, b: seq<string>)
    requires a != [] && b != [] && AreSlashFree(a) && AreSlashFree(b)
    ensures Join(a, "/") + "/" <= Join(b, "/") <==> a < b
  {
    if a < b {
      assert b == a + b[|a|..];
      JoinConcat(a, b[|a|..]);
    }
    if Join(a, "/") + "/" <= Join(b, "/") {
      var rest := Join(b, "/")[|Join(a, "/")| + 1..];
      assert Join(b, "/") == Join(a, "/") + "/" + rest;
      SplitConcat(Join(a, "/"), rest);
      SplitJoin(a);
      SplitJoin(b);
      assert b == a + Split(rest);
    }
  }

  lemma ProperOrEqual(a: seq<string>, b: seq<string>)
    ensures a <= b || b <= a <==> a == b || a < b || b < a
  {
  }

  lemma OverlapIsPrefix(a: Location, b: Location)
    requires IsWellFormed(a) && IsWellFormed(b)
    ensures Overlaps(Text(a), Text(b)) <==> Path(a) <= Path(b) || Path(b) <= Path(a)
    ensures Text(b) + "/" <= Text(a) <==> Path(b) < Path(a)
  {
    TextIsJoinedPath(a);
    TextIsJoinedPath(b);
    StartsWithIsProperPrefix(Path(a), Path(b));
    StartsWithIsProperPrefix(Path(b), Path(a));
    SplitJoin(Path(a));
    SplitJoin(Path(b));
    assert Text(a) == Text(b) <==> Path(a) == Path(b);
    ProperOrEqual(Path(a), Path(b));
  }

  /** A relative path whose first segment could be read as a drive. */
  predicate IsAmbiguous(l: Location) {
    l.root.Relative? && l.segments != [] && LooksLikeDrive(l.segments[0])
  }

  lemma PathPrefixIsWithin(a: Location, b: Location)
    requires IsWellFormed(a) && IsWellFormed(b) && !IsAmbiguous(a) && !IsAmbiguous(b) && a.segments != []
    requires b.segments != []
    ensures Path(a) <= Path(b) <==> IsWithin(a, b)
  {
    assert IsSegment(a.segments[0]) && IsSegment(b.segments[0]);
    assert !a.root.Relative? ==> Path(a)[1..] == a.segments;
    assert !b.root.Relative? ==> Path(b)[1..] == b.segments;
    if Path(a) <= Path(b) {
      assert Path(a)[0] == Path(b)[0];
      assert a.root == b.root;
      assert a.segments <= b.segments;
    }
  }

  /** The text check and the trees agree, except between a root and something below it. */
  lemma OverlapIsNesting(a: Location, b: Location)
    requires IsWellFormed(a) && IsWellFormed(b) && !IsAmbiguous(a) && !IsAmbiguous(b)
    ensures (Overlaps(Text(a), Text(b)) <==> Nested(a, b))
            <==> !(a.root == b.root && (a.segments == []) != (b.segments == []))
  {
    OverlapIsPrefix(a, b);
    if a.segments != [] && b.segments != [] {
      PathPrefixIsWithin(a, b);
      PathPrefixIsWithin(b, a);
    } else {
      if a.segments != [] {
        assert IsSegment(a.segments[0]);
      }
      if b.segments != [] {
        assert IsSegment(b.segments[0]);
      }
      RootOverlapsOnlyItself(a, b);
    }
  }

  /** The test misses what lies below a filesystem root. */
  lemma RootIsMissed()
    ensures var root, below := Location(Slash, []), Location(Slash, ["a"]);
            Text(root) == "/" && Text(below) == "/a" && Nested(root, below) && !Overlaps(Text(root), Text(below))
  {
    assert Text(Location(Slash, [])) == "/" && Text(Location(Slash, ["a"])) == "/a";
    assert ("/" + "/")[1] == '/' && "/a"[1] == 'a';
  }

  lemma RootOverlapsOnlyItself(a: Location, b: Location)
    requires IsWellFormed(a) && IsWellFormed(b) && !IsAmbiguous(a) && !IsAmbiguous(b)
    requires (a.segments == [] || b.segments == [])
    ensures Path(a) <= Path(b) || Path(b) <= Path(a) <==> a == b
  {
    var r, o := if a.segments == [] then a else b, if a.segments == [] then b else a;
    assert o.segments != [] ==> IsSegment(o.segments[0]);
    if Path(r) <= Path(o) || Path(o) <= Path(r) {
      assert Path(r)[0] == Path(o)[0];
      assert r.root == o.root;
      if !r.root.Relative? {
        assert |Path(o)| >= 2;
        assert Path(r)[1] == Path(o)[1];
      }
    }
  }

  // ----- entries below a target -----

  lemma {:induction false} KeptConcat(p: Platform, a: seq<string>, b: seq<string>)
    ensures Kept(p, a + b) == Kept(p, a) + Kept(p, b)
  {
    if a == [] {
      assert a + b == b;
    } else {
      assert (a + b)[1..] == a[1..] + b && (a + b)[0] == a[0];
      KeptConcat(p, a[1..], b);
    }
  }

  lemma SlashesConcat(a: string, b: string)
    ensures Slashes(a + b) == Slashes(a) + Slashes(b)
  {
  }

  lemma LowerAllConcat(p: Platform, a: seq<string>, b: seq<string>)
    ensures LowerAll(p, a + b) == LowerAll(p, a) + LowerAll(p, b)
  {
  }

  /** What a path below a target adds to the target's own location. */
  function Added(p: Platform, path: string): seq<string> {
    var kept := Kept(p, Split(Slashes(path)));
    if p.windows then LowerAll(p, kept) else kept
  }

  /** The root and the kept text of a target do not change when a path is joined to it. */
  lemma RootOfJoined(text: string, tail: string)
    requires text != ""
    ensures RootOf(text + "/" + tail) == RootOf(text) && Body(text + "/" + tail) == Body(text) + "/" + tail
  {
    var whole := text + "/" + tail;
    assert whole[0] == text[0] && (|text| >= 2 ==> whole[1] == text[1]) && (|text| >= 3 ==> whole[2] == text[2]);
    assert whole[|text|] == '/';
    assert StartsWithDrive(whole) <==> StartsWithDrive(text);
  }

  lemma SlashesJoined(target: string, path: string)
    ensures Slashes(target + "/" + path) == Slashes(target) + "/" + Slashes(path)
  {
    SlashesConcat(target + "/", path);
    SlashesConcat(target, "/");
  }

  lemma KeptOfJoined(p: Platform, body: string, tail: string)
    ensures Kept(p, Split(body + "/" + tail)) == Kept(p, Split(body)) + Kept(p, Split(tail))
  {
    SplitConcat(body, tail);
    KeptConcat(p, Split(body), Split(tail));
  }

  /** Joining a path to a non-empty target keeps the target's root and segments. */
  lemma EntryIsWithinTarget(p: Platform, target: string, path: string)
    requires target != ""
    ensures LocationOf(p, target + "/" + path)
         == LocationOf(p, target).(segments := LocationOf(p, target).segments + Added(p, path))
    ensures IsWithin(LocationOf(p, target), LocationOf(p, target + "/" + path))
  {
    var text, tail := Slashes(target), Slashes(path);
    SlashesJoined(target, path);
    RootOfJoined(text, tail);
    KeptOfJoined(p, Body(text), tail);
    LowerAllConcat(p, Kept(p, Split(Body(text))), Kept(p, Split(tail)));
  }
}
