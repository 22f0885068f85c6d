/**
  From an authored profile to the metadata a follower accepts:
  `materializeResources` and `completeVerification` (src/profile/compiler.ts) and
  the blob index `fetchRevision` checks (src/enrollment/follower-client.ts).

  Digests are uninterpreted.
 */
module Compiler {
  import opened Options
  import opened Sequences
  import opened Sorting
  import opened Visibility

  datatype Kind = File | Directory | Config | Skill | Tool | Credential

  /** A file an authored `source` names, already hashed. */
  datatype SourceFile = SourceFile(path: string, blob: string, bytes: nat)

  datatype ManagedFile = ManagedFile(path: string, source: string, executable: Option<bool>, mode: Option<nat>)

  datatype PublishedFile = PublishedFile(path: string, blob: string, bytes: nat, executable: bool, mode: Option<nat>)

  /** The `document` of a config stands for its format and keys. */
  datatype Spec<F> =
    | FileSpec(file: F)
    | SkillSpec(name: string, files: seq<F>)
    | ConfigSpec(document: string)
    | OpaqueSpec(description: string)

  datatype Verify = ByDigest(digest: Option<string>) | Otherwise(means: string)

  datatype Authored = Authored(
    id: string, kind: Kind, policy: Option<string>, target: string, dependsOn: Option<seq<string>>,
    groups: Option<seq<string>>,
    spec: Spec<ManagedFile>, verify: Verify)

  datatype Payload = Payload(kind: Kind, policy: string, target: string, spec: Spec<PublishedFile>, blobs: seq<string>)

  type Published = Resource<Payload>

  function DefaultPolicy(kind: Kind): string {
    match kind
    case File => "replace"
    case Directory => "mirror-owned"
    case Config => "merge"
    case Skill => "replace-if-unmodified"
    case Tool => "ensure"
    case Credential => "require-local"
  }

  // ----- what a compiled resource is -----

  function FilesOf<F>(spec: Spec<F>): seq<F> {
    match spec
    case FileSpec(file) => [file]
    case SkillSpec(_, files) => files
    case ConfigSpec(_) => []
    case OpaqueSpec(_) => []
  }

  type Sources = map<string, SourceFile>

  predicate AreResolved(files: seq<ManagedFile>, sources: Sources) {
    forall f | f in files :: f.source in sources
  }

  function PublishedOf(f: ManagedFile, s: SourceFile): PublishedFile {
    PublishedFile(f.path, s.blob, s.bytes, f.executable.Some? && f.executable.value, f.mode)
  }

  function PublishedFiles(files: seq<ManagedFile>, sources: Sources): (published: seq<PublishedFile>)
    requires AreResolved(files, sources)
    ensures |published| == |files|
    ensures forall i :: 0 <= i < |files| ==> published[i] == PublishedOf(files[i], sources[files[i].source])
  {
    if files == [] then [] else [PublishedOf(files[0], sources[files[0].source])] + PublishedFiles(files[1..], sources)
  }

  function PublishedSpec(spec: Spec<ManagedFile>, files: seq<PublishedFile>): Spec<PublishedFile>
    requires |files| == |FilesOf(spec)|
  {
    match spec
    case FileSpec(_) => FileSpec(files[0])
    case SkillSpec(name, _) => SkillSpec(name, files)
    case ConfigSpec(document) => ConfigSpec(document)
    case OpaqueSpec(description) => OpaqueSpec(description)
  }

  function BlobsOf(files: seq<PublishedFile>): seq<string> {
    if files == [] then [] else [files[0].blob] + BlobsOf(files[1..])
  }

  /** `[...new Set(names)]`: the first occurrence of each. */
  function Distinct(names: seq<string>): seq<string> {
    if names == [] then []
    else
      var earlier := Distinct(names[..|names| - 1]);
      if names[|names| - 1] in earlier then earlier else earlier + [names[|names| - 1]]
  }

  function Compiled(r: Authored, sources: Sources): Published
    requires AreResolved(FilesOf(r.spec), sources)
  {
    WithFiles(r, PublishedFiles(FilesOf(r.spec), sources))
  }

  function WithFiles(r: Authored, files: seq<PublishedFile>): Published
    requires |files| == |FilesOf(r.spec)|
  {
    Resource(r.id, r.groups, if r.dependsOn.Some? then r.dependsOn.value else [],
             Payload(r.kind, if r.policy.Some? then r.policy.value else DefaultPolicy(r.kind), r.target,
                     PublishedSpec(r.spec, files), Distinct(BlobsOf(files))))
  }

  predicate AllResolved(profile: seq<Authored>, sources: Sources) {
    forall r | r in profile :: AreResolved(FilesOf(r.spec), sources)
  }

  function CompiledAll(profile: seq<Authored>, sources: Sources): (compiled: seq<Published>)
    requires AllResolved(profile, sources)
    ensures |compiled| == |profile|
  {
    if profile == [] then []
    else CompiledAll(profile[..|profile| - 1], sources) + [Compiled(profile[|profile| - 1], sources)]
  }

  lemma {:induction false} CompiledAllAre(profile: seq<Authored>, sources: Sources)
    requires AllResolved(profile, sources)
    ensures forall i :: 0 <= i < |profile| ==>
              AreResolved(FilesOf(profile[i].spec), sources)
                  && CompiledAll(profile, sources)[i] == Compiled(profile[i], sources)
  {
    if profile != [] {
      CompiledAllAre(profile[..|profile| - 1], sources);
    }
  }

  // ----- what publication stores -----

  /** Each blob once, and every file's blob. */
  ghost predicate Stores(stored: seq<SourceFile>, files: seq<ManagedFile>, sources: Sources) {
    && (forall i, j :: 0 <= i < j < |stored| ==> stored[i].blob != stored[j].blob)
    && (forall s :: s in stored ==> exists f :: f in files && f.source in sources && sources[f.source] == s)
    && (forall f :: f in files ==> f.source in sources && HasBlob(stored, sources[f.source].blob))
  }

  predicate HasBlob(stored: seq<SourceFile>, blob: string) {
    exists s | s in stored :: s.blob == blob
  }

  function AllFiles(profile: seq<Authored>): seq<ManagedFile> {
    if profile == [] then [] else AllFiles(profile[..|profile| - 1]) + FilesOf(profile[|profile| - 1].spec)
  }

  method MaterializeFile(file: ManagedFile, sources: Sources, stored: seq<SourceFile>, ghost files: seq<ManagedFile>)
    returns (published: PublishedFile, nowStored: seq<SourceFile>)
    requires file.source in sources && Stores(stored, files, sources)
    ensures published == PublishedOf(file, sources[file.source]) && stored <= nowStored
    ensures Stores(nowStored, files + [file], sources)
  {
    var resolved := sources[file.source];
    nowStored := if HasBlob(stored, resolved.blob) then stored else stored + [resolved];
    published := PublishedOf(file, resolved);
    StoresOneMore(stored, files, file, sources);
  }

  lemma StoresOneMore(stored: seq<SourceFile>, files: seq<ManagedFile>, file: ManagedFile, sources: Sources)
    requires file.source in sources && Stores(stored, files, sources)
    ensures var resolved := sources[file.source];
            Stores(if HasBlob(stored, resolved.blob) then stored else stored + [resolved], files + [file], sources)
  {
    var resolved := sources[file.source];
    var now := if HasBlob(stored, resolved.blob) then stored else stored + [resolved];
    assert forall f :: f in files + [file] <==> f in files || f == file;
    forall s | s in now
      ensures exists f :: f in files + [file] && f.source in sources && sources[f.source] == s
    {
      if s in stored {
        var f :| f in files && f.source in sources && sources[f.source] == s;
        assert f in files + [file];
      } else {
        assert file in files + [file] && sources[file.source] == s;
      }
    }
    forall f | f in files + [file]
      ensures f.source in sources && HasBlob(now, sources[f.source].blob)
    {
      if f in files {
        var s :| s in stored && s.blob == sources[f.source].blob;
        assert s in now;
      } else if !HasBlob(stored, resolved.blob) {
        assert resolved in now;
      }
    }
  }

  method MaterializeFiles(
      todo: seq<ManagedFile>, sources: Sources, stored: seq<SourceFile>, ghost files: seq<ManagedFile>)
    returns (published: Option<seq<PublishedFile>>, nowStored: seq<SourceFile>)
    requires Stores(stored, files, sources)
    ensures published.Some? <==> AreResolved(todo, sources)
    ensures published.Some? ==>
              published.value == PublishedFiles(todo, sources) && Stores(nowStored, files + todo, sources)
  {
    var done: seq<PublishedFile> := [];
    nowStored := stored;
    var i := 0;
    assert files + todo[..0] == files;
    while i < |todo|
      invariant 0 <= i <= |todo| && |done| == i
      invariant forall k :: 0 <= k < i ==>
                  todo[k].source in sources && done[k] == PublishedOf(todo[k], sources[todo[k].source])
      invariant Stores(nowStored, files + todo[..i], sources)
    {
      if todo[i].source !in sources {
        return None, nowStored;
      }
      var one;
      one, nowStored := MaterializeFile(todo[i], sources, nowStored, files + todo[..i]);
      done := done + [one];
      assert files + todo[..i] + [todo[i]] == files + todo[..i + 1];
      i := i + 1;
    }
    assert todo[..i] == todo;
    return Some(done), nowStored;
  }

  method MaterializeResource(r: Authored, sources: Sources, stored: seq<SourceFile>, ghost files: seq<ManagedFile>)
    returns (compiled: Option<Published>, nowStored: seq<SourceFile>)
    requires Stores(stored, files, sources)
    ensures compiled.Some? <==> AreResolved(FilesOf(r.spec), sources)
    ensures compiled.Some? ==>
              compiled.value == Compiled(r, sources) && Stores(nowStored, files + FilesOf(r.spec), sources)
  {
    var published;
    published, nowStored := MaterializeFiles(FilesOf(r.spec), sources, stored, files);
    compiled := if published.None? then None else Some(WithFiles(r, published.value));
  }

  /** Compile every resource; one unresolved source fails the whole profile. */
  method MaterializeResources(profile: seq<Authored>, sources: Sources)
    returns (resources: Option<seq<Published>>, blobs: seq<SourceFile>)
    ensures resources.Some? <==> AllResolved(profile, sources)
    ensures resources.Some? ==>
              AreCompiled(resources.value, profile, sources) && Stores(blobs, AllFiles(profile), sources)
  {
    var done: seq<Published> := [];
    blobs := [];
    var i := 0;
    while i < |profile|
      invariant 0 <= i <= |profile| && HaveCompiled(done, blobs, profile[..i], sources)
    {
      var next;
      next, blobs := MaterializeNext(profile, i, sources, done, blobs);
      if next.None? {
        return None, blobs;
      }
      done := next.value;
      i := i + 1;
    }
    assert profile[..i] == profile;
    return Some(done), blobs;
  }

  /** One turn of the loop. */
  method MaterializeNext(
      profile: seq<Authored>, i: nat, sources: Sources, done: seq<Published>, stored: seq<SourceFile>)
    returns (next: Option<seq<Published>>, nowStored: seq<SourceFile>)
    requires i < |profile| && HaveCompiled(done, stored, profile[..i], sources)
    ensures next.Some? ==> HaveCompiled(next.value, nowStored, profile[..i + 1], sources)
    ensures next.None? ==> !AllResolved(profile, sources)
  {
    var compiled;
    compiled, nowStored := MaterializeResource(profile[i], sources, stored, AllFiles(profile[..i]));
    if compiled.None? {
      assert profile[i] in profile;
      return None, nowStored;
    }
    OneMoreCompiled(done, profile[..i], profile[i], sources);
    PrefixNext(profile, i);
    return Some(done + [compiled.value]), nowStored;
  }

  ghost predicate HaveCompiled(
      done: seq<Published>, stored: seq<SourceFile>, profile: seq<Authored>, sources: Sources) {
    AreCompiled(done, profile, sources) && Stores(stored, AllFiles(profile), sources)
  }

  ghost predicate AreCompiled(done: seq<Published>, profile: seq<Authored>, sources: Sources) {
    AllResolved(profile, sources) && done == CompiledAll(profile, sources)
  }

  lemma OneMoreCompiled(done: seq<Published>, profile: seq<Authored>, r: Authored, sources: Sources)
    requires AreCompiled(done, profile, sources) && AreResolved(FilesOf(r.spec), sources)
    ensures AreCompiled(done + [Compiled(r, sources)], profile + [r], sources)
    ensures AllFiles(profile + [r]) == AllFiles(profile) + FilesOf(r.spec)
  {
    assert (profile + [r])[..|profile|] == profile;
    assert AllResolved(profile + [r], sources);
  }

  lemma PublishedSpecKeepsFiles(spec: Spec<ManagedFile>, files: seq<PublishedFile>)
    requires |files| == |FilesOf(spec)|
    ensures FilesOf(PublishedSpec(spec, files)) == files
  {
  }

  // ----- the follower's index -----

  datatype IndexError = IndexMismatch(resource: string) | ConflictingLengths(blob: string)

  function TextOrder(): (string, string) -> bool {
    (a, b) => TextNotAfter(a, b)
  }

  /** The sorted distinct references equal the sorted declared blobs. */
  predicate IndexMatches(r: Published) {
    SortBy(Distinct(BlobsOf(FilesOf(r.payload.spec))), TextOrder()) == SortBy(r.payload.blobs, TextOrder())
  }

  ghost predicate AllMatch(rs: seq<Published>) {
    All(rs, IndexMatches)
  }

  /** The files a list of resources refers to, in order. */
  function References(rs: seq<Published>): seq<PublishedFile> {
    if rs == [] then [] else References(rs[..|rs| - 1]) + FilesOf(rs[|rs| - 1].payload.spec)
  }

  ghost predicate LengthsAgree(files: seq<PublishedFile>) {
    forall f, g :: f in files && g in files && f.blob == g.blob ==> f.bytes == g.bytes
  }

  /** The index names exactly the referenced blobs with their lengths. */
  ghost predicate Indexes(index: map<string, int>, files: seq<PublishedFile>) {
    && (forall f :: f in files ==> f.blob in index && index[f.blob] == f.bytes)
    && (forall id :: id in index ==> exists f :: f in files && f.blob == id)
  }

  /** The error names a blob with two lengths. */
  ghost predicate HasTwoLengths(files: seq<PublishedFile>, e: IndexError) {
    e.ConflictingLengths?
    && exists f, g :: f in files && g in files && f.blob == e.blob == g.blob && f.bytes != g.bytes
  }

  /** The error is what it says: a resource whose index is wrong, or a blob with two lengths. */
  ghost predicate IsIndexFault(rs: seq<Published>, e: IndexError) {
    match e
    case IndexMismatch(id) => exists r :: r in rs && r.id == id && !IndexMatches(r)
    case ConflictingLengths(_) => HasTwoLengths(References(rs), e)
  }

  /** Accepted exactly when every declared index matches and no blob has two lengths. */
  method IndexBlobs(rs: seq<Published>) returns (result: Result<map<string, int>, IndexError>)
    ensures result.Ok? <==> AllMatch(rs) && LengthsAgree(References(rs))
    ensures result.Ok? ==> Indexes(result.value, References(rs))
    ensures result.Err? ==> IsIndexFault(rs, result.error)
  {
    var index: map<string, int> := map[];
    var i := 0;
    while i < |rs|
      invariant 0 <= i <= |rs| && AllMatch(rs[..i]) && Indexes(index, References(rs[..i]))
    {
      var next := IndexResource(rs, i, index);
      if next.Err? {
        return next;
      }
      index := next.value;
      i := i + 1;
    }
    assert rs[..i] == rs;
    IndexedLengthsAgree(index, References(rs));
    return Ok(index);
  }

  /** One turn of the loop. */
  method IndexResource(
      rs: seq<Published>, i: nat, index: map<string, int>) returns (next: Result<map<string, int>, IndexError>)
    requires i < |rs| && AllMatch(rs[..i]) && Indexes(index, References(rs[..i]))
    ensures next.Ok? ==> AllMatch(rs[..i + 1]) && Indexes(next.value, References(rs[..i + 1]))
    ensures next.Err? ==> !(AllMatch(rs) && LengthsAgree(References(rs))) && IsIndexFault(rs, next.error)
  {
    NextResource(rs, i);
    if !IndexMatches(rs[i]) {
      return Err(IndexMismatch(rs[i].id));
    }
    next := IndexFiles(FilesOf(rs[i].payload.spec), index, References(rs[..i]));
    if next.Err? {
      FaultStays(rs, i + 1, next.error);
    }
  }

  lemma NextResource(rs: seq<Published>, i: nat)
    requires i < |rs|
    ensures References(rs[..i + 1]) == References(rs[..i]) + FilesOf(rs[i].payload.spec)
    ensures AllMatch(rs[..i + 1]) <==> AllMatch(rs[..i]) && IndexMatches(rs[i])
    ensures AllMatch(rs) ==> IndexMatches(rs[i])
  {
    assert rs[..i + 1][..i] == rs[..i];
    AllNext(rs, i, IndexMatches);
  }

  lemma FaultStays(rs: seq<Published>, n: nat, e: IndexError)
    requires n <= |rs| && HasTwoLengths(References(rs[..n]), e)
    ensures !LengthsAgree(References(rs)) && IsIndexFault(rs, e)
  {
    ReferencesContain(rs, n);
  }

  lemma IndexedLengthsAgree(index: map<string, int>, files: seq<PublishedFile>)
    requires Indexes(index, files)
    ensures LengthsAgree(files)
  {
  }

  method IndexFiles(files: seq<PublishedFile>, before: map<string, int>, ghost earlier: seq<PublishedFile>)
    returns (result: Result<map<string, int>, IndexError>)
    requires Indexes(before, earlier)
    ensures result.Ok? ==> Indexes(result.value, earlier + files)
    ensures result.Err? ==> !LengthsAgree(earlier + files) && HasTwoLengths(earlier + files, result.error)
  {
    var index := before;
    var i := 0;
    assert earlier + files[..0] == earlier;
    while i < |files|
      invariant 0 <= i <= |files| && Indexes(index, earlier + files[..i])
    {
      var f := files[i];
      assert earlier + files[..i + 1] == earlier + files[..i] + [f];
      if f.blob in index && index[f.blob] != f.bytes {
        ConflictIsReal(index, earlier + files[..i], f, earlier + files);
        return Err(ConflictingLengths(f.blob));
      }
      IndexesOneMore(index, earlier + files[..i], f);
      index := index[f.blob := f.bytes];
      i := i + 1;
    }
    assert files[..i] == files;
    return Ok(index);
  }

  lemma IndexesOneMore(index: map<string, int>, files: seq<PublishedFile>, f: PublishedFile)
    requires Indexes(index, files) && (f.blob in index ==> index[f.blob] == f.bytes)
    ensures Indexes(index[f.blob := f.bytes], files + [f])
  {
    var now := index[f.blob := f.bytes];
    forall id | id in now
      ensures exists g :: g in files + [f] && g.blob == id
    {
      if id == f.blob {
        assert f in files + [f];
      } else {
        var g :| g in files && g.blob == id;
        assert g in files + [f];
      }
    }
  }

  lemma ConflictIsReal(index: map<string, int>, files: seq<PublishedFile>, f: PublishedFile, all: seq<PublishedFile>)
    requires Indexes(index, files) && f.blob in index && index[f.blob] != f.bytes
    requires f in all && forall g :: g in files ==> g in all
    ensures !LengthsAgree(all) && HasTwoLengths(all, ConflictingLengths(f.blob))
  {
    var g :| g in files && g.blob == f.blob;
  }

  lemma {:induction false} ReferencesContain(rs: seq<Published>, n: nat)
    requires n <= |rs|
    ensures forall f :: f in References(rs[..n]) ==> f in References(rs)
    decreases |rs| - n
  {
    if n < |rs| {
      ReferencesContain(rs, n + 1);
      assert rs[..n + 1][..n] == rs[..n];
    } else {
      assert rs[..n] == rs;
    }
  }

  lemma {:induction false} ReferenceIsOfSome(rs: seq<Published>, f: PublishedFile)
    ensures f in References(rs) <==> exists r :: r in rs && f in FilesOf(r.payload.spec)
  {
    if rs != [] {
      var n := |rs| - 1;
      ReferenceIsOfSome(rs[..n], f);
      assert forall r :: r in rs <==> r in rs[..n] || r == rs[n];
    }
  }

  // ----- every projection of a compiled profile is accepted -----

  /** Equal digests mean equal lengths: the one assumption on the digest. */
  ghost predicate DigestFixesLength(sources: Sources) {
    forall a, b :: a in sources && b in sources && sources[a].blob == sources[b].blob ==>
        sources[a].bytes == sources[b].bytes
  }

  lemma CompiledFileIsResolved(profile: seq<Authored>, sources: Sources, r: Published, f: PublishedFile)
    requires AllResolved(profile, sources) && r in CompiledAll(profile, sources) && f in FilesOf(r.payload.spec)
    ensures exists name :: name in sources && sources[name].blob == f.blob && sources[name].bytes == f.bytes
  {
    CompiledAllAre(profile, sources);
    var i :| 0 <= i < |profile| && r == CompiledAll(profile, sources)[i];
    var m := ManagedFileOf(profile[i], sources, f);
    assert m.source in sources;
  }

  lemma CompiledIndexMatches(profile: seq<Authored>, sources: Sources, r: Published)
    requires AllResolved(profile, sources) && r in CompiledAll(profile, sources)
    ensures r.payload.blobs == Distinct(BlobsOf(FilesOf(r.payload.spec))) && IndexMatches(r)
  {
    CompiledAllAre(profile, sources);
    var i :| 0 <= i < |profile| && r == CompiledAll(profile, sources)[i];
    PublishedSpecKeepsFiles(profile[i].spec, PublishedFiles(FilesOf(profile[i].spec), sources));
  }

  /** The compiled resource a projected one comes from. */
  lemma ProjectedFrom(rs: seq<Published>, groups: set<string>, p: Published) returns (r: Published)
    requires p in Projection(rs, groups)
    ensures r in rs && r.id in VisibleIds(rs, groups) && p == Narrow(r, groups) && p.payload == r.payload
  {
    ProjectionMembers(rs, groups);
    r :| r in rs && r.id in VisibleIds(rs, groups) && p == Narrow(r, groups);
  }

  lemma ProjectedInto(rs: seq<Published>, groups: set<string>, r: Published)
    requires r in rs && r.id in VisibleIds(rs, groups)
    ensures Narrow(r, groups) in Projection(rs, groups) && Narrow(r, groups).payload == r.payload
  {
    ProjectionMembers(rs, groups);
  }

  /** The compiled resource a projected file belongs to. */
  lemma ProjectedFileFrom(rs: seq<Published>, groups: set<string>, f: PublishedFile) returns (r: Published)
    requires f in References(Projection(rs, groups))
    ensures r in rs && r.id in VisibleIds(rs, groups) && f in FilesOf(r.payload.spec)
  {
    var projected := Projection(rs, groups);
    ReferenceIsOfSome(projected, f);
    var p :| p in projected && f in FilesOf(p.payload.spec);
    r := ProjectedFrom(rs, groups, p);
  }

  /** Whatever the follower's groups, the projected revision passes the follower's checks. */
  lemma ProjectionIsAccepted(profile: seq<Authored>, sources: Sources, groups: set<string>)
    requires AllResolved(profile, sources) && DigestFixesLength(sources)
    ensures var projected := Projection(CompiledAll(profile, sources), groups);
            AllMatch(projected) && LengthsAgree(References(projected))
  {
    var compiled := CompiledAll(profile, sources);
    var projected := Projection(compiled, groups);
    forall i | 0 <= i < |projected|
      ensures IndexMatches(projected[i])
    {
      var r := ProjectedFrom(compiled, groups, projected[i]);
      CompiledIndexMatches(profile, sources, r);
    }
    forall f, g | f in References(projected) && g in References(projected) && f.blob == g.blob
      ensures f.bytes == g.bytes
    {
      var r := ProjectedFileFrom(compiled, groups, f);
      var t := ProjectedFileFrom(compiled, groups, g);
      CompiledFileIsResolved(profile, sources, r, f);
      CompiledFileIsResolved(profile, sources, t, g);
    }
  }

  // ----- the Source serves what the projection names -----

  /** The check of `getAuthorizedBlobRange`: some visible resource lists the blob. */
  ghost predicate IsAuthorizedBlob(rs: seq<Published>, groups: set<string>, blob: string) {
    exists r :: r in rs && r.id in VisibleIds(rs, groups) && blob in r.payload.blobs
  }

  lemma {:induction false} DistinctMembers(names: seq<string>)
    ensures forall n :: n in Distinct(names) <==> n in names
  {
    if names != [] {
      DistinctMembers(names[..|names| - 1]);
      assert names == names[..|names| - 1] + [names[|names| - 1]];
    }
  }

  lemma {:induction false} BlobsOfMembers(files: seq<PublishedFile>, blob: string)
    ensures blob in BlobsOf(files) <==> exists f :: f in files && f.blob == blob
  {
    if files != [] {
      BlobsOfMembers(files[1..], blob);
      assert files == [files[0]] + files[1..];
    }
  }

  /** A follower may fetch a blob exactly when its projection refers to it. */
  lemma AuthorizedIffReferenced(profile: seq<Authored>, sources: Sources, groups: set<string>, blob: string)
    requires AllResolved(profile, sources)
    ensures IsAuthorizedBlob(CompiledAll(profile, sources), groups, blob)
       <==> exists f :: f in References(Projection(CompiledAll(profile, sources), groups)) && f.blob == blob
  {
    var compiled := CompiledAll(profile, sources);
    if IsAuthorizedBlob(compiled, groups, blob) {
      AuthorizedIsReferenced(profile, sources, groups, blob);
    }
    if f :| f in References(Projection(compiled, groups)) && f.blob == blob {
      var r := ProjectedFileFrom(compiled, groups, f);
      ResourceNamesBlob(profile, sources, r, blob);
    }
  }

  lemma AuthorizedIsReferenced(profile: seq<Authored>, sources: Sources, groups: set<string>, blob: string)
    requires AllResolved(profile, sources) && IsAuthorizedBlob(CompiledAll(profile, sources), groups, blob)
    ensures exists f :: f in References(Projection(CompiledAll(profile, sources), groups)) && f.blob == blob
  {
    var compiled := CompiledAll(profile, sources);
    var r :| r in compiled && r.id in VisibleIds(compiled, groups) && blob in r.payload.blobs;
    ProjectedInto(compiled, groups, r);
    ResourceNamesBlob(profile, sources, r, blob);
    var f :| f in FilesOf(r.payload.spec) && f.blob == blob;
    ReferenceIsOfSome(Projection(compiled, groups), f);
  }

  lemma ResourceNamesBlob(profile: seq<Authored>, sources: Sources, r: Published, blob: string)
    requires AllResolved(profile, sources) && r in CompiledAll(profile, sources)
    ensures blob in r.payload.blobs <==> exists f :: f in FilesOf(r.payload.spec) && f.blob == blob
  {
    CompiledIndexMatches(profile, sources, r);
    DistinctMembers(BlobsOf(FilesOf(r.payload.spec)));
    BlobsOfMembers(FilesOf(r.payload.spec), blob);
  }

  /** Publication stores every blob any follower can be sent to fetch. */
  lemma ReferencedBlobsAreStored(
      profile: seq<Authored>, sources: Sources, stored: seq<SourceFile>, groups: set<string>, f: PublishedFile)
    requires AllResolved(profile, sources) && DigestFixesLength(sources) && Stores(stored, AllFiles(profile), sources)
    requires f in References(Projection(CompiledAll(profile, sources), groups))
    ensures exists s :: s in stored && s.blob == f.blob && s.bytes == f.bytes
  {
    var r := ProjectedFileFrom(CompiledAll(profile, sources), groups, f);
    CompiledFileIsStored(profile, sources, stored, r, f);
  }

  lemma CompiledFileIsStored(
      profile: seq<Authored>, sources: Sources, stored: seq<SourceFile>, r: Published, f: PublishedFile)
    requires AllResolved(profile, sources) && DigestFixesLength(sources) && Stores(stored, AllFiles(profile), sources)
    requires r in CompiledAll(profile, sources) && f in FilesOf(r.payload.spec)
    ensures exists s :: s in stored && s.blob == f.blob && s.bytes == f.bytes
  {
    CompiledAllAre(profile, sources);
    var i :| 0 <= i < |profile| && r == CompiledAll(profile, sources)[i];
    var m := ManagedFileOf(profile[i], sources, f);
    FileOfSome(profile, i, m);
    ManagedFileIsStored(profile, sources, stored, m);
  }

  /** The authored file a published one comes from. */
  lemma ManagedFileOf(r: Authored, sources: Sources, f: PublishedFile) returns (m: ManagedFile)
    requires AreResolved(FilesOf(r.spec), sources) && f in FilesOf(Compiled(r, sources).payload.spec)
    ensures m in FilesOf(r.spec) && m.source in sources && f == PublishedOf(m, sources[m.source])
  {
    var files := FilesOf(r.spec);
    PublishedSpecKeepsFiles(r.spec, PublishedFiles(files, sources));
    var k :| 0 <= k < |files| && f == PublishedOf(files[k], sources[files[k].source]);
    m := files[k];
  }

  lemma ManagedFileIsStored(profile: seq<Authored>, sources: Sources, stored: seq<SourceFile>, m: ManagedFile)
    requires DigestFixesLength(sources) && Stores(stored, AllFiles(profile), sources) && m in AllFiles(profile)
    ensures m.source in sources
    ensures exists s :: s in stored && s.blob == sources[m.source].blob && s.bytes == sources[m.source].bytes
  {
    var s :| s in stored && s.blob == sources[m.source].blob;
    var g :| g in AllFiles(profile) && g.source in sources && sources[g.source] == s;
  }

  lemma {:induction false} FileOfSome(profile: seq<Authored>, i: nat, f: ManagedFile)
    requires i < |profile| && f in FilesOf(profile[i].spec)
    ensures f in AllFiles(profile)
  {
    if i < |profile| - 1 {
      FileOfSome(profile[..|profile| - 1], i, f);
    }
  }

  // ----- verification digests -----

  /** How the contents of a skill and of a config are hashed. */
  datatype Digests = Digests(directory: seq<(string, string, bool)> -> string, config: string -> string)

  function Listing(files: seq<PublishedFile>): seq<(string, string, bool)> {
    if files == [] then [] else [(files[0].path, files[0].blob, files[0].executable)] + Listing(files[1..])
  }

  /** The digest a follower derives from the published content; tools and credentials have none. */
  function ContentDigest(d: Digests, spec: Spec<PublishedFile>): Option<string> {
    match spec
    case FileSpec(file) => Some(file.blob)
    case SkillSpec(_, files) => Some(d.directory(Listing(files)))
    case ConfigSpec(document) => Some(d.config(document))
    case OpaqueSpec(_) => None
  }

  datatype Mismatch = Mismatch(id: string, declared: string, computed: string)

  datatype CompletionError = NoContent(id: string) | Mismatches(all: seq<Mismatch>)

  predicate HasContent(d: Digests, r: Authored, p: Published) {
    r.verify.ByDigest? ==> ContentDigest(d, p.payload.spec).Some?
  }

  /** A declared digest is the one followers derive. */
  predicate Agrees(d: Digests, r: Authored, p: Published) {
    r.verify.ByDigest? && r.verify.digest.Some? ==> r.verify.digest == ContentDigest(d, p.payload.spec)
  }

  /** The resource with its digest filled in. */
  function Filled(d: Digests, r: Authored, p: Published): Authored {
    if r.verify.ByDigest? then r.(verify := ByDigest(ContentDigest(d, p.payload.spec))) else r
  }

  /** Fill in every omitted digest; the declared digests that differ are all reported, in order. */
  method CompleteVerification(d: Digests, profile: seq<Authored>, materialized: seq<Published>)
    returns (result: Result<seq<Authored>, CompletionError>)
    requires |materialized| == |profile|
    ensures result.Ok? <==> forall i :: 0 <= i < |profile| ==>
        HasContent(d, profile[i], materialized[i]) && Agrees(d, profile[i], materialized[i])
    ensures result.Ok? ==> |result.value| == |profile|
                           && forall i :: 0 <= i < |profile| ==>
                               result.value[i] == Filled(d, profile[i], materialized[i])
    ensures result.Err? && result.error.Mismatches? ==>
              forall m :: m in result.error.all
                  <==> exists i :: 0 <= i < |profile| && Reports(d, profile[i], materialized[i], m)
  {
    var resources: seq<Authored>, mismatches: seq<Mismatch> := [], [];
    var i := 0;
    while i < |profile|
      invariant 0 <= i <= |profile| && |resources| == i
      invariant forall k :: 0 <= k < i ==>
                  HasContent(d, profile[k], materialized[k]) && resources[k] == Filled(d, profile[k], materialized[k])
      invariant mismatches == [] <==> forall k :: 0 <= k < i ==> Agrees(d, profile[k], materialized[k])
      invariant forall m :: m in mismatches <==> exists k :: 0 <= k < i && Reports(d, profile[k], materialized[k], m)
    {
      var r := profile[i];
      if r.verify.ByDigest? {
        var computed := ContentDigest(d, materialized[i].payload.spec);
        if computed.None? {
          return Err(NoContent(r.id));
        }
        if r.verify.digest.Some? && r.verify.digest.value != computed.value {
          mismatches := mismatches + [Mismatch(r.id, r.verify.digest.value, computed.value)];
        }
        resources := resources + [r.(verify := ByDigest(computed))];
      } else {
        resources := resources + [r];
      }
      i := i + 1;
    }
    if mismatches != [] {
      return Err(Mismatches(mismatches));
    }
    return Ok(resources);
  }

  predicate Reports(d: Digests, r: Authored, p: Published, m: Mismatch) {
    && r.verify.ByDigest? && r.verify.digest.Some? && ContentDigest(d, p.payload.spec).Some?
    && m == Mismatch(r.id, r.verify.digest.value, ContentDigest(d, p.payload.spec).value) && m.declared != m.computed
  }

  function FilledAll(d: Digests, profile: seq<Authored>, materialized: seq<Published>): (filled: seq<Authored>)
    requires |materialized| == |profile|
    ensures |filled| == |profile| && forall i :: 0 <= i < |profile| ==>
              filled[i] == Filled(d, profile[i], materialized[i])
  {
    seq(|profile|, i requires 0 <= i < |profile| => Filled(d, profile[i], materialized[i]))
  }

  /** Compiling a completed profile again publishes the same resources, and its digests all agree. */
  lemma RecompilingIsStable(d: Digests, profile: seq<Authored>, sources: Sources)
    requires AllResolved(profile, sources)
    requires var compiled := CompiledAll(profile, sources);
             forall i :: 0 <= i < |profile| ==> HasContent(d, profile[i], compiled[i])
    ensures var compiled := CompiledAll(profile, sources);
            var filled := FilledAll(d, profile, compiled);
            AllResolved(filled, sources) && CompiledAll(filled, sources) == compiled
                && FilledAll(d, filled, compiled) == filled
            && forall i :: 0 <= i < |filled| ==>
                HasContent(d, filled[i], compiled[i]) && Agrees(d, filled[i], compiled[i])
  {
    var compiled := CompiledAll(profile, sources);
    var filled := FilledAll(d, profile, compiled);
    CompiledAllAre(profile, sources);
    forall i | 0 <= i < |filled|
      ensures AreResolved(FilesOf(filled[i].spec), sources) && Compiled(filled[i], sources) == compiled[i]
      ensures HasContent(d, filled[i], compiled[i]) && Agrees(d, filled[i], compiled[i])
      ensures Filled(d, filled[i], compiled[i]) == filled[i]
    {
      assert profile[i] in profile;
      FilledIsStable(d, profile[i], sources);
    }
    CompiledAllAre(filled, sources);
  }

  lemma FilledIsStable(d: Digests, r: Authored, sources: Sources)
    requires AreResolved(FilesOf(r.spec), sources) && HasContent(d, r, Compiled(r, sources))
    ensures var p := Compiled(r, sources);
            var filled := Filled(d, r, p);
            AreResolved(FilesOf(filled.spec), sources) && Compiled(filled, sources) == p
            && HasContent(d, filled, p) && Agrees(d, filled, p) && Filled(d, filled, p) == filled
  {
  }
}
