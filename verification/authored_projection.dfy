/**
  What a follower receives of an authored profile, in the profile's own terms:
  compilation (src/profile/compiler.ts) followed by authorization
  (src/enrollment/enrollment.layer.ts, `visibleResources` and
  `authorizedResources`), and what the follower's blob index then checks
  (src/enrollment/follower-client.ts).
 */
module AuthoredProjection {
  import opened Options
  import opened Sequences
  import opened Sorting
  import opened Visibility
  import opened Compiler

  // ----- selection keeps the order -----

  lemma SelectOne<T>(r: Resource<T>, ids: set<string>)
    ensures Select([r], ids) == if r.id in ids then [r] else []
  {
    assert [r][1..] == [];
  }

  lemma JoinThree<T>(a: seq<T>, b: seq<T>, c: seq<T>)
    ensures a + b + c == a + (b + c)
  {
  }

  /** Selecting from two lists in a row selects from each: nothing moves. */
  lemma {:induction false} SelectConcat<T>(a: seq<Resource<T>>, b: seq<Resource<T>>, ids: set<string>)
    ensures Select(a + b, ids) == Select(a, ids) + Select(b, ids)
  {
    if a == [] {
      assert a + b == b && Select(a, ids) == [];
    } else {
      assert (a + b)[1..] == a[1..] + b && (a + b)[0] == a[0];
      SelectConcat(a[1..], b, ids);
      JoinThree(if a[0].id in ids then [a[0]] else [], Select(a[1..], ids), Select(b, ids));
    }
  }

  // ----- who receives what -----

  /** The resource is for everybody, or for one of the groups. */
  ghost predicate IsFor(r: Authored, groups: set<string>) {
    forall named :: r.groups == Some(named) && named != [] ==> exists g :: g in named && g in groups
  }

  ghost predicate Needs(profile: seq<Authored>, id: string, other: string) {
    exists r, named :: r in profile && r.id == id && r.dependsOn == Some(named) && other in named
  }

  /** Each id in the chain needs the next. */
  ghost predicate IsNeedChain(profile: seq<Authored>, chain: seq<string>) {
    |chain| > 0 && forall i :: 0 <= i < |chain| - 1 ==> Needs(profile, chain[i], chain[i + 1])
  }

  ghost predicate IsForSome(profile: seq<Authored>, id: string, groups: set<string>) {
    exists r :: r in profile && r.id == id && IsFor(r, groups)
  }

  lemma CompiledKeepsAuthored(r: Authored, sources: Sources, groups: set<string>)
    requires AreResolved(FilesOf(r.spec), sources)
    ensures Compiled(r, sources).id == r.id
    ensures IsAuthorized(Compiled(r, sources), groups) <==> IsFor(r, groups)
    ensures forall d :: d in Compiled(r, sources).dependsOn
                   <==> exists named :: r.dependsOn == Some(named) && d in named
  {
    if r.groups.Some? && |r.groups.value| > 0 {
      assert IsFor(r, groups) <==> exists g :: g in r.groups.value && g in groups;
    }
  }

  lemma CompiledOf(profile: seq<Authored>, sources: Sources, r: Authored)
    requires AllResolved(profile, sources) && r in profile
    ensures AreResolved(FilesOf(r.spec), sources) && Compiled(r, sources) in CompiledAll(profile, sources)
  {
    CompiledAllAre(profile, sources);
    var i :| 0 <= i < |profile| && profile[i] == r;
    assert CompiledAll(profile, sources)[i] == Compiled(r, sources);
  }

  lemma AuthoredOf(profile: seq<Authored>, sources: Sources, p: Published) returns (r: Authored)
    requires AllResolved(profile, sources) && p in CompiledAll(profile, sources)
    ensures r in profile && AreResolved(FilesOf(r.spec), sources) && p == Compiled(r, sources)
  {
    CompiledAllAre(profile, sources);
    var i :| 0 <= i < |profile| && CompiledAll(profile, sources)[i] == p;
    r := profile[i];
  }

  lemma DependsIffNeeds(profile: seq<Authored>, sources: Sources, id: string, other: string)
    requires AllResolved(profile, sources)
    ensures DependsOn(CompiledAll(profile, sources), id, other) <==> Needs(profile, id, other)
  {
    if p :| p in CompiledAll(profile, sources) && p.id == id && other in p.dependsOn {
      var r := AuthoredOf(profile, sources, p);
      CompiledKeepsAuthored(r, sources, {});
    }
    if r, named :| r in profile && r.id == id && r.dependsOn == Some(named) && other in named {
      CompiledOf(profile, sources, r);
      CompiledKeepsAuthored(r, sources, {});
    }
  }

  lemma AuthorizedIffFor(profile: seq<Authored>, sources: Sources, groups: set<string>, id: string)
    requires AllResolved(profile, sources)
    ensures id in AuthorizedIds(CompiledAll(profile, sources), groups) <==> IsForSome(profile, id, groups)
  {
    if p :| p in CompiledAll(profile, sources) && IsAuthorized(p, groups) && p.id == id {
      var r := AuthoredOf(profile, sources, p);
      CompiledKeepsAuthored(r, sources, groups);
    }
    if r :| r in profile && r.id == id && IsFor(r, groups) {
      CompiledOf(profile, sources, r);
      CompiledKeepsAuthored(r, sources, groups);
    }
  }

  /** A follower is shown an authored id exactly when whatever it needs, directly or
      through others and itself included, is in the profile and for its groups. */
  lemma VisibleIffNeedsAreFor(profile: seq<Authored>, sources: Sources, groups: set<string>, id: string)
    requires AllResolved(profile, sources)
    ensures id in VisibleIds(CompiledAll(profile, sources), groups)
       <==> forall chain :: IsNeedChain(profile, chain) && chain[0] == id ==>
              IsForSome(profile, chain[|chain| - 1], groups)
  {
    var compiled := CompiledAll(profile, sources);
    forall x, y ensures DependsOn(compiled, x, y) <==> Needs(profile, x, y) {
      DependsIffNeeds(profile, sources, x, y);
    }
    assert forall chain :: IsChain(compiled, chain) <==> IsNeedChain(profile, chain);
    forall x ensures x in AuthorizedIds(compiled, groups) <==> IsForSome(profile, x, groups) {
      AuthorizedIffFor(profile, sources, groups, x);
    }
    if forall chain :: IsNeedChain(profile, chain) && chain[0] == id ==>
         IsForSome(profile, chain[|chain| - 1], groups) {
      assert IsNeedChain(profile, [id]);
    }
  }

  /** A file as its author declared it, with the content its source resolved to. */
  ghost predicate IsFileOf(f: PublishedFile, m: ManagedFile, s: SourceFile) {
    && f.path == m.path && f.blob == s.blob && f.bytes == s.bytes && f.mode == m.mode
    && (f.executable <==> m.executable == Some(true))
  }

  ghost predicate AreFilesOf(files: seq<PublishedFile>, authored: seq<ManagedFile>, sources: Sources) {
    && |files| == |authored|
    && forall i :: 0 <= i < |files| ==>
         authored[i].source in sources && IsFileOf(files[i], authored[i], sources[authored[i].source])
  }

  ghost predicate IsSpecOf(spec: Spec<PublishedFile>, authored: Spec<ManagedFile>, sources: Sources) {
    match authored
    case FileSpec(m) =>
      spec.FileSpec? && m.source in sources && IsFileOf(spec.file, m, sources[m.source])
    case SkillSpec(name, files) => spec.SkillSpec? && spec.name == name && AreFilesOf(spec.files, files, sources)
    case ConfigSpec(document) => spec == ConfigSpec(document)
    case OpaqueSpec(description) => spec == OpaqueSpec(description)
  }

  /** What is received is the authored resource: its own fields, the default policy of
      its kind where none is given, its files with their contents, no need left out, and
      of its groups only the follower's, in the authored order. */
  ghost predicate IsReceivedOf(p: Published, r: Authored, sources: Sources, groups: set<string>) {
    && p.id == r.id && p.payload.kind == r.kind && p.payload.target == r.target
    && (r.policy.Some? ==> p.payload.policy == r.policy.value)
    && (r.policy.None? ==> IsDefaultPolicy(r.kind, p.payload.policy))
    && IsSpecOf(p.payload.spec, r.spec, sources)
    && (match r.dependsOn case Some(named) => p.dependsOn == named case None => p.dependsOn == [])
    && (r.groups.None? ==> p.groups.None?)
    && (r.groups.Some? ==> p.groups.Some? && AreKept(p.groups.value, r.groups.value, groups))
    && IndexIsExact(p)
  }

  predicate IsDefaultPolicy(kind: Kind, policy: string) {
    match policy
    case "replace" => kind == File
    case "mirror-owned" => kind == Directory
    case "merge" => kind == Config
    case "replace-if-unmodified" => kind == Skill
    case "ensure" => kind == Tool
    case "require-local" => kind == Credential
    case _ => false
  }

  /** The kept names are those of the groups, as often and in the same order. */
  ghost predicate AreKept(kept: seq<string>, names: seq<string>, groups: set<string>) {
    && (forall g :: g in kept ==> g in groups)
    && (forall g :: g in groups ==> multiset(kept)[g] == multiset(names)[g])
    && IsSubsequence(kept, names)
  }

  predicate IsSubsequence(kept: seq<string>, names: seq<string>)
    decreases |names|
  {
    kept == [] || (names != []
                   && (if kept[0] == names[0] then IsSubsequence(kept[1..], names[1..])
                       else IsSubsequence(kept, names[1..])))
  }

  lemma {:induction false} KeepGroupsKeeps(names: seq<string>, groups: set<string>)
    ensures AreKept(KeepGroups(names, groups), names, groups)
  {
    if names != [] {
      var kept, rest := KeepGroups(names, groups), KeepGroups(names[1..], groups);
      KeepGroupsKeeps(names[1..], groups);
      assert names == [names[0]] + names[1..];
      if names[0] in groups {
        assert kept == [names[0]] + rest && kept[1..] == rest;
      } else {
        assert kept == rest;
        assert kept != [] ==> kept[0] in kept;
      }
    }
  }

  /** Each referenced blob is listed once, and no other. */
  ghost predicate IndexIsExact(p: Published) {
    && (forall i, j :: 0 <= i < j < |p.payload.blobs| ==> p.payload.blobs[i] != p.payload.blobs[j])
    && forall b :: b in p.payload.blobs <==> exists f :: f in FilesOf(p.payload.spec) && f.blob == b
  }

  lemma {:induction false} DistinctHasNoRepeats(names: seq<string>)
    ensures forall i, j :: 0 <= i < j < |Compiler.Distinct(names)| ==>
              Compiler.Distinct(names)[i] != Compiler.Distinct(names)[j]
  {
    if names != [] {
      DistinctHasNoRepeats(names[..|names| - 1]);
    }
  }

  lemma ListedBlobsAreExact(p: Published)
    requires p.payload.blobs == Compiler.Distinct(BlobsOf(FilesOf(p.payload.spec)))
    ensures IndexIsExact(p)
  {
    var names := BlobsOf(FilesOf(p.payload.spec));
    DistinctHasNoRepeats(names);
    DistinctMembers(names);
    forall b ensures b in names <==> exists f :: f in FilesOf(p.payload.spec) && f.blob == b {
      BlobsOfMembers(FilesOf(p.payload.spec), b);
    }
  }

  lemma CompiledIsReceived(r: Authored, sources: Sources, groups: set<string>)
    requires AreResolved(FilesOf(r.spec), sources)
    ensures IsReceivedOf(Narrow(Compiled(r, sources), groups), r, sources, groups)
  {
    var p := Compiled(r, sources);
    CompiledSpecIsAuthored(r, sources);
    PublishedSpecKeepsFiles(r.spec, PublishedFiles(FilesOf(r.spec), sources));
    ListedBlobsAreExact(p);
    assert IndexIsExact(Narrow(p, groups));
    if r.groups.Some? {
      KeepGroupsKeeps(r.groups.value, groups);
    }
  }

  lemma CompiledSpecIsAuthored(r: Authored, sources: Sources)
    requires AreResolved(FilesOf(r.spec), sources)
    ensures IsSpecOf(Compiled(r, sources).payload.spec, r.spec, sources)
  {
    var authored := FilesOf(r.spec);
    var files := PublishedFiles(authored, sources);
    assert AreFilesOf(files, authored, sources) by {
      assert forall i :: 0 <= i < |authored| ==> authored[i] in authored;
    }
  }

  /** Every resource a follower receives is an authored one. */
  lemma ReceivedIsAuthored(profile: seq<Authored>, sources: Sources, groups: set<string>, p: Published)
    requires AllResolved(profile, sources) && p in Projection(CompiledAll(profile, sources), groups)
    ensures exists r :: r in profile && IsReceivedOf(p, r, sources, groups)
  {
    var c := ProjectedFrom(CompiledAll(profile, sources), groups, p);
    var r := AuthoredOf(profile, sources, c);
    CompiledIsReceived(r, sources, groups);
  }

  ghost predicate IsReceived(profile: seq<Authored>, sources: Sources, groups: set<string>, id: string)
    requires AllResolved(profile, sources)
  {
    exists p :: p in Projection(CompiledAll(profile, sources), groups) && p.id == id
  }

  lemma ReceivedIsVisible(profile: seq<Authored>, sources: Sources, groups: set<string>, p: Published)
    requires AllResolved(profile, sources) && p in Projection(CompiledAll(profile, sources), groups)
    ensures p.id in VisibleIds(CompiledAll(profile, sources), groups)
  {
    var c := ProjectedFrom(CompiledAll(profile, sources), groups, p);
  }

  lemma VisibleIsReceived(profile: seq<Authored>, sources: Sources, groups: set<string>, r: Authored)
    requires AllResolved(profile, sources) && r in profile
    requires r.id in VisibleIds(CompiledAll(profile, sources), groups)
    ensures IsReceived(profile, sources, groups, r.id)
  {
    CompiledOf(profile, sources, r);
    var c := Compiled(r, sources);
    ProjectedInto(CompiledAll(profile, sources), groups, c);
    assert Narrow(c, groups).id == r.id;
  }

  lemma ReceivedIffVisible(profile: seq<Authored>, sources: Sources, groups: set<string>, r: Authored)
    requires AllResolved(profile, sources) && r in profile
    ensures IsReceived(profile, sources, groups, r.id) <==> r.id in VisibleIds(CompiledAll(profile, sources), groups)
  {
    if r.id in VisibleIds(CompiledAll(profile, sources), groups) {
      VisibleIsReceived(profile, sources, groups, r);
    }
    if IsReceived(profile, sources, groups, r.id) {
      var p :| p in Projection(CompiledAll(profile, sources), groups) && p.id == r.id;
      ReceivedIsVisible(profile, sources, groups, p);
    }
  }

  /** An authored resource is received exactly when what it needs, directly or through
      others and itself included, is in the profile and for the follower's groups. */
  lemma ReceivedIffNeedsAreFor(profile: seq<Authored>, sources: Sources, groups: set<string>, r: Authored)
    requires AllResolved(profile, sources) && r in profile
    ensures IsReceived(profile, sources, groups, r.id)
       <==> forall chain :: IsNeedChain(profile, chain) && chain[0] == r.id ==>
              IsForSome(profile, chain[|chain| - 1], groups)
  {
    ReceivedIffVisible(profile, sources, groups, r);
    VisibleIffNeedsAreFor(profile, sources, groups, r.id);
  }

  // ----- the follower's index check -----

  lemma {:induction false} SameSorted(a: seq<string>, b: seq<string>)
    requires Ordered(a, TextNotAfter) && Ordered(b, TextNotAfter) && multiset(a) == multiset(b)
    ensures a == b
  {
    assert |a| == |multiset(a)| == |multiset(b)| == |b|;
    if a != [] {
      assert a[0] in multiset(b);
      assert b[0] in multiset(a);
      var i :| 0 <= i < |a| && a[i] == b[0];
      var j :| 0 <= j < |b| && b[j] == a[0];
      TextOrderIsTotal(a[0], a[0]);
      assert TextNotAfter(a[0], b[0]) && TextNotAfter(b[0], a[0]);
      TextOrderIsAntisymmetric(a[0], b[0]);
      assert a == [a[0]] + a[1..] && b == [b[0]] + b[1..];
      assert multiset(a[1..]) == multiset(a) - multiset{a[0]};
      assert multiset(b[1..]) == multiset(b) - multiset{b[0]};
      SameSorted(a[1..], b[1..]);
    }
  }

  lemma {:induction false} InsertionIgnoresName(sorted: seq<string>, x: string)
    ensures InsertBy(sorted, x, TextOrder()) == InsertBy(sorted, x, TextNotAfter)
  {
    if sorted != [] {
      InsertionIgnoresName(sorted[1..], x);
    }
  }

  lemma TextOrderIsLinear()
    ensures Total(TextNotAfter) && Transitive(TextNotAfter)
  {
    forall a, b ensures TextNotAfter(a, b) || TextNotAfter(b, a) {
      TextOrderIsTotal(a, b);
    }
    forall a, b, c | TextNotAfter(a, b) && TextNotAfter(b, c) ensures TextNotAfter(a, c) {
      TextOrderIsTransitive(a, b, c);
    }
  }

  lemma {:induction false} SortIgnoresName(names: seq<string>)
    ensures SortBy(names, TextOrder()) == SortBy(names, TextNotAfter)
  {
    if names != [] {
      SortIgnoresName(names[1..]);
      InsertionIgnoresName(SortBy(names[1..], TextNotAfter), names[0]);
    }
  }

  lemma {:induction false} CountOnce(names: seq<string>, x: string)
    requires forall i, j :: 0 <= i < j < |names| ==> names[i] != names[j]
    ensures multiset(names)[x] == if x in names then 1 else 0
  {
    if names != [] {
      assert names == [names[0]] + names[1..];
      CountOnce(names[1..], x);
    }
  }

  /** The check on the sorted lists passes exactly when the index lists each
      referenced blob once and no other. */
  lemma IndexMatchesIff(p: Published)
    ensures IndexMatches(p) <==> IndexIsExact(p)
  {
    var names, listed := BlobsOf(FilesOf(p.payload.spec)), p.payload.blobs;
    var once := Compiler.Distinct(names);
    var expected := p.(payload := p.payload.(blobs := once));
    ListedBlobsAreExact(expected);
    SortIgnoresName(once);
    SortIgnoresName(listed);
    TextOrderIsLinear();
    if IndexMatches(p) {
      assert multiset(once) == multiset(SortBy(once, TextNotAfter)) == multiset(listed);
      SameMultisetSameIndex(once, listed);
    }
    if IndexIsExact(p) {
      forall x ensures multiset(once)[x] == multiset(listed)[x] {
        CountOnce(once, x);
        CountOnce(listed, x);
      }
      assert multiset(once) == multiset(listed);
      SortIsOrdered(once, TextNotAfter);
      SortIsOrdered(listed, TextNotAfter);
      SameSorted(SortBy(once, TextNotAfter), SortBy(listed, TextNotAfter));
    }
  }

  lemma SameMultisetSameIndex(once: seq<string>, listed: seq<string>)
    requires forall i, j :: 0 <= i < j < |once| ==> once[i] != once[j]
    requires multiset(once) == multiset(listed)
    ensures forall i, j :: 0 <= i < j < |listed| ==> listed[i] != listed[j]
    ensures forall x :: x in listed <==> x in once
  {
    forall i, j | 0 <= i < j < |listed| ensures listed[i] != listed[j] {
      CountOnce(once, listed[i]);
      PairIffCounted(listed, listed[i], listed[j]);
      assert HoldsPair(listed, listed[i], listed[j]);
    }
    assert forall x :: x in listed <==> x in multiset(listed);
    assert forall x :: x in once <==> x in multiset(once);
  }

  // ----- what a verification digest stands for -----

  /** No two different listings have the same directory digest. */
  ghost predicate DirectoryIsInjective(d: Digests) {
    forall a, b :: d.directory(a) == d.directory(b) ==> a == b
  }

  lemma {:induction false} ListingDetermines(a: seq<PublishedFile>, b: seq<PublishedFile>)
    requires Listing(a) == Listing(b)
    ensures |a| == |b|
    ensures forall i :: 0 <= i < |a| ==>
              a[i].path == b[i].path && a[i].blob == b[i].blob && a[i].executable == b[i].executable
  {
    if a == [] {
      assert b == [];
    } else {
      assert b != [];
      assert Listing(a)[0] == Listing(b)[0];
      assert Listing(a)[1..] == Listing(a[1..]) && Listing(b)[1..] == Listing(b[1..]);
      ListingDetermines(a[1..], b[1..]);
      forall i | 0 <= i < |a|
        ensures a[i].path == b[i].path && a[i].blob == b[i].blob && a[i].executable == b[i].executable
      {
        if i > 0 {
          assert a[1..][i - 1] == a[i] && b[1..][i - 1] == b[i];
        }
      }
    }
  }

  /** A completed resource is verified by what it publishes: a file by its source's
      blob, a config by the digest of its document; nothing else of it changes. */
  lemma FilledDigestIsOfContent(d: Digests, r: Authored, sources: Sources)
    requires AreResolved(FilesOf(r.spec), sources) && r.verify.ByDigest?
    ensures var filled := Filled(d, r, Compiled(r, sources));
            && filled == r.(verify := filled.verify) && filled.verify.ByDigest?
            && (r.spec.FileSpec? ==>
                  r.spec.file.source in sources && filled.verify.digest == Some(sources[r.spec.file.source].blob))
            && (r.spec.ConfigSpec? ==> filled.verify.digest == Some(d.config(r.spec.document)))
            && (r.spec.OpaqueSpec? ==> filled.verify.digest == None)
  {
    if r.spec.FileSpec? {
      assert r.spec.file in FilesOf(r.spec);
    }
  }

  /** Two skills share a digest only when they have the same paths, contents and
      executable flags in the same order. */
  lemma SkillDigestDeterminesContent(d: Digests, r: Authored, q: Authored, sources: Sources)
    requires AreResolved(FilesOf(r.spec), sources) && AreResolved(FilesOf(q.spec), sources)
    requires r.spec.SkillSpec? && q.spec.SkillSpec? && DirectoryIsInjective(d)
    requires ContentDigest(d, Compiled(r, sources).payload.spec) == ContentDigest(d, Compiled(q, sources).payload.spec)
    ensures HaveSameContent(r.spec.files, q.spec.files, sources)
  {
    var a, b := PublishedFiles(r.spec.files, sources), PublishedFiles(q.spec.files, sources);
    assert Compiled(r, sources).payload.spec == SkillSpec(r.spec.name, a);
    assert Compiled(q, sources).payload.spec == SkillSpec(q.spec.name, b);
    ListingDetermines(a, b);
    SameListingSameContent(r.spec.files, q.spec.files, sources);
  }

  lemma SameListingSameContent(x: seq<ManagedFile>, y: seq<ManagedFile>, sources: Sources)
    requires AreResolved(x, sources) && AreResolved(y, sources)
    requires var a, b := PublishedFiles(x, sources), PublishedFiles(y, sources);
             |a| == |b|
             && forall i :: 0 <= i < |a| ==>
                  a[i].path == b[i].path && a[i].blob == b[i].blob && a[i].executable == b[i].executable
    ensures HaveSameContent(x, y, sources)
  {
    var a, b := PublishedFiles(x, sources), PublishedFiles(y, sources);
    forall i | 0 <= i < |a|
      ensures x[i].path == y[i].path && x[i].source in sources && y[i].source in sources
      ensures sources[x[i].source].blob == sources[y[i].source].blob
      ensures x[i].executable == Some(true) <==> y[i].executable == Some(true)
    {
      assert a[i].path == b[i].path && x[i] in x && y[i] in y;
    }
  }

  ghost predicate HaveSameContent(a: seq<ManagedFile>, b: seq<ManagedFile>, sources: Sources) {
    && |a| == |b|
    && forall i :: 0 <= i < |a| ==>
         && a[i].path == b[i].path && a[i].source in sources && b[i].source in sources
         && sources[a[i].source].blob == sources[b[i].source].blob
         && (a[i].executable == Some(true) <==> b[i].executable == Some(true))
  }
}
