/**
  Authorization of a follower's projection of a signed revision
  (src/enrollment/enrollment.layer.ts, `visibleResources` and
  `authorizedResources`).

  A resource is visible when it is authorized and everything it depends on,
  transitively, is authorized too. The program computes this with a loop that
  deletes ids from a set until nothing changes; the model proves that loop equal
  to the reachability definition, for any graph, cyclic or not.
 */
module Visibility {
  import opened Options

  /** A published resource; `payload` stands for the fields authorization never reads. */
  datatype Resource<T> = Resource(id: string, groups: Option<seq<string>>, dependsOn: seq<string>, payload: T)

  predicate IsAuthorized<T>(r: Resource<T>, groups: set<string>) {
    r.groups.None? || |r.groups.value| == 0 || exists g | g in r.groups.value :: g in groups
  }

  function AuthorizedIds<T(==)>(rs: seq<Resource<T>>, groups: set<string>): set<string> {
    set r | r in rs && IsAuthorized(r, groups) :: r.id
  }

  // ----- what "visible" means -----

  ghost predicate DependsOn<T>(rs: seq<Resource<T>>, dependent: string, dependency: string) {
    exists r :: r in rs && r.id == dependent && dependency in r.dependsOn
  }

  /** A nonempty chain of ids, each depending on the next. */
  ghost predicate IsChain<T>(rs: seq<Resource<T>>, chain: seq<string>) {
    |chain| > 0 && forall i :: 0 <= i < |chain| - 1 ==> DependsOn(rs, chain[i], chain[i + 1])
  }

  /** Every id a chain from `id` reaches exists and is authorized. */
  ghost predicate ClosureAuthorized<T>(rs: seq<Resource<T>>, groups: set<string>, id: string) {
    forall chain :: IsChain(rs, chain) && chain[0] == id ==> chain[|chain| - 1] in AuthorizedIds(rs, groups)
  }

  ghost function VisibleIds<T>(rs: seq<Resource<T>>, groups: set<string>): set<string> {
    set id | id in AuthorizedIds(rs, groups) && ClosureAuthorized(rs, groups, id)
  }

  /** No resource named in `ids` depends on an id outside `ids`. */
  ghost predicate DependencyClosed<T>(rs: seq<Resource<T>>, ids: set<string>) {
    forall r, d :: r in rs && r.id in ids && d in r.dependsOn ==> d in ids
  }

  predicate UniqueIds<T>(rs: seq<Resource<T>>) {
    forall i, j :: 0 <= i < j < |rs| ==> rs[i].id != rs[j].id
  }

  function Select<T>(rs: seq<Resource<T>>, ids: set<string>): seq<Resource<T>> {
    if rs == [] then [] else (if rs[0].id in ids then [rs[0]] else []) + Select(rs[1..], ids)
  }

  function KeepGroups(names: seq<string>, groups: set<string>): seq<string> {
    if names == [] then [] else (if names[0] in groups then [names[0]] else []) + KeepGroups(names[1..], groups)
  }

  function Narrow<T>(r: Resource<T>, groups: set<string>): Resource<T> {
    if r.groups.None? then r else r.(groups := Some(KeepGroups(r.groups.value, groups)))
  }

  function NarrowAll<T>(rs: seq<Resource<T>>, groups: set<string>): seq<Resource<T>> {
    if rs == [] then [] else [Narrow(rs[0], groups)] + NarrowAll(rs[1..], groups)
  }

  /** The projection a follower of `groups` receives. */
  ghost function Projection<T>(rs: seq<Resource<T>>, groups: set<string>): seq<Resource<T>> {
    NarrowAll(Select(rs, VisibleIds(rs, groups)), groups)
  }

  // ----- the program's loops -----

  /** Delete dependents of missing ids until nothing changes. What remains is
      closed, and every closed part `goal` of the start survives. */
  method PruneDependents<T(==)>(
      rs: seq<Resource<T>>, start: set<string>, ghost goal: set<string>) returns (ids: set<string>)
    requires goal <= start && DependencyClosed(rs, goal)
    ensures goal <= ids <= start && DependencyClosed(rs, ids)
  {
    ids := start;
    var changed := true;
    while changed
      invariant goal <= ids <= start
      invariant !changed ==> DependencyClosed(rs, ids)
      decreases |ids|, changed
    {
      changed := false;
      ghost var before := ids;
      for i := 0 to |rs|
        invariant goal <= ids <= before
        invariant changed ==> |ids| < |before|
        invariant !changed ==> ids == before && DependencyClosed(rs[..i], ids)
      {
        assert rs[..i + 1] == rs[..i] + [rs[i]];
        if rs[i].id in ids && exists d | d in rs[i].dependsOn :: d !in ids {
          ids := ids - {rs[i].id};
          SubsetSize(ids, before);
          changed := true;
        }
      }
      assert rs[..|rs|] == rs;
    }
  }

  method VisibleResources<T(==)>(rs: seq<Resource<T>>, groups: set<string>) returns (visible: seq<Resource<T>>)
    ensures visible == Select(rs, VisibleIds(rs, groups))
  {
    VisibleIsClosed(rs, groups);
    var visibleIds := PruneDependents(rs, AuthorizedIds(rs, groups), VisibleIds(rs, groups));
    ClosedIsVisible(rs, groups, visibleIds);
    assert visibleIds == VisibleIds(rs, groups);
    visible := Select(rs, visibleIds);
  }

  method AuthorizedResources<T(==)>(rs: seq<Resource<T>>, groups: set<string>) returns (projected: seq<Resource<T>>)
    ensures projected == Projection(rs, groups)
  {
    var visible := VisibleResources(rs, groups);
    projected := NarrowAll(visible, groups);
  }

  lemma SubsetSize<A>(small: set<A>, large: set<A>)
    requires small < large
    ensures |small| < |large|
  {
    var rest := large - small;
    assert large == small + rest && rest != {};
  }

  // ----- the loop's result is the greatest closed authorized set -----

  /** The visible ids are closed: a chain from a dependency extends to one from the dependent. */
  lemma VisibleIsClosed<T>(rs: seq<Resource<T>>, groups: set<string>)
    ensures DependencyClosed(rs, VisibleIds(rs, groups))
  {
    forall r, d | r in rs && r.id in VisibleIds(rs, groups) && d in r.dependsOn
      ensures d in VisibleIds(rs, groups)
    {
      assert DependsOn(rs, r.id, d);
      forall chain | IsChain(rs, chain) && chain[0] == d
        ensures chain[|chain| - 1] in AuthorizedIds(rs, groups)
      {
        var longer := [r.id] + chain;
        assert forall i :: 0 < i < |longer| - 1 ==> longer[i] == chain[i - 1] && longer[i + 1] == chain[i];
        assert IsChain(rs, longer);
        assert longer[|longer| - 1] == chain[|chain| - 1];
      }
      assert IsChain(rs, [d]);
    }
  }

  /** Any closed set of authorized ids is visible: a chain can never leave it. */
  lemma ClosedIsVisible<T>(rs: seq<Resource<T>>, groups: set<string>, ids: set<string>)
    requires ids <= AuthorizedIds(rs, groups) && DependencyClosed(rs, ids)
    ensures ids <= VisibleIds(rs, groups)
  {
    forall id, chain | id in ids && IsChain(rs, chain) && chain[0] == id
      ensures chain[|chain| - 1] in AuthorizedIds(rs, groups)
    {
      ChainStaysInside(rs, ids, chain, |chain| - 1);
    }
  }

  lemma {:induction false} ChainStaysInside<T>(rs: seq<Resource<T>>, ids: set<string>, chain: seq<string>, k: nat)
    requires DependencyClosed(rs, ids) && IsChain(rs, chain) && chain[0] in ids && k < |chain|
    ensures chain[k] in ids
  {
    if k > 0 {
      ChainStaysInside(rs, ids, chain, k - 1);
      assert DependsOn(rs, chain[k - 1], chain[k]);
    }
  }

  /** Visibility is the greatest dependency-closed set of authorized ids. */
  lemma VisibleIsGreatest<T>(rs: seq<Resource<T>>, groups: set<string>, ids: set<string>)
    ensures VisibleIds(rs, groups) <= AuthorizedIds(rs, groups)
    ensures DependencyClosed(rs, VisibleIds(rs, groups))
    ensures ids <= AuthorizedIds(rs, groups) && DependencyClosed(rs, ids) ==> ids <= VisibleIds(rs, groups)
  {
    VisibleIsClosed(rs, groups);
    if ids <= AuthorizedIds(rs, groups) && DependencyClosed(rs, ids) {
      ClosedIsVisible(rs, groups, ids);
    }
  }

  /** With unique ids: visible exactly when every resource reachable through
      `dependsOn`, itself included, exists and is authorized. */
  lemma VisibleIffReachableAuthorized<T>(rs: seq<Resource<T>>, groups: set<string>, r: Resource<T>)
    requires UniqueIds(rs) && r in rs
    ensures r in Select(rs, VisibleIds(rs, groups))
      <==> forall chain :: IsChain(rs, chain) && chain[0] == r.id
             ==> exists t :: t in rs && t.id == chain[|chain| - 1] && IsAuthorized(t, groups)
  {
    var visible := VisibleIds(rs, groups);
    SelectMembers(rs, visible, r);
    if r.id in visible {
      forall chain | IsChain(rs, chain) && chain[0] == r.id
        ensures exists t :: t in rs && t.id == chain[|chain| - 1] && IsAuthorized(t, groups)
      {
        assert chain[|chain| - 1] in AuthorizedIds(rs, groups);
      }
    }
    if forall chain :: IsChain(rs, chain) && chain[0] == r.id
         ==> exists t :: t in rs && t.id == chain[|chain| - 1] && IsAuthorized(t, groups) {
      assert IsChain(rs, [r.id]);
      assert r.id in AuthorizedIds(rs, groups);
    }
  }

  /** The order of the resources never matters to which ids are visible. */
  lemma VisibleIgnoresOrder<T>(rs: seq<Resource<T>>, other: seq<Resource<T>>, groups: set<string>)
    requires forall r :: r in rs <==> r in other
    ensures VisibleIds(rs, groups) == VisibleIds(other, groups)
  {
    assert AuthorizedIds(rs, groups) == AuthorizedIds(other, groups);
    VisibleIsClosed(rs, groups);
    VisibleIsClosed(other, groups);
    ClosedIsVisible(other, groups, VisibleIds(rs, groups));
    ClosedIsVisible(rs, groups, VisibleIds(other, groups));
  }

  /** A follower given more groups never loses a resource. */
  lemma VisibleIsMonotone<T>(rs: seq<Resource<T>>, fewer: set<string>, more: set<string>)
    requires fewer <= more
    ensures VisibleIds(rs, fewer) <= VisibleIds(rs, more)
  {
    VisibleIsClosed(rs, fewer);
    assert AuthorizedIds(rs, fewer) <= AuthorizedIds(rs, more);
    ClosedIsVisible(rs, more, VisibleIds(rs, fewer));
  }

  // ----- projecting a projection -----

  lemma {:induction false} SelectMembers<T>(rs: seq<Resource<T>>, ids: set<string>, r: Resource<T>)
    ensures r in Select(rs, ids) <==> r in rs && r.id in ids
  {
    if rs != [] {
      SelectMembers(rs[1..], ids, r);
    }
  }

  lemma {:induction false} NarrowAllMembers<T>(rs: seq<Resource<T>>, groups: set<string>)
    ensures |NarrowAll(rs, groups)| == |rs|
    ensures forall i :: 0 <= i < |rs| ==> NarrowAll(rs, groups)[i] == Narrow(rs[i], groups)
  {
    if rs != [] {
      NarrowAllMembers(rs[1..], groups);
    }
  }

  lemma ProjectionMembers<T>(rs: seq<Resource<T>>, groups: set<string>)
    ensures forall p :: p in Projection(rs, groups)
              <==> exists r :: r in rs && r.id in VisibleIds(rs, groups) && p == Narrow(r, groups)
  {
    var kept := Select(rs, VisibleIds(rs, groups));
    NarrowAllMembers(kept, groups);
    forall p
      ensures p in Projection(rs, groups)
        <==> exists r :: r in rs && r.id in VisibleIds(rs, groups) && p == Narrow(r, groups)
    {
      if p in Projection(rs, groups) {
        var i :| 0 <= i < |kept| && p == Narrow(kept[i], groups);
        SelectMembers(rs, VisibleIds(rs, groups), kept[i]);
      }
      if r :| r in rs && r.id in VisibleIds(rs, groups) && p == Narrow(r, groups) {
        SelectMembers(rs, VisibleIds(rs, groups), r);
        var i :| 0 <= i < |kept| && kept[i] == r;
        assert Projection(rs, groups)[i] == p;
      }
    }
  }

  lemma {:induction false} KeepGroupsMembers(names: seq<string>, groups: set<string>, g: string)
    ensures g in KeepGroups(names, groups) <==> g in names && g in groups
  {
    if names != [] {
      KeepGroupsMembers(names[1..], groups, g);
    }
  }

  lemma {:induction false} KeepGroupsTwice(names: seq<string>, outer: set<string>, inner: set<string>)
    requires inner <= outer
    ensures KeepGroups(KeepGroups(names, outer), inner) == KeepGroups(names, inner)
  {
    if names != [] {
      KeepGroupsTwice(names[1..], outer, inner);
      var rest := KeepGroups(names[1..], outer);
      if names[0] in outer {
        assert KeepGroups(names, outer) == [names[0]] + rest;
        assert ([names[0]] + rest)[1..] == rest;
      } else {
        assert KeepGroups(names, outer) == rest;
      }
    }
  }

  /** Narrowing keeps a visible resource's authorization exactly as it was. */
  lemma NarrowedAuthorization<T>(r: Resource<T>, outer: set<string>, inner: set<string>)
    requires inner <= outer
    ensures IsAuthorized(r, inner) ==> IsAuthorized(Narrow(r, outer), inner)
    ensures IsAuthorized(r, outer) && IsAuthorized(Narrow(r, outer), inner) ==> IsAuthorized(r, inner)
  {
    if r.groups.Some? {
      forall g { KeepGroupsMembers(r.groups.value, outer, g); }
      if IsAuthorized(r, inner) && |r.groups.value| > 0 {
        var g :| g in r.groups.value && g in inner;
        assert g in KeepGroups(r.groups.value, outer);
      }
      if IsAuthorized(r, outer) && |r.groups.value| > 0 {
        var g :| g in r.groups.value && g in outer;
        assert g in KeepGroups(r.groups.value, outer);
      }
    }
  }

  lemma {:induction false} ReprojectSelected<T>(rs: seq<Resource<T>>, wide: set<string>, narrow: set<string>,
                                                outer: set<string>, inner: set<string>)
    requires narrow <= wide && inner <= outer
    ensures NarrowAll(Select(NarrowAll(Select(rs, wide), outer), narrow), inner) == NarrowAll(Select(rs, narrow), inner)
  {
    if rs != [] {
      ReprojectSelected(rs[1..], wide, narrow, outer, inner);
      var r, rest := rs[0], NarrowAll(Select(rs[1..], wide), outer);
      if r.id in wide {
        assert Select(rs, wide) == [r] + Select(rs[1..], wide);
        assert NarrowAll(Select(rs, wide), outer) == [Narrow(r, outer)] + rest;
        assert ([Narrow(r, outer)] + rest)[1..] == rest;
        if r.groups.Some? {
          KeepGroupsTwice(r.groups.value, outer, inner);
        }
        assert Narrow(Narrow(r, outer), inner) == Narrow(r, inner);
        if r.id in narrow {
          var tail := Select(rest, narrow);
          assert Select([Narrow(r, outer)] + rest, narrow) == [Narrow(r, outer)] + tail;
          assert ([Narrow(r, outer)] + tail)[1..] == tail;
          assert NarrowAll([Narrow(r, outer)] + tail, inner) == [Narrow(r, inner)] + NarrowAll(tail, inner);
          assert Select(rs, narrow) == [r] + Select(rs[1..], narrow);
          assert ([r] + Select(rs[1..], narrow))[1..] == Select(rs[1..], narrow);
          assert NarrowAll(Select(rs, narrow), inner) == [Narrow(r, inner)] + NarrowAll(Select(rs[1..], narrow), inner);
        } else {
          assert Select([Narrow(r, outer)] + rest, narrow) == Select(rest, narrow);
          assert Select(rs, narrow) == Select(rs[1..], narrow);
        }
      } else {
        assert Select(rs, wide) == Select(rs[1..], wide);
        assert Select(rs, narrow) == Select(rs[1..], narrow);
      }
    }
  }

  /** What one projection keeps stays authorized, and nothing new becomes so. */
  lemma ReprojectedAuthorization<T>(rs: seq<Resource<T>>, outer: set<string>, inner: set<string>, id: string)
    requires inner <= outer && (UniqueIds(rs) || inner == outer)
    requires id in VisibleIds(rs, outer)
    ensures id in AuthorizedIds(Projection(rs, outer), inner) <==> id in AuthorizedIds(rs, inner)
  {
    var once := Projection(rs, outer);
    ProjectionMembers(rs, outer);
    if id in AuthorizedIds(rs, inner) {
      var r :| r in rs && r.id == id && IsAuthorized(r, inner);
      NarrowedAuthorization(r, outer, inner);
      assert Narrow(r, outer) in once;
    }
    if id in AuthorizedIds(once, inner) {
      var p :| p in once && p.id == id && IsAuthorized(p, inner);
      var r :| r in rs && r.id in VisibleIds(rs, outer) && p == Narrow(r, outer);
      var a :| a in rs && a.id == id && IsAuthorized(a, outer);
      if UniqueIds(rs) {
        assert a == r;
        NarrowedAuthorization(r, outer, inner);
      }
    }
  }

  lemma ReprojectedEdges<T>(rs: seq<Resource<T>>, outer: set<string>, ids: set<string>)
    requires ids <= VisibleIds(rs, outer)
    ensures DependencyClosed(rs, ids) <==> DependencyClosed(Projection(rs, outer), ids)
  {
    var once := Projection(rs, outer);
    ProjectionMembers(rs, outer);
    if DependencyClosed(once, ids) {
      forall r, d | r in rs && r.id in ids && d in r.dependsOn
        ensures d in ids
      {
        assert Narrow(r, outer) in once;
      }
    }
  }

  /** The ids a second projection keeps are those the direct one keeps. */
  lemma ReprojectedIds<T>(rs: seq<Resource<T>>, outer: set<string>, inner: set<string>)
    requires inner <= outer && (UniqueIds(rs) || inner == outer)
    ensures VisibleIds(Projection(rs, outer), inner) == VisibleIds(rs, inner)
  {
    var once := Projection(rs, outer);
    var direct, twice := VisibleIds(rs, inner), VisibleIds(once, inner);
    VisibleIsMonotone(rs, inner, outer);
    ProjectionMembers(rs, outer);
    forall id | id in direct
      ensures id in AuthorizedIds(once, inner)
    {
      ReprojectedAuthorization(rs, outer, inner, id);
    }
    VisibleIsClosed(rs, inner);
    ReprojectedEdges(rs, outer, direct);
    ClosedIsVisible(once, inner, direct);
    forall id | id in twice
      ensures id in VisibleIds(rs, outer) && id in AuthorizedIds(rs, inner)
    {
      var p :| p in once && p.id == id;
      assert exists r :: r in rs && r.id in VisibleIds(rs, outer) && p == Narrow(r, outer);
      ReprojectedAuthorization(rs, outer, inner, id);
    }
    VisibleIsClosed(once, inner);
    ReprojectedEdges(rs, outer, twice);
    ClosedIsVisible(rs, inner, twice);
  }

  /** Projecting a projection for fewer groups is projecting once: a follower's
      metadata never hides or reveals more than the signed revision does. */
  lemma ProjectionComposes<T>(rs: seq<Resource<T>>, outer: set<string>, inner: set<string>)
    requires inner <= outer && UniqueIds(rs)
    ensures Projection(Projection(rs, outer), inner) == Projection(rs, inner)
  {
    ReprojectedIds(rs, outer, inner);
    VisibleIsMonotone(rs, inner, outer);
    ReprojectSelected(rs, VisibleIds(rs, outer), VisibleIds(rs, inner), outer, inner);
  }

  /** `authorizedResources` is idempotent, with or without unique ids. */
  lemma ProjectionIsIdempotent<T>(rs: seq<Resource<T>>, groups: set<string>)
    ensures Projection(Projection(rs, groups), groups) == Projection(rs, groups)
  {
    ReprojectedIds(rs, groups, groups);
    ReprojectSelected(rs, VisibleIds(rs, groups), VisibleIds(rs, groups), groups, groups);
  }
}
