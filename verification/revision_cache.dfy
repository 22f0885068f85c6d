/**
  The bounded cache in front of revision validation
  (src/enrollment/enrollment.layer.ts, `cacheSet` and `cachedRevision`).

  Digests, fingerprints and the signature check are uninterpreted: they are the
  function fields of a `Validator`. A JavaScript `Map` remembers insertion order,
  so the cache is a sequence of entries, oldest first.
 */
module RevisionCache {
  import opened Options

  /** `version` digests a revision's canonical JSON, `fingerprint` a public key. */
  datatype Validator<!Revision(!new), !Key(!new), +Profile, +Error> = Validator(
    idOf: Revision -> string,
    version: Revision -> string,
    fingerprint: Key -> string,
    validate: (Revision, string, Key) -> Result<Profile, Error>)

  datatype Request<+Revision, +Key> = Request(revision: Revision, signingKeyId: string, publicKey: Key)

  type Entries<Profile> = seq<(string, Profile)>

  // ----- cache keys -----

  const NUL: string := [0 as char]

  function CacheKey<R(!new), K(!new), P, E>(v: Validator<R, K, P, E>, q: Request<R, K>): string {
    v.idOf(q.revision) + NUL + v.version(q.revision) + NUL + q.signingKeyId + NUL + v.fingerprint(q.publicKey)
  }

  predicate NulFree(s: string) {
    forall i :: 0 <= i < |s| ==> s[i] != 0 as char
  }

  /** Digests and fingerprints are injective and spell hexadecimal, so never NUL. */
  ghost predicate DigestsAreInjective<R(!new), K(!new), P, E>(v: Validator<R, K, P, E>) {
    && (forall a, b :: v.version(a) == v.version(b) ==> a == b)
    && (forall a, b :: v.fingerprint(a) == v.fingerprint(b) ==> a == b)
    && (forall a :: NulFree(v.version(a)))
    && (forall a :: NulFree(v.fingerprint(a)))
  }

  lemma LastNul(a: string, b: string)
    requires NulFree(b)
    ensures (a + NUL + b)[|a|] == 0 as char
    ensures forall k :: |a| < k < |a + NUL + b| ==> (a + NUL + b)[k] != 0 as char
  {
    assert forall k :: |a| < k < |a + NUL + b| ==> (a + NUL + b)[k] == b[k - |a| - 1];
  }

  lemma SplitAtLastNul(a: string, b: string, c: string, d: string)
    requires a + NUL + b == c + NUL + d && NulFree(b) && NulFree(d)
    ensures a == c && b == d
  {
    LastNul(a, b);
    LastNul(c, d);
    var joined := a + NUL + b;
    assert |a| == |c|;
    assert joined[..|a|] == a && joined[..|c|] == c;
    assert joined[|a| + 1..] == b && joined[|c| + 1..] == d;
  }

  /** A key names one revision, one signing key id and one public key, even
      when the revision id itself holds a NUL. */
  lemma CacheKeyIsInjective<R(!new), K(!new), P, E>(v: Validator<R, K, P, E>, p: Request<R, K>, q: Request<R, K>)
    requires DigestsAreInjective(v) && NulFree(p.signingKeyId) && NulFree(q.signingKeyId)
    requires CacheKey(v, p) == CacheKey(v, q)
    ensures p == q
  {
    SplitAtLastNul(v.idOf(p.revision) + NUL + v.version(p.revision) + NUL + p.signingKeyId, v.fingerprint(p.publicKey),
                   v.idOf(q.revision) + NUL + v.version(q.revision) + NUL + q.signingKeyId, v.fingerprint(q.publicKey));
    SplitAtLastNul(v.idOf(p.revision) + NUL + v.version(p.revision), p.signingKeyId,
                   v.idOf(q.revision) + NUL + v.version(q.revision), q.signingKeyId);
    SplitAtLastNul(v.idOf(p.revision), v.version(p.revision), v.idOf(q.revision), v.version(q.revision));
  }

  // ----- the ordered map -----

  predicate Has<P>(entries: Entries<P>, key: string) {
    exists i :: 0 <= i < |entries| && entries[i].0 == key
  }

  function Without<P>(entries: Entries<P>, key: string): Entries<P> {
    if entries == [] then []
    else (if entries[0].0 == key then [] else [entries[0]]) + Without(entries[1..], key)
  }

  /** The last `n` entries, or all of them when there are fewer. */
  function Newest<P>(entries: Entries<P>, n: nat): Entries<P> {
    if |entries| <= n then entries else entries[|entries| - n..]
  }

  function Touch<P>(entries: Entries<P>, key: string, value: P): Entries<P> {
    Without(entries, key) + [(key, value)]
  }

  ghost predicate DistinctKeys<P>(entries: Entries<P>) {
    forall i, j :: 0 <= i < j < |entries| ==> entries[i].0 != entries[j].0
  }

  // ----- what a request does -----

  /** The new entries and the answer: a hit answers from the cache and becomes
      the newest entry; a miss validates, and only a success is kept. */
  ghost function Serve<R(!new), K(!new), P, E>(
      v: Validator<R, K, P, E>, maximum: nat, entries: Entries<P>, q: Request<R, K>)
    : (Entries<P>, Result<P, E>)
  {
    var key := CacheKey(v, q);
    if Has(entries, key) then
      var i :| 0 <= i < |entries| && entries[i].0 == key;
      (Newest(Touch(entries, key, entries[i].1), maximum), Ok(entries[i].1))
    else
      var verdict := v.validate(q.revision, q.signingKeyId, q.publicKey);
      if verdict.Ok? then (Newest(Touch(entries, key, verdict.value), maximum), verdict) else (entries, verdict)
  }

  class ValidatedRevisions<R(!new), K(!new), P, E> {
    const validator: Validator<R, K, P, E>
    const maximum: nat
    var entries: Entries<P>

    constructor (validator: Validator<R, K, P, E>, maximum: nat)
      ensures this.validator == validator && this.maximum == maximum && entries == []
    {
      this.validator := validator;
      this.maximum := maximum;
      entries := [];
    }

    method Get(key: string) returns (found: Option<P>)
      ensures found.None? <==> !Has(entries, key)
      ensures found.Some? ==> exists i :: 0 <= i < |entries| && entries[i] == (key, found.value)
    {
      for i := 0 to |entries|
        invariant !Has(entries[..i], key)
      {
        if entries[i].0 == key {
          return Some(entries[i].1);
        }
        assert entries[..i + 1] == entries[..i] + [entries[i]];
      }
      assert entries[..|entries|] == entries;
      return None;
    }

    method CacheSet(key: string, value: P)
      modifies this
      ensures entries == Newest(Touch(old(entries), key, value), maximum)
    {
      entries := Without(entries, key);
      entries := entries + [(key, value)];
      ghost var full := entries;
      while |entries| > maximum
        invariant |entries| <= |full| && entries == full[|full| - |entries|..]
        invariant |entries| >= maximum || entries == full
      {
        entries := entries[1..];
      }
    }

    method CachedRevision(q: Request<R, K>) returns (answer: Result<P, E>)
      requires DistinctKeys(entries)
      modifies this
      ensures DistinctKeys(entries)
      ensures (entries, answer) == Serve(validator, maximum, old(entries), q)
    {
      var key := CacheKey(validator, q);
      ServeKeepsDistinct(validator, maximum, entries, q);
      var cached := Get(key);
      if cached.Some? {
        HitServes(validator, maximum, entries, q, cached.value);
        CacheSet(key, cached.value);
        return Ok(cached.value);
      }
      MissServes(validator, maximum, entries, q);
      var verdict := validator.validate(q.revision, q.signingKeyId, q.publicKey);
      if verdict.Ok? {
        CacheSet(key, verdict.value);
      }
      return verdict;
    }
  }

  /** A remembered key answers with its one value and makes it the newest. */
  lemma HitServes<R(!new), K(!new), P, E>(
      v: Validator<R, K, P, E>, maximum: nat, entries: Entries<P>, q: Request<R, K>, value: P)
    requires DistinctKeys(entries) && exists i :: 0 <= i < |entries| && entries[i] == (CacheKey(v, q), value)
    ensures Serve(v, maximum, entries, q) == (Newest(Touch(entries, CacheKey(v, q), value), maximum), Ok(value))
  {
    var i :| 0 <= i < |entries| && entries[i] == (CacheKey(v, q), value);
    assert Has(entries, entries[i].0);
    assert forall j :: 0 <= j < |entries| && entries[j].0 == entries[i].0 ==> j == i;
  }

  lemma MissServes<R(!new), K(!new), P, E>(
      v: Validator<R, K, P, E>, maximum: nat, entries: Entries<P>, q: Request<R, K>)
    requires !Has(entries, CacheKey(v, q))
    ensures var verdict := v.validate(q.revision, q.signingKeyId, q.publicKey);
            Serve(v, maximum, entries, q)
            == (if verdict.Ok? then Newest(Touch(entries, CacheKey(v, q), verdict.value), maximum)
                else entries, verdict)
  {
  }

  // ----- facts about the ordered map -----

  lemma {:induction false} WithoutMember<P>(entries: Entries<P>, key: string, e: (string, P))
    ensures e in Without(entries, key) <==> e in entries && e.0 != key
  {
    if entries != [] {
      WithoutMember(entries[1..], key, e);
      assert entries == [entries[0]] + entries[1..];
    }
  }

  lemma {:induction false} WithoutAbsent<P>(entries: Entries<P>, key: string)
    requires !Has(entries, key)
    ensures Without(entries, key) == entries
  {
    if entries != [] {
      assert entries == [entries[0]] + entries[1..];
      WithoutAbsent(entries[1..], key);
    }
  }

  /** Removing a key that distinct entries hold removes exactly its entry. */
  lemma {:induction false} WithoutPresent<P>(entries: Entries<P>, i: nat)
    requires DistinctKeys(entries) && i < |entries|
    ensures Without(entries, entries[i].0) == entries[..i] + entries[i + 1..]
  {
    var rest := entries[1..];
    assert forall j :: 0 <= j < |rest| ==> rest[j] == entries[j + 1];
    if i == 0 {
      WithoutAbsent(rest, entries[0].0);
    } else {
      WithoutPresent(rest, i - 1);
      assert entries[..i] + entries[i + 1..] == [entries[0]] + (rest[..i - 1] + rest[i..]);
    }
  }

  lemma WithoutIsDistinct<P>(entries: Entries<P>, key: string)
    requires DistinctKeys(entries)
    ensures DistinctKeys(Without(entries, key)) && |Without(entries, key)| <= |entries|
    ensures !Has(Without(entries, key), key)
  {
    if Has(entries, key) {
      var i :| 0 <= i < |entries| && entries[i].0 == key;
      WithoutPresent(entries, i);
    } else {
      WithoutAbsent(entries, key);
    }
  }

  lemma TouchIsDistinct<P>(entries: Entries<P>, key: string, value: P, maximum: nat)
    requires DistinctKeys(entries)
    ensures DistinctKeys(Touch(entries, key, value)) && DistinctKeys(Newest(Touch(entries, key, value), maximum))
  {
    WithoutIsDistinct(entries, key);
    var kept := Without(entries, key);
    assert forall i :: 0 <= i < |kept| ==> kept[i].0 != key;
  }

  lemma {:induction false} WithoutConcat<P>(a: Entries<P>, b: Entries<P>, key: string)
    ensures Without(a + b, key) == Without(a, key) + Without(b, key)
  {
    if a == [] {
      assert a + b == b;
    } else {
      assert (a + b)[1..] == a[1..] + b;
      WithoutConcat(a[1..], b, key);
    }
  }

  lemma ServeKeepsDistinct<R(!new), K(!new), P, E>(
      v: Validator<R, K, P, E>, maximum: nat, entries: Entries<P>, q: Request<R, K>)
    requires DistinctKeys(entries)
    ensures DistinctKeys(Serve(v, maximum, entries, q).0)
    ensures |entries| <= maximum ==> |Serve(v, maximum, entries, q).0| <= maximum
  {
    var key := CacheKey(v, q);
    forall value { TouchIsDistinct(entries, key, value, maximum); }
  }

  /** Bounding before or after a touch keeps the same newest entries. */
  lemma BoundCommutesWithTouch<P>(all: Entries<P>, key: string, value: P, maximum: nat)
    requires DistinctKeys(all)
    ensures Newest(Touch(Newest(all, maximum), key, value), maximum) == Newest(Touch(all, key, value), maximum)
  {
    if |all| > maximum {
      var recent, older := Newest(all, maximum), all[..|all| - maximum];
      assert all == older + recent;
      WithoutConcat(older, recent, key);
      assert Touch(all, key, value) == Without(older, key) + Touch(recent, key, value);
      if Has(recent, key) {
        var i :| 0 <= i < |recent| && recent[i].0 == key;
        assert recent[i] == all[|older| + i];
        assert DistinctKeys(recent) by {
          assert forall j :: 0 <= j < |recent| ==> recent[j] == all[|older| + j];
        }
        WithoutPresent(recent, i);
        assert |Touch(recent, key, value)| == maximum;
      } else {
        WithoutAbsent(recent, key);
      }
      NewestOfSuffix(Without(older, key), Touch(recent, key, value), maximum);
    }
  }

  lemma NewestOfSuffix<P>(a: Entries<P>, b: Entries<P>, maximum: nat)
    requires |b| >= maximum
    ensures Newest(a + b, maximum) == Newest(b, maximum)
  {
  }

  // ----- every request sequence -----

  ghost function Entered<R(!new), K(!new), P, E>(
      v: Validator<R, K, P, E>, maximum: nat, history: seq<Request<R, K>>): Entries<P> {
    if history == [] then []
    else Serve(v, maximum, Entered(v, maximum, history[..|history| - 1]), history[|history| - 1]).0
  }

  /** Every request that ever validated, ordered by its last use. */
  ghost function ByLastUse<R(!new), K(!new), P, E>(v: Validator<R, K, P, E>, history: seq<Request<R, K>>): Entries<P> {
    if history == [] then []
    else
      var q, before := history[|history| - 1], ByLastUse(v, history[..|history| - 1]);
      var verdict := v.validate(q.revision, q.signingKeyId, q.publicKey);
      if verdict.Ok? then Touch(before, CacheKey(v, q), verdict.value) else before
  }

  ghost predicate KeyIdsAreNulFree<R, K>(history: seq<Request<R, K>>) {
    forall q :: q in history ==> NulFree(q.signingKeyId)
  }

  ghost predicate IsSuccess<R(!new), K(!new), P, E>(v: Validator<R, K, P, E>, e: (string, P), q: Request<R, K>) {
    CacheKey(v, q) == e.0 && v.validate(q.revision, q.signingKeyId, q.publicKey) == Ok(e.1)
  }

  /** Only successes are remembered, each under its own key. */
  lemma {:induction false} RememberedAreSuccesses<R(!new), K(!new), P, E>(
      v: Validator<R, K, P, E>, history: seq<Request<R, K>>)
    ensures DistinctKeys(ByLastUse(v, history))
    ensures forall e :: e in ByLastUse(v, history) ==> exists q :: q in history && IsSuccess(v, e, q)
  {
    if history != [] {
      var earlier, q := history[..|history| - 1], history[|history| - 1];
      RememberedAreSuccesses(v, earlier);
      var verdict := v.validate(q.revision, q.signingKeyId, q.publicKey);
      var before := ByLastUse(v, earlier);
      if verdict.Ok? {
        TouchIsDistinct(before, CacheKey(v, q), verdict.value, 0);
      }
      forall e | e in ByLastUse(v, history)
        ensures exists p :: p in history && IsSuccess(v, e, p)
      {
        if verdict.Ok? && e == (CacheKey(v, q), verdict.value) {
          assert IsSuccess(v, e, q);
        } else {
          WithoutMember(before, CacheKey(v, q), e);
          var p :| p in earlier && IsSuccess(v, e, p);
          assert p in history;
        }
      }
    }
  }

  /** The cache holds exactly the `maximum` most recently used successes, so
      each eviction removes the least recently used entry and failures never enter. */
  lemma {:induction false} CacheIsMostRecentlyUsed<R(!new), K(!new), P, E>(
      v: Validator<R, K, P, E>, maximum: nat, history: seq<Request<R, K>>)
    requires DigestsAreInjective(v) && KeyIdsAreNulFree(history)
    ensures Entered(v, maximum, history) == Newest(ByLastUse(v, history), maximum)
    ensures |Entered(v, maximum, history)| <= maximum
  {
    if history != [] {
      var earlier, q := history[..|history| - 1], history[|history| - 1];
      CacheIsMostRecentlyUsed(v, maximum, earlier);
      RememberedAreSuccesses(v, earlier);
      HitIsFresh(v, maximum, earlier, q);
      var verdict := v.validate(q.revision, q.signingKeyId, q.publicKey);
      if verdict.Ok? {
        BoundCommutesWithTouch(ByLastUse(v, earlier), CacheKey(v, q), verdict.value, maximum);
      }
    }
  }

  /** A cached entry is what validating this very request returns. */
  lemma HitIsFresh<R(!new), K(!new), P, E>(
      v: Validator<R, K, P, E>, maximum: nat, earlier: seq<Request<R, K>>, q: Request<R, K>)
    requires DigestsAreInjective(v) && KeyIdsAreNulFree(earlier) && NulFree(q.signingKeyId)
    requires Entered(v, maximum, earlier) == Newest(ByLastUse(v, earlier), maximum)
    ensures Serve(v, maximum, Entered(v, maximum, earlier), q).1 == v.validate(q.revision, q.signingKeyId, q.publicKey)
  {
    var entries, key := Entered(v, maximum, earlier), CacheKey(v, q);
    if Has(entries, key) {
      RememberedAreSuccesses(v, earlier);
      forall i | 0 <= i < |entries| && entries[i].0 == key
        ensures v.validate(q.revision, q.signingKeyId, q.publicKey) == Ok(entries[i].1)
      {
        assert entries[i] in ByLastUse(v, earlier);
        var p :| p in earlier && IsSuccess(v, entries[i], p);
        CacheKeyIsInjective(v, p, q);
      }
    }
  }

  /** After any history, the cached answer equals a fresh validation. */
  lemma CachedAnswerIsFresh<R(!new), K(!new), P, E>(
      v: Validator<R, K, P, E>, maximum: nat, history: seq<Request<R, K>>, q: Request<R, K>)
    requires DigestsAreInjective(v) && KeyIdsAreNulFree(history) && NulFree(q.signingKeyId)
    ensures Serve(v, maximum, Entered(v, maximum, history), q).1 == v.validate(q.revision, q.signingKeyId, q.publicKey)
  {
    CacheIsMostRecentlyUsed(v, maximum, history);
    HitIsFresh(v, maximum, history, q);
  }

  // ----- the cache, read off the history alone -----

  /** The request succeeds, and no later success has its key. */
  ghost predicate IsLastUse<R(!new), K(!new), P, E>(
      v: Validator<R, K, P, E>, history: seq<Request<R, K>>, k: nat)
  {
    && k < |history| && Verdict(v, history[k]).Ok?
    && forall j :: k < j < |history| && Verdict(v, history[j]).Ok? ==>
         CacheKey(v, history[j]) != CacheKey(v, history[k])
  }

  function Verdict<R(!new), K(!new), P, E>(v: Validator<R, K, P, E>, q: Request<R, K>): Result<P, E> {
    v.validate(q.revision, q.signingKeyId, q.publicKey)
  }

  /** `uses` are all the last uses, in the order they happened. */
  ghost predicate AreLastUses<R(!new), K(!new), P, E>(
      v: Validator<R, K, P, E>, history: seq<Request<R, K>>, uses: seq<nat>)
  {
    AreAscending(uses) && forall k: nat :: k in uses <==> IsLastUse(v, history, k)
  }

  /** Each entry is what its use validated to. */
  ghost predicate AreEntriesOf<R(!new), K(!new), P, E>(
      v: Validator<R, K, P, E>, history: seq<Request<R, K>>, uses: seq<nat>, entries: Entries<P>)
  {
    && |entries| == |uses|
    && forall i :: 0 <= i < |uses| ==> uses[i] < |history| && IsSuccess(v, entries[i], history[uses[i]])
  }

  lemma NewestUse<R(!new), K(!new), P, E>(
      v: Validator<R, K, P, E>, history: seq<Request<R, K>>, q: Request<R, K>, k: nat)
    ensures IsLastUse(v, history + [q], k)
       <==> if k == |history| then Verdict(v, q).Ok?
            else IsLastUse(v, history, k) && (Verdict(v, q).Ok? ==> CacheKey(v, q) != CacheKey(v, history[k]))
  {
    var all := history + [q];
    assert all[|history|] == q && forall j :: 0 <= j < |history| ==> all[j] == history[j];
    if IsLastUse(v, all, k) && k < |history| {
      forall j | k < j < |history| && Verdict(v, history[j]).Ok?
        ensures CacheKey(v, history[j]) != CacheKey(v, history[k])
      {
        assert all[j] == history[j];
      }
      assert Verdict(v, all[|history|]).Ok? ==> CacheKey(v, all[|history|]) != CacheKey(v, all[k]);
    }
  }

  ghost predicate AreAscending(uses: seq<nat>) {
    forall i, j :: 0 <= i < j < |uses| ==> uses[i] < uses[j]
  }

  /** Dropping the one entry of a key, and its use, keeps the others in order. */
  lemma DropUse<R(!new), K(!new), P, E>(
      v: Validator<R, K, P, E>, history: seq<Request<R, K>>, uses: seq<nat>, entries: Entries<P>, i: nat)
    requires AreEntriesOf(v, history, uses, entries) && AreAscending(uses) && DistinctKeys(entries) && i < |uses|
    ensures var others := uses[..i] + uses[i + 1..];
            && AreAscending(others) && AreEntriesOf(v, history, others, Without(entries, entries[i].0))
            && forall k :: k in others <==> k in uses && k != uses[i]
  {
    var others := uses[..i] + uses[i + 1..];
    WithoutPresent(entries, i);
    var kept := entries[..i] + entries[i + 1..];
    forall j | 0 <= j < |others| ensures others[j] < |history| && IsSuccess(v, kept[j], history[others[j]]) {
      var at := if j < i then j else j + 1;
      assert others[j] == uses[at] && kept[j] == entries[at];
    }
    OneRemoved(uses, i);
  }

  lemma OneRemoved(uses: seq<nat>, i: nat)
    requires AreAscending(uses) && i < |uses|
    ensures AreAscending(uses[..i] + uses[i + 1..])
    ensures forall k :: k in uses[..i] + uses[i + 1..] <==> k in uses && k != uses[i]
  {
    var others := uses[..i] + uses[i + 1..];
    forall k | k in uses && k != uses[i] ensures k in others {
      var j :| 0 <= j < |uses| && uses[j] == k;
      assert others[if j < i then j else j - 1] == k;
    }
    forall k | k in others ensures k in uses && k != uses[i] {
      var j :| 0 <= j < |others| && others[j] == k;
      assert uses[if j < i then j else j + 1] == k;
    }
  }

  /** The uses whose keys are not the given one, and their entries. */
  lemma UsesWithout<R(!new), K(!new), P, E>(
      v: Validator<R, K, P, E>, history: seq<Request<R, K>>, uses: seq<nat>, entries: Entries<P>, key: string)
    returns (others: seq<nat>)
    requires AreEntriesOf(v, history, uses, entries) && AreAscending(uses) && DistinctKeys(entries)
    ensures AreAscending(others) && AreEntriesOf(v, history, others, Without(entries, key))
    ensures forall k :: k in others <==> k in uses && k < |history| && CacheKey(v, history[k]) != key
  {
    assert forall j :: 0 <= j < |uses| ==> CacheKey(v, history[uses[j]]) == entries[j].0;
    if Has(entries, key) {
      var i :| 0 <= i < |entries| && entries[i].0 == key;
      DropUse(v, history, uses, entries, i);
      others := uses[..i] + uses[i + 1..];
      forall k | k in uses ensures k == uses[i] <==> CacheKey(v, history[k]) == key {
        var j :| 0 <= j < |uses| && uses[j] == k;
        assert i != j ==> entries[i].0 != entries[j].0;
      }
    } else {
      WithoutAbsent(entries, key);
      others := uses;
    }
  }

  lemma {:induction false} ByLastUseIsOfUses<R(!new), K(!new), P, E>(
      v: Validator<R, K, P, E>, history: seq<Request<R, K>>) returns (uses: seq<nat>)
    ensures AreLastUses(v, history, uses) && AreEntriesOf(v, history, uses, ByLastUse(v, history))
  {
    uses := [];
    if history != [] {
      var earlier, q := history[..|history| - 1], history[|history| - 1];
      var before := ByLastUseIsOfUses(v, earlier);
      assert history == earlier + [q];
      forall k: nat { NewestUse(v, earlier, q, k); }
      var entries, key := ByLastUse(v, earlier), CacheKey(v, q);
      assert AreEntriesOf(v, history, before, entries);
      uses := before;
      if Verdict(v, q).Ok? {
        RememberedAreSuccesses(v, earlier);
        var others := UsesWithout(v, history, before, entries, key);
        uses := others + [|history| - 1];
      }
    }
  }

  /** After any requests, and whatever was evicted on the way, the cache holds the
      verdicts of the last uses, in order, as far back as the bound allows. */
  lemma CacheIsOfHistory<R(!new), K(!new), P, E>(
      v: Validator<R, K, P, E>, maximum: nat, history: seq<Request<R, K>>) returns (uses: seq<nat>)
    requires DigestsAreInjective(v) && KeyIdsAreNulFree(history)
    ensures AreLastUses(v, history, uses)
    ensures var kept := if |uses| <= maximum then uses else uses[|uses| - maximum..];
            AreEntriesOf(v, history, kept, Entered(v, maximum, history))
  {
    uses := ByLastUseIsOfUses(v, history);
    CacheIsMostRecentlyUsed(v, maximum, history);
    if |uses| > maximum {
      NewestAreOfUses(v, history, uses, ByLastUse(v, history), |uses| - maximum);
    }
  }

  lemma NewestAreOfUses<R(!new), K(!new), P, E>(
      v: Validator<R, K, P, E>, history: seq<Request<R, K>>, uses: seq<nat>, entries: Entries<P>, cut: nat)
    requires AreEntriesOf(v, history, uses, entries) && cut <= |uses|
    ensures AreEntriesOf(v, history, uses[cut..], entries[cut..])
  {
    forall i | 0 <= i < |uses| - cut
      ensures uses[cut..][i] < |history| && IsSuccess(v, entries[cut..][i], history[uses[cut..][i]])
    {
      assert entries[cut..][i] == entries[cut + i] && uses[cut..][i] == uses[cut + i];
    }
  }
}
