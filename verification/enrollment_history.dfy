/**
  What an enrolled follower's record says about its past, and exactly when the
  Source lets an enrollment or a finalization through
  (src/enrollment/enrollment.layer.ts, `enrollFollower` and `finalizeFollower`).

  Nothing here is stated through the functions that compute an answer: the
  conditions and the rows are spelled out in terms of the request, what it drew,
  and the tables it found.
 */
module EnrollmentHistory {
  import opened Options
  import opened Enrollment

  // ----- when an enrollment is accepted, and what it leaves -----

  /** The request names this Source and proves an invitation that is open at both clocks. */
  ghost predicate ProvesInvitation(w: World, s: State, q: Request, d: Draw) {
    && s.source == Some(q.source)
    && w.sha(q.code) in s.invitations
    && var invitation := s.invitations[w.sha(q.code)];
       && !invitation.used && d.now < invitation.expiresAt && d.enrolledAt < invitation.expiresAt
       && invitation.source == q.source && invitation.nonceDigest == w.sha(q.nonce)
  }

  function FollowerOf(w: World, q: Request): string {
    w.followerId(q.source.fingerprint, w.normalize(q.followerName))
  }

  /** The name is usable and names nobody enrolled, and nobody else waiting. */
  ghost predicate MayTakeName(w: World, s: State, q: Request) {
    && 0 < |w.normalize(q.followerName)| <= 128 && !w.hasControl(w.normalize(q.followerName))
    && (FollowerOf(w, q) in s.followers ==> s.followers[FollowerOf(w, q)].revoked)
    && forall p :: p in s.pending ==> (p.follower == FollowerOf(w, q) <==> p.codeDigest == w.sha(q.code))
  }

  /** The drawn credential is not one in use, except by the row the request replaces. */
  ghost predicate CredentialIsUnused(w: World, s: State, q: Request, d: Draw) {
    && (forall id :: id in s.followers ==> s.followers[id].credentialDigest != w.sha(d.credential))
    && (forall p :: p in s.pending && p.codeDigest != w.sha(q.code) ==> p.credentialDigest != w.sha(d.credential))
  }

  ghost predicate CallsSucceed(w: World, s: State, q: Request, io: EnrollIo) {
    && io.find && io.lookup && io.storeNew && io.list && io.consume && io.revisions
    && ((exists p :: p in s.pending && p.codeDigest == w.sha(q.code)) ==> io.cancel)
  }

  /** The row of an accepted request. */
  function RowOf(w: World, s: State, q: Request, d: Draw): Pending
    requires w.sha(q.code) in s.invitations
  {
    Pending(FollowerOf(w, q), w.sha(q.code), w.sha(d.credential), d.reference, w.normalize(q.followerName),
            s.invitations[w.sha(q.code)].groups)
  }

  lemma NothingRefused(w: World, s: State, q: Request, d: Draw, io: EnrollIo)
    ensures Refusal(w, s, q, io, d.now).None?
       <==> s.source == Some(q.source) && io.find && io.lookup && io.storeNew && w.sha(q.code) in s.invitations
            && !s.invitations[w.sha(q.code)].used && d.now < s.invitations[w.sha(q.code)].expiresAt
            && 0 < |w.normalize(q.followerName)| <= 128 && !w.hasControl(w.normalize(q.followerName))
            && (FollowerOf(w, q) in s.followers ==> s.followers[FollowerOf(w, q)].revoked)
    ensures Refusal(w, s, q, io, d.now).None? ==> Proposed(w, s, q, d) == RowOf(w, s, q, d)
  {
    assert s.source.Some? ==> s.source.value == Source(s.source.value.fingerprint, s.source.value.tlsFingerprint);
    assert q.source == Source(q.source.fingerprint, q.source.tlsFingerprint);
  }

  /** The rows that stay when the rows of a code are withdrawn. */
  ghost predicate AreOthers(rows: seq<Pending>, kept: seq<Pending>, code: string) {
    forall p :: p in kept <==> p in rows && p.codeDigest != code
  }

  lemma WithdrawnOthers(s: State, row: Pending, io: EnrollIo)
    requires Inv(s) && Withdraw(s, row, io).Ok?
    ensures AreOthers(s.pending, Withdraw(s, row, io).value.pending, row.codeDigest)
  {
    var prior := FindCode(s.pending, row.codeDigest);
    if prior.Some? {
      forall p | p in s.pending
        ensures p.credentialDigest == prior.value.credentialDigest <==> p.codeDigest == row.codeDigest
      {
        if p != prior.value {
          DistinctRows(s.pending, p, prior.value);
        }
      }
    }
  }

  lemma ConsumesIff(w: World, s: State, q: Request, d: Draw, row: Pending)
    ensures ConsumeRefusal(w, s, q, d, row).None?
       <==> row.codeDigest in s.invitations
            && var invitation := s.invitations[row.codeDigest];
               && !invitation.used && d.enrolledAt < invitation.expiresAt && invitation.source == q.source
               && invitation.nonceDigest == w.sha(q.nonce)
               && (row.follower in s.followers ==> s.followers[row.follower].revoked)
               && (forall id :: id in s.followers ==> s.followers[id].credentialDigest != row.credentialDigest)
               && (forall p :: p in s.pending ==> p.follower != row.follower)
               && (forall p :: p in s.pending ==> p.codeDigest != row.codeDigest)
               && (forall p :: p in s.pending ==>
                    p.credentialDigest != row.credentialDigest && p.reference != row.reference)
  {
  }

  /** An enrollment is accepted exactly when no call it needs fails, it proves an
      open invitation of this Source, its name is free, and its credential is new. */
  lemma EnrollmentAcceptedIff(w: World, s: State, q: Request, d: Draw, io: EnrollIo)
    requires Inv(s) && FreshReference(s, d.reference)
    ensures Enroll(w, s, q, d, io).1.Ok?
       <==> CallsSucceed(w, s, q, io) && ProvesInvitation(w, s, q, d) && MayTakeName(w, s, q)
            && CredentialIsUnused(w, s, q, d)
  {
    NothingRefused(w, s, q, d, io);
    if Refusal(w, s, q, io, d.now).None? && io.list {
      var row, stored := RowOf(w, s, q, d), s.(store := s.store[d.reference := d.credential]);
      var prior := FindCode(s.pending, row.codeDigest);
      assert Inv(stored);
      if Withdraw(stored, row, io).Ok? {
        WithdrawnOthers(stored, row, io);
        ConsumesIff(w, Withdraw(stored, row, io).value, q, d, row);
      }
      if prior.Some? {
        forall p | p in s.pending && p != prior.value
          ensures p.codeDigest != row.codeDigest && p.follower != prior.value.follower
        {
          DistinctRows(s.pending, p, prior.value);
        }
      }
    }
  }

  /** What an accepted enrollment leaves: its row, in terms of the request and the
      invitation, behind the rows of other codes; the drawn credential in the store;
      and nothing else changed but the stored item of a row it replaced. */
  lemma AcceptedEnrollmentWrites(w: World, s: State, q: Request, d: Draw, io: EnrollIo)
    requires Inv(s) && FreshReference(s, d.reference) && Enroll(w, s, q, d, io).1.Ok?
    ensures w.sha(q.code) in s.invitations && Enroll(w, s, q, d, io).1 == Ok(RowOf(w, s, q, d))
    ensures var t := Enroll(w, s, q, d, io).0;
            && t.source == s.source && t.invitations == s.invitations && t.followers == s.followers
            && |t.pending| > 0 && t.pending[|t.pending| - 1] == RowOf(w, s, q, d)
            && AreOthers(s.pending, t.pending[..|t.pending| - 1], w.sha(q.code))
            && d.reference in t.store && t.store[d.reference] == d.credential
            && forall r :: r != d.reference && !(exists p :: p in s.pending && p.codeDigest == w.sha(q.code)
                                                                  && p.reference == r)
                           ==> (r in t.store <==> r in s.store) && (r in s.store ==> t.store[r] == s.store[r])
  {
    NothingRefused(w, s, q, d, io);
    var row, stored := RowOf(w, s, q, d), s.(store := s.store[d.reference := d.credential]);
    assert Inv(stored);
    WithdrawnOthers(stored, row, io);
    WithdrawKeepsInv(stored, row, io);
    var ready := Withdraw(stored, row, io).value;
    assert (ready.pending + [row])[..|ready.pending|] == ready.pending;
  }

  /** Whether the error an enrollment reports is what is wrong with the request. */
  ghost predicate IsTruthful(w: World, s: State, q: Request, d: Draw, io: EnrollIo, error: Error) {
    var code := w.sha(q.code);
    match error
    case SourceNotInitialized => s.source.None?
    case InvitationNotFound => code !in s.invitations
    case SourceMismatch =>
      s.source.Some?
      && (q.source.fingerprint != s.source.value.fingerprint
          || (code in s.invitations
              && (s.invitations[code].source != q.source || s.invitations[code].nonceDigest != w.sha(q.nonce))))
    case FingerprintMismatch => s.source.Some? && q.source.tlsFingerprint != s.source.value.tlsFingerprint
    case InvitationReplay =>
      code in s.invitations
      && (s.invitations[code].used
          || exists p :: p in s.pending && p.codeDigest == code && p.follower != FollowerOf(w, q))
    case InvitationExpired =>
      code in s.invitations && (s.invitations[code].expiresAt <= d.now || s.invitations[code].expiresAt <= d.enrolledAt)
    case DuplicateFollower => !MayTakeName(w, s, q) || !CredentialIsUnused(w, s, q, d)
    case CredentialStorage => !io.storeNew
    case Configuration => !CallsSucceed(w, s, q, io) || !MayTakeName(w, s, q) || !CredentialIsUnused(w, s, q, d)
    case _ => false
  }

  lemma RefusalIsTruthful(w: World, s: State, q: Request, d: Draw, io: EnrollIo)
    requires Refusal(w, s, q, io, d.now).Some?
    ensures IsTruthful(w, s, q, d, io, Refusal(w, s, q, io, d.now).value)
  {
  }

  lemma WithdrawalErrorIsTruthful(w: World, s: State, q: Request, d: Draw, io: EnrollIo, row: Pending)
    requires Withdraw(s, row, io).Err? && row.follower == FollowerOf(w, q) && row.codeDigest == w.sha(q.code)
    requires w.sha(q.code) in s.invitations
    ensures IsTruthful(w, s, q, d, io, Withdraw(s, row, io).error)
  {
    var prior := FindCode(s.pending, row.codeDigest);
    assert prior.value in s.pending && prior.value.codeDigest == row.codeDigest;
  }

  lemma ConsumptionErrorIsTruthful(w: World, s: State, t: State, q: Request, d: Draw, io: EnrollIo)
    requires w.sha(q.code) in s.invitations && s.source.Some? && s.source.value == q.source
    requires t.invitations == s.invitations && t.followers == s.followers
    requires AreOthers(s.pending, t.pending, w.sha(q.code)) && FreshReference(s, d.reference)
    requires ConsumeRefusal(w, t, q, d, RowOf(w, s, q, d)).Some?
    ensures IsTruthful(w, s, q, d, io, ConsumeRefusal(w, t, q, d, RowOf(w, s, q, d)).value)
  {
  }

  /** The error of an enrollment that got past the first checks. */
  lemma StoredErrorIsTruthful(w: World, s: State, q: Request, d: Draw, io: EnrollIo)
    requires Inv(s) && FreshReference(s, d.reference) && Refusal(w, s, q, io, d.now).None? && io.list
    requires s.source == Some(q.source) && w.sha(q.code) in s.invitations
    requires Proposed(w, s, q, d) == RowOf(w, s, q, d)
    requires Enroll(w, s, q, d, io).1.Err?
    ensures IsTruthful(w, s, q, d, io, Enroll(w, s, q, d, io).1.error)
  {
    var row, stored := RowOf(w, s, q, d), s.(store := s.store[d.reference := d.credential]);
    assert Inv(stored);
    if Withdraw(stored, row, io).Err? {
      WithdrawalErrorIsTruthful(w, s, q, d, io, row);
    } else if !io.consume || ConsumeRefusal(w, Withdraw(stored, row, io).value, q, d, row).None? {
      FailedCallIsTruthful(w, s, q, d, io);
    } else {
      WithdrawnOthers(stored, row, io);
      ConsumptionErrorIsTruthful(w, s, Withdraw(stored, row, io).value, q, d, io);
    }
  }

  lemma FailedCallIsTruthful(w: World, s: State, q: Request, d: Draw, io: EnrollIo)
    requires Refusal(w, s, q, io, d.now).None? && !(io.list && io.consume && io.revisions)
    requires w.sha(q.code) in s.invitations
    ensures IsTruthful(w, s, q, d, io, Configuration)
  {
  }

  /** Whatever an enrollment reports is what is wrong. */
  lemma EnrollmentErrorIsTruthful(w: World, s: State, q: Request, d: Draw, io: EnrollIo)
    requires Inv(s) && FreshReference(s, d.reference) && Enroll(w, s, q, d, io).1.Err?
    ensures IsTruthful(w, s, q, d, io, Enroll(w, s, q, d, io).1.error)
  {
    if Refusal(w, s, q, io, d.now).Some? {
      RefusalIsTruthful(w, s, q, d, io);
    } else {
      NothingRefused(w, s, q, d, io);
      if io.list {
        StoredErrorIsTruthful(w, s, q, d, io);
      } else {
        FailedCallIsTruthful(w, s, q, d, io);
      }
    }
  }

  // ----- when a finalization goes through -----

  /** The row of this credential can be promoted: its invitation is open, and neither
      its name nor its credential is anyone's. */
  ghost predicate MayPromote(s: State, p: Pending, now: int) {
    && (p.follower in s.followers ==> s.followers[p.follower].revoked)
    && p.codeDigest in s.invitations && !s.invitations[p.codeDigest].used
    && now < s.invitations[p.codeDigest].expiresAt
    && forall id :: id in s.followers && id != p.follower ==> s.followers[id].credentialDigest != p.credentialDigest
  }

  ghost predicate IsRowOf(s: State, p: Pending, digest: string) {
    p in s.pending && p.credentialDigest == digest
  }

  ghost predicate IsEnrolledWith(s: State, digest: string) {
    exists id :: id in s.followers && !s.followers[id].revoked && s.followers[id].credentialDigest == digest
  }

  /** A finalization succeeds exactly when the credential has a pending row that can
      be promoted, or has none and is already that of an unrevoked follower. */
  lemma FinalizationSucceedsIff(w: World, s: State, credential: string, now: int, io: Io)
    requires Inv(s)
    ensures Finalize(w, s, credential, now, io).1.None?
       <==> io.list
            && ((io.write && exists p :: IsRowOf(s, p, w.sha(credential)) && MayPromote(s, p, now))
                || (io.lookup && IsEnrolledWith(s, w.sha(credential))
                    && !exists p :: IsRowOf(s, p, w.sha(credential))))
  {
    var found := FindCredential(s.pending, w.sha(credential));
    if found.Some? {
      var row := found.value;
      assert IsRowOf(s, row, w.sha(credential));
      forall p | IsRowOf(s, p, w.sha(credential)) ensures p == row {
        if p != row {
          DistinctRows(s.pending, p, row);
        }
      }
      assert FinalizeRefusal(s, row, now).None? <==> MayPromote(s, row, now);
    }
  }

  /** A finalization that promotes a row enrolls its follower, spends its invitation,
      removes the row and retires the credential it replaces; all else stays. */
  lemma PromotionWrites(w: World, s: State, credential: string, now: int, io: Io, p: Pending)
    requires Inv(s) && Finalize(w, s, credential, now, io).1.None? && IsRowOf(s, p, w.sha(credential))
    ensures var t := Finalize(w, s, credential, now, io).0;
            && t.followers
               == s.followers[p.follower := Follower(p.name, p.groups, false, p.credentialDigest, p.reference)]
            && p.codeDigest in s.invitations
            && t.invitations == s.invitations[p.codeDigest := s.invitations[p.codeDigest].(used := true)]
            && (forall r :: r in t.pending <==> r in s.pending && r != p)
            && t.source == s.source && p.reference in t.store
            && t.store == (if io.lookup && io.drop && p.follower in s.followers
                           then s.store - ({s.followers[p.follower].reference} - {p.reference}) else s.store)
  {
    var row := FindCredential(s.pending, w.sha(credential)).value;
    if p != row {
      DistinctRows(s.pending, p, row);
      assert false;
    }
    forall r | r in s.pending && r != p ensures r.credentialDigest != p.credentialDigest {
      DistinctRows(s.pending, r, p);
    }
    FinalizeKeepsInv(w, s, credential, now, io);
  }

  /** A repeated finalization changes nothing. */
  lemma RepeatedFinalizationChangesNothing(w: World, s: State, credential: string, now: int, io: Io)
    requires Inv(s) && !exists p :: IsRowOf(s, p, w.sha(credential))
    ensures Finalize(w, s, credential, now, io).0 == s
  {
    var found := FindCredential(s.pending, w.sha(credential));
    assert found.Some? ==> IsRowOf(s, found.value, w.sha(credential));
  }

  /** A cancelled enrollment cannot be finalized: its row and its stored credential
      are gone, and every other row and item is still there. */
  lemma CancelledCannotFinalize(w: World, s: State, credential: string, io: Io, p: Pending, now: int, later: Io)
    requires Inv(s) && IsRowOf(s, p, w.sha(credential)) && io.list && io.write && io.drop
    requires !IsEnrolledWith(s, w.sha(credential))
    ensures var t := Cancel(w, s, credential, io).0;
            && Cancel(w, s, credential, io).1.None?
            && (forall r :: r in t.pending <==> r in s.pending && r != p) && t.store == s.store - {p.reference}
            && t.followers == s.followers && t.invitations == s.invitations
            && Finalize(w, t, credential, now, later).1.Some? && Finalize(w, t, credential, now, later).0 == t
  {
    var t := Cancel(w, s, credential, io).0;
    var row := FindCredential(s.pending, w.sha(credential)).value;
    if p != row {
      DistinctRows(s.pending, p, row);
      assert false;
    }
    forall r | r in s.pending && r != p ensures r.credentialDigest != p.credentialDigest {
      DistinctRows(s.pending, r, p);
    }
    CancelKeepsInv(w, s, credential, io);
    assert !IsEnrolledWith(t, w.sha(credential));
    FinalizationSucceedsIff(w, t, credential, now, later);
    RepeatedFinalizationChangesNothing(w, t, credential, now, later);
  }

  // ----- stored credentials are the ones the rows are about -----

  ghost predicate StoredMatches(w: World, s: State, reference: string, digest: string) {
    reference in s.store ==> w.sha(s.store[reference]) == digest
  }

  ghost predicate StoredCredentialsMatch(w: World, s: State) {
    && (forall p :: p in s.pending ==> StoredMatches(w, s, p.reference, p.credentialDigest))
    && (forall id :: id in s.followers ==>
          StoredMatches(w, s, s.followers[id].reference, s.followers[id].credentialDigest))
  }

  /** Every credential the state after names was named before, for the same digest, and no item was rewritten. */
  ghost predicate NamesNoMore(s: State, t: State) {
    && (forall p :: p in t.pending ==> p in s.pending)
    && (forall id :: id in t.followers ==> IsNamedBy(s, t.followers[id].reference, t.followers[id].credentialDigest))
    && (forall r :: r in t.store ==> r in s.store && t.store[r] == s.store[r])
  }

  ghost predicate IsNamedBy(s: State, reference: string, digest: string) {
    || (exists p :: p in s.pending && p.reference == reference && p.credentialDigest == digest)
    || (exists id :: id in s.followers && s.followers[id].reference == reference
           && s.followers[id].credentialDigest == digest)
  }

  lemma NamesNoMoreKeepsMatch(w: World, s: State, t: State)
    requires StoredCredentialsMatch(w, s) && NamesNoMore(s, t)
    ensures StoredCredentialsMatch(w, t)
  {
    forall id | id in t.followers
      ensures StoredMatches(w, t, t.followers[id].reference, t.followers[id].credentialDigest)
    {
      assert IsNamedBy(s, t.followers[id].reference, t.followers[id].credentialDigest);
    }
    forall p | p in t.pending ensures StoredMatches(w, t, p.reference, p.credentialDigest) {
      assert StoredMatches(w, s, p.reference, p.credentialDigest);
    }
  }

  lemma {:induction false} RecoveryNamesNoMore(s: State, rows: seq<Pending>, writes: seq<bool>, drops: seq<bool>)
    requires |writes| == |drops| == |rows|
    ensures NamesNoMore(s, Recover(s, rows, writes, drops).0)
    ensures Recover(s, rows, writes, drops).0.followers == s.followers
    decreases rows
  {
    if rows != [] && writes[0] {
      var t := s.(pending := DropCredential(s.pending, rows[0].credentialDigest),
                  store := RemoveItem(s.store, rows[0].reference, drops[0]));
      RecoveryNamesNoMore(t, rows[1..], writes[1..], drops[1..]);
    }
  }

  lemma FreshItemKeepsMatch(w: World, s: State, reference: string, credential: string)
    requires FreshReference(s, reference) && StoredCredentialsMatch(w, s)
    ensures StoredCredentialsMatch(w, s.(store := s.store[reference := credential]))
  {
    assert forall p :: p in s.pending ==> StoredMatches(w, s, p.reference, p.credentialDigest);
  }

  lemma NewRowKeepsMatch(w: World, s: State, row: Pending)
    requires StoredCredentialsMatch(w, s) && StoredMatches(w, s, row.reference, row.credentialDigest)
    ensures StoredCredentialsMatch(w, s.(pending := s.pending + [row]))
  {
    var t := s.(pending := s.pending + [row]);
    forall p | p in t.pending ensures StoredMatches(w, t, p.reference, p.credentialDigest) {
      assert p in s.pending || p == row;
      assert StoredMatches(w, s, p.reference, p.credentialDigest);
    }
    assert forall id :: id in s.followers ==>
        StoredMatches(w, s, s.followers[id].reference, s.followers[id].credentialDigest);
  }

  lemma RemovalNamesNoMore(s: State, digest: string, reference: string, ok: bool)
    ensures NamesNoMore(s, s.(pending := DropCredential(s.pending, digest),
                              store := RemoveItem(s.store, reference, ok)))
    ensures NamesNoMore(s, s.(store := RemoveItem(s.store, reference, ok)))
  {
    assert forall id :: id in s.followers ==>
        IsNamedBy(s, s.followers[id].reference, s.followers[id].credentialDigest);
  }

  lemma WithdrawKeepsMatch(w: World, s: State, row: Pending, io: EnrollIo)
    requires StoredCredentialsMatch(w, s) && Withdraw(s, row, io).Ok?
    ensures StoredCredentialsMatch(w, Withdraw(s, row, io).value)
  {
    var prior := FindCode(s.pending, row.codeDigest);
    if prior.Some? {
      RemovalNamesNoMore(s, prior.value.credentialDigest, prior.value.reference, io.dropOld);
      NamesNoMoreKeepsMatch(w, s, Withdraw(s, row, io).value);
    }
  }

  lemma EnrollKeepsMatch(w: World, s: State, q: Request, d: Draw, io: EnrollIo)
    requires Inv(s) && FreshReference(s, d.reference) && StoredCredentialsMatch(w, s)
    ensures StoredCredentialsMatch(w, Enroll(w, s, q, d, io).0)
  {
    var stored := s.(store := s.store[d.reference := d.credential]);
    FreshItemKeepsMatch(w, s, d.reference, d.credential);
    if Refusal(w, s, q, io, d.now).None? && io.list && Withdraw(stored, Proposed(w, s, q, d), io).Ok? {
      var row := Proposed(w, s, q, d);
      var ready := Withdraw(stored, row, io).value;
      assert Inv(stored);
      WithdrawKeepsInv(stored, row, io);
      WithdrawKeepsMatch(w, stored, row, io);
      NewRowKeepsMatch(w, ready, row);
      RemovalNamesNoMore(ready, "", d.reference, io.dropNew);
      NamesNoMoreKeepsMatch(w, ready, ready.(store := RemoveItem(ready.store, d.reference, io.dropNew)));
    }
  }

  lemma FinalizeNamesNoMore(w: World, s: State, credential: string, now: int, io: Io)
    ensures NamesNoMore(s, Finalize(w, s, credential, now, io).0)
  {
    var t, found := Finalize(w, s, credential, now, io).0, FindCredential(s.pending, w.sha(credential));
    forall id | id in t.followers ensures IsNamedBy(s, t.followers[id].reference, t.followers[id].credentialDigest) {
      if id in s.followers && t.followers[id] == s.followers[id] {
        assert s.followers[id].reference == t.followers[id].reference;
      } else {
        assert found.Some? && found.value.reference == t.followers[id].reference;
      }
    }
  }

  lemma FollowersNameNoMore(s: State, e: Event)
    requires e.Revoking? || e.Regrouping? || e.Inviting? || e.Uninviting?
    ensures forall w :: NamesNoMore(s, Step(w, s, e))
  {
    forall w ensures NamesNoMore(s, Step(w, s, e)) {
      var t := Step(w, s, e);
      forall id | id in t.followers
        ensures IsNamedBy(s, t.followers[id].reference, t.followers[id].credentialDigest)
      {
        assert s.followers[id].reference == t.followers[id].reference;
      }
    }
  }

  lemma StepKeepsMatch(w: World, s: State, e: Event)
    requires Inv(s) && Enabled(s, e) && StoredCredentialsMatch(w, s)
    ensures StoredCredentialsMatch(w, Step(w, s, e))
  {
    match e
    case Enrolling(q, d, io) => EnrollKeepsMatch(w, s, q, d, io);
    case Restarting(writes, drops) =>
      RecoveryNamesNoMore(s, s.pending, writes, drops);
      NamesNoMoreKeepsMatch(w, s, Step(w, s, e));
    case Finalizing(c, now, io) =>
      FinalizeNamesNoMore(w, s, c, now, io);
      NamesNoMoreKeepsMatch(w, s, Step(w, s, e));
    case Cancelling(c, io) =>
      CancelNamesNoMore(w, s, c, io);
      NamesNoMoreKeepsMatch(w, s, Step(w, s, e));
    case _ =>
      FollowersNameNoMore(s, e);
      NamesNoMoreKeepsMatch(w, s, Step(w, s, e));
  }

  lemma CancelNamesNoMore(w: World, s: State, credential: string, io: Io)
    ensures NamesNoMore(s, Cancel(w, s, credential, io).0)
  {
    var found := FindCredential(s.pending, w.sha(credential));
    RemovalNamesNoMore(s, w.sha(credential), if found.Some? then found.value.reference else "", found.Some? && io.drop);
    RemovalNamesNoMore(s, w.sha(credential), "", false);
  }

  /** Over every run from an empty repository, what is stored for a pending row or an
      enrolled follower is the credential with the digest on record. */
  lemma {:induction false} StoredCredentialsMatchEveryRun(w: World, states: seq<State>, events: seq<Event>, i: nat)
    requires IsRun(w, states, events) && i < |states|
    requires states[0].pending == [] && states[0].followers == map[]
    ensures StoredCredentialsMatch(w, states[i])
  {
    if i > 0 {
      StoredCredentialsMatchEveryRun(w, states, events, i - 1);
      LiveCredentialsSurviveEveryRun(w, states, events, i - 1);
      StepKeepsMatch(w, states[i - 1], events[i - 1]);
    }
  }

  // ----- where invitations, rows and followers come from -----

  /** The step created this invitation, unused, under a code nobody had. */
  ghost predicate Creates(s: State, e: Event, code: string, invitation: Invitation) {
    && e.Inviting? && e.codeDigest == code && e.invitation == invitation && e.io.write && !invitation.used
    && code !in s.invitations && s.source.Some?
  }

  ghost predicate WasCreated(states: seq<State>, events: seq<Event>, i: nat, code: string, invitation: Invitation)
    requires i <= |events| < |states|
  {
    exists l :: 0 <= l < i && Creates(states[l], events[l], code, invitation)
  }

  lemma StepInvitations(w: World, s: State, e: Event, code: string)
    requires Enabled(s, e) && code in Step(w, s, e).invitations
    ensures var invitation := Step(w, s, e).invitations[code];
            if code in s.invitations
            then invitation == s.invitations[code] || invitation == s.invitations[code].(used := true)
            else Creates(s, e, code, invitation)
  {
    if e.Restarting? {
      RecoverKeepsInvitations(s, s.pending, e.writes, e.drops);
    }
  }

  /** Every invitation was created as it is, except that it may have been spent since. */
  lemma {:induction false} InvitationHasOrigin(
      w: World, states: seq<State>, events: seq<Event>, i: nat, code: string)
    requires IsRun(w, states, events) && i < |states| && states[0].invitations == map[]
    requires code in states[i].invitations
    ensures WasCreated(states, events, i, code, states[i].invitations[code].(used := false))
  {
    StepInvitations(w, states[i - 1], events[i - 1], code);
    if code in states[i - 1].invitations {
      InvitationHasOrigin(w, states, events, i - 1, code);
    } else {
      assert Creates(states[i - 1], events[i - 1], code, states[i].invitations[code].(used := false));
    }
  }

  /** The step is an enrollment that proved an open invitation and left this row. */
  ghost predicate Prepares(w: World, s: State, e: Event, p: Pending) {
    && e.Enrolling? && ProvesInvitation(w, s, e.request, e.draw) && p == RowOf(w, s, e.request, e.draw)
  }

  ghost predicate WasPrepared(w: World, states: seq<State>, events: seq<Event>, i: nat, p: Pending)
    requires i <= |events| < |states|
  {
    exists m :: 0 <= m < i && Prepares(w, states[m], events[m], p)
  }

  /** The step is a finalization with the row's own credential, before its invitation expired. */
  ghost predicate Enrolls(w: World, s: State, e: Event, p: Pending) {
    && e.Finalizing? && w.sha(e.credential) == p.credentialDigest && p in s.pending && MayPromote(s, p, e.now)
  }

  /** Whose follower record this is: the name, groups, credential and reference of a
      pending row; groups given later may have replaced the row's. */
  ghost predicate IsFollowerOf(f: Follower, p: Pending) {
    f.name == p.name && f.credentialDigest == p.credentialDigest && f.reference == p.reference
  }

  ghost predicate WasEnrolled(
      w: World, states: seq<State>, events: seq<Event>, i: nat, id: string, f: Follower)
    requires i <= |events| < |states|
  {
    exists k, p :: 0 <= k < i && Enrolls(w, states[k], events[k], p) && p.follower == id && IsFollowerOf(f, p)
        && GroupsSince(events, k, i, id, p.groups, f.groups)
  }

  /** The groups are the enrolled ones, or those of a later regrouping. */
  ghost predicate GroupsSince(
      events: seq<Event>, k: nat, i: nat, id: string, enrolled: seq<string>, groups: seq<string>)
    requires k < i <= |events|
  {
    groups == enrolled
    || exists g :: k < g < i && events[g].Regrouping? && events[g].follower == id && events[g].groups == groups
  }

  lemma StepRows(w: World, s: State, e: Event, p: Pending)
    requires Inv(s) && Enabled(s, e) && p in Step(w, s, e).pending
    ensures p in s.pending || Prepares(w, s, e, p)
  {
    match e
    case Enrolling(q, d, io) => EnrolledRows(w, s, q, d, io, p);
    case Restarting(writes, drops) => RecoveryNamesNoMore(s, s.pending, writes, drops);
    case _ =>
  }

  lemma EnrolledRows(w: World, s: State, q: Request, d: Draw, io: EnrollIo, p: Pending)
    requires Inv(s) && FreshReference(s, d.reference) && p in Enroll(w, s, q, d, io).0.pending
    ensures p in s.pending || (ProvesInvitation(w, s, q, d) && p == RowOf(w, s, q, d))
  {
    NothingRefused(w, s, q, d, io);
    if Refusal(w, s, q, io, d.now).None? && p !in s.pending {
      var row, stored := RowOf(w, s, q, d), s.(store := s.store[d.reference := d.credential]);
      assert Inv(stored);
      WithdrawnOthers(stored, row, io);
      WithdrawKeepsInv(stored, row, io);
      ConsumesIff(w, Withdraw(stored, row, io).value, q, d, row);
    }
  }

  /** Over every run, a pending row was left by an enrollment that proved an open
      invitation, and it names that request's follower and that invitation's groups. */
  lemma {:induction false} RowHasOrigin(w: World, states: seq<State>, events: seq<Event>, i: nat, p: Pending)
    requires IsRun(w, states, events) && i < |states| && p in states[i].pending
    requires states[0].pending == [] && states[0].followers == map[]
    ensures WasPrepared(w, states, events, i, p)
  {
    LiveCredentialsSurviveEveryRun(w, states, events, i - 1);
    StepRows(w, states[i - 1], events[i - 1], p);
    if Prepares(w, states[i - 1], events[i - 1], p) {
      assert WasPrepared(w, states, events, i, p);
    } else {
      RowHasOrigin(w, states, events, i - 1, p);
      var m :| 0 <= m < i - 1 && Prepares(w, states[m], events[m], p);
    }
  }

  lemma StepFollowers(w: World, s: State, e: Event, id: string)
    requires Inv(s) && Enabled(s, e) && id in Step(w, s, e).followers
    ensures var f := Step(w, s, e).followers[id];
            || (id in s.followers && Continues(s.followers[id], f) && f.groups == s.followers[id].groups)
            || (id in s.followers && Continues(s.followers[id], f) && e.Regrouping? && e.follower == id
                && e.groups == f.groups)
            || exists p :: Enrolls(w, s, e, p) && p.follower == id && IsFollowerOf(f, p) && f.groups == p.groups
  {
    match e
    case Finalizing(c, now, io) => FinalizedFollowers(w, s, c, now, io, id);
    case Restarting(writes, drops) => RecoveryNamesNoMore(s, s.pending, writes, drops);
    case Enrolling(q, d, io) => EnrollKeepsFollowers(w, s, q, d, io);
    case _ =>
  }

  /** The record of the same enrollment, groups aside, and no longer in force than before. */
  ghost predicate Continues(f: Follower, g: Follower) {
    f.name == g.name && f.credentialDigest == g.credentialDigest && f.reference == g.reference
    && (f.revoked ==> g.revoked)
  }

  lemma EnrollKeepsFollowers(w: World, s: State, q: Request, d: Draw, io: EnrollIo)
    ensures Enroll(w, s, q, d, io).0.followers == s.followers
  {
  }

  lemma FinalizedFollowers(w: World, s: State, credential: string, now: int, io: Io, id: string)
    requires Inv(s) && id in Finalize(w, s, credential, now, io).0.followers
    ensures var f := Finalize(w, s, credential, now, io).0.followers[id];
            || (id in s.followers && f == s.followers[id])
            || exists p :: p in s.pending && p.credentialDigest == w.sha(credential) && MayPromote(s, p, now)
                    && p.follower == id && f == Follower(p.name, p.groups, false, p.credentialDigest, p.reference)
  {
    var found := FindCredential(s.pending, w.sha(credential));
    if found.Some? && Finalize(w, s, credential, now, io).1.None? {
      assert MayPromote(s, found.value, now);
    }
  }

  /** Over every run, a follower was enrolled by a finalization, in time, with the
      credential of a pending row, from which it has its name, its credential and, unless
      regrouped since, its groups. */
  lemma {:induction false} FollowerHasOrigin(w: World, states: seq<State>, events: seq<Event>, i: nat, id: string)
    requires IsRun(w, states, events) && i < |states| && id in states[i].followers
    requires states[0].pending == [] && states[0].followers == map[]
    ensures WasEnrolled(w, states, events, i, id, states[i].followers[id])
  {
    var s, e, f := states[i - 1], events[i - 1], states[i].followers[id];
    LiveCredentialsSurviveEveryRun(w, states, events, i - 1);
    StepFollowers(w, s, e, id);
    if p :| Enrolls(w, s, e, p) && p.follower == id && IsFollowerOf(f, p) && f.groups == p.groups {
      assert GroupsSince(events, i - 1, i, id, p.groups, f.groups);
    } else {
      FollowerHasOrigin(w, states, events, i - 1, id);
      var k, p :| 0 <= k < i - 1 && Enrolls(w, states[k], events[k], p) && p.follower == id
          && IsFollowerOf(s.followers[id], p)
          && GroupsSince(events, k, i - 1, id, p.groups, s.followers[id].groups);
      assert GroupsSince(events, k, i, id, p.groups, f.groups);
    }
  }

  /** The whole chain behind an enrolled follower: an invitation was created with some
      groups, a request proved it and was given a credential, and a finalization with
      that credential enrolled the request's follower. */
  lemma FollowerHasHistory(w: World, states: seq<State>, events: seq<Event>, i: nat, id: string)
    returns (l: nat, m: nat, k: nat)
    requires IsRun(w, states, events) && i < |states| && id in states[i].followers
    requires states[0].pending == [] && states[0].followers == map[] && states[0].invitations == map[]
    ensures l < m < k < i && events[l].Inviting? && events[m].Enrolling? && events[k].Finalizing?
    ensures var f, q, d, invitation := states[i].followers[id], events[m].request, events[m].draw,
                                       events[l].invitation;
            && events[l].codeDigest == w.sha(q.code) && invitation.nonceDigest == w.sha(q.nonce)
            && invitation.source == q.source && states[m].source == Some(q.source)
            && d.now < invitation.expiresAt && d.enrolledAt < invitation.expiresAt
            && w.sha(events[k].credential) == w.sha(d.credential) == f.credentialDigest && f.reference == d.reference
            && f.name == w.normalize(q.followerName) && id == w.followerId(q.source.fingerprint, f.name)
            && GroupsSince(events, k, i, id, invitation.groups, f.groups)
  {
    FollowerHasOrigin(w, states, events, i, id);
    var f := states[i].followers[id];
    var at, p :| 0 <= at < i && Enrolls(w, states[at], events[at], p) && p.follower == id && IsFollowerOf(f, p)
        && GroupsSince(events, at, i, id, p.groups, f.groups);
    k := at;
    RowHasOrigin(w, states, events, k, p);
    var prepared :| 0 <= prepared < k && Prepares(w, states[prepared], events[prepared], p);
    m := prepared;
    var code := w.sha(events[m].request.code);
    InvitationHasOrigin(w, states, events, m, code);
    var created :| 0 <= created < m
        && Creates(states[created], events[created], code, states[m].invitations[code].(used := false));
    l := created;
  }

  // ----- revocation -----

  /** A revocation revokes exactly that follower and removes its stored credential. */
  lemma RevocationWrites(s: State, follower: string, io: Io)
    ensures Revoke(s, follower, io).1.None? <==> io.lookup && io.write && follower in s.followers
    ensures Revoke(s, follower, io).1.None? && io.drop ==>
              var t, f := Revoke(s, follower, io).0, s.followers[follower];
              && t.followers
                 == s.followers[follower := Follower(f.name, f.groups, true, f.credentialDigest, f.reference)]
              && t.store == s.store - {f.reference} && t.pending == s.pending && t.invitations == s.invitations
    ensures Revoke(s, follower, io).1.Some? ==> Revoke(s, follower, io).0 == s
  {
  }

  /** A revoked follower is in force again only after a new enrollment was finalized. */
  lemma {:induction false} RevokedUntilEnrolledAgain(
      w: World, states: seq<State>, events: seq<Event>, i: nat, j: nat, id: string)
    requires IsRun(w, states, events) && i <= j < |states|
    requires states[0].pending == [] && states[0].followers == map[]
    requires id in states[i].followers && states[i].followers[id].revoked
    requires id in states[j].followers && !states[j].followers[id].revoked
    ensures exists k, p :: i <= k < j && Enrolls(w, states[k], events[k], p) && p.follower == id
  {
    LiveCredentialsSurviveEveryRun(w, states, events, j - 1);
    StepFollowers(w, states[j - 1], events[j - 1], id);
    if p :| Enrolls(w, states[j - 1], events[j - 1], p) && p.follower == id {
    } else {
      RevokedUntilEnrolledAgain(w, states, events, i, j - 1, id);
    }
  }

  // ----- invitations -----

  /** Creating an invitation adds exactly it, when its code and nonce are new; removing
      one removes exactly it, when nobody spent it; regrouping changes one follower's
      groups. Whatever is not done leaves everything as it was. */
  lemma InvitationWrites(s: State, code: string, invitation: Invitation, io: Io)
    ensures var t := Invite(s, code, invitation, io);
            if io.write && s.source.Some? && code !in s.invitations && !invitation.used
               && forall c :: c in s.invitations ==> s.invitations[c].nonceDigest != invitation.nonceDigest
            then t == State(s.source, s.invitations[code := invitation], s.pending, s.followers, s.store)
            else t == s
    ensures var t := RemoveInvitation(s, code, io);
            if io.write && code in s.invitations && !s.invitations[code].used
            then t.invitations.Keys == s.invitations.Keys - {code}
                 && (forall c :: c in t.invitations ==> t.invitations[c] == s.invitations[c])
                 && t == s.(invitations := t.invitations)
            else t == s
  {
  }

  lemma RegroupingWrites(s: State, follower: string, groups: seq<string>, io: Io)
    ensures var t := Regroup(s, follower, groups, io);
            if io.write && follower in s.followers
            then var f := s.followers[follower];
                 t == s.(followers := s.followers[follower :=
                     Follower(f.name, groups, f.revoked, f.credentialDigest, f.reference)])
            else t == s
  {
  }

  /** One invitation for each nonce, over every run. */
  lemma {:induction false} NonceNamesOneInvitation(
      w: World, states: seq<State>, events: seq<Event>, i: nat, c: string, d: string)
    requires IsRun(w, states, events) && i < |states| && states[0].invitations == map[]
    requires c in states[i].invitations && d in states[i].invitations
    requires states[i].invitations[c].nonceDigest == states[i].invitations[d].nonceDigest
    ensures c == d
  {
    var s, e := states[i - 1], events[i - 1];
    StepInvitations(w, s, e, c);
    StepInvitations(w, s, e, d);
    if c in s.invitations && d in s.invitations {
      NonceNamesOneInvitation(w, states, events, i - 1, c, d);
    }
  }
}
