/**
  Two-phase enrollment on the Source (src/enrollment/enrollment.layer.ts, over
  the transactions of src/state/state-repository.layer.ts): invitations, pending
  enrollments, follower records, and the credential store they name.

  `Enroll`, `Finalize`, ... are the effect of one whole request as functions;
  the class `SourceMachine` runs the program's own sequence of reads and writes
  and is proved to have exactly that effect. Every repository and store call may
  fail: an `Io` value says which calls succeed.
 */
module Enrollment {
  import opened Options

  /** Digests and name normalization are uninterpreted. */
  datatype World = World(
    sha: string -> string,
    normalize: string -> string,
    hasControl: string -> bool,
    followerId: (string, string) -> string)

  datatype Source = Source(fingerprint: string, tlsFingerprint: string)

  datatype Invitation = Invitation(
    nonceDigest: string, source: Source, groups: seq<string>, expiresAt: int, used: bool)

  /** A row of `pending_enrollments`. */
  datatype Pending = Pending(
    follower: string, codeDigest: string, credentialDigest: string, reference: string, name: string,
        groups: seq<string>)

  /** A row of `followers` joined with its row of `follower_credentials`. */
  datatype Follower = Follower(
    name: string, groups: seq<string>, revoked: bool, credentialDigest: string, reference: string)

  datatype State = State(
    source: Option<Source>,
    invitations: map<string, Invitation>,
    pending: seq<Pending>,
    followers: map<string, Follower>,
    store: map<string, string>)

  datatype Error =
    | SourceNotInitialized | SourceMismatch | FingerprintMismatch
    | InvitationNotFound | InvitationReplay | InvitationExpired
    | DuplicateFollower | FollowerNotFound | InvalidCredential | RevokedCredential
    | CredentialStorage | Configuration

  datatype Request = Request(code: string, nonce: string, source: Source, followerName: string)

  /** What a request draws: a random credential, the reference its stored copy
      gets (a random UUID), and the clock at the check and at the write. */
  datatype Draw = Draw(credential: string, reference: string, now: int, enrolledAt: int)

  /** Which calls of an enrollment succeed, in program order. */
  datatype EnrollIo = EnrollIo(
    find: bool, lookup: bool, storeNew: bool, list: bool, cancel: bool, dropOld: bool,
    consume: bool, dropNew: bool, revisions: bool)

  /** Which calls of the other requests succeed. */
  datatype Io = Io(list: bool, lookup: bool, write: bool, drop: bool)

  // ----- rows -----

  function FindCode(rows: seq<Pending>, code: string): (found: Option<Pending>)
    ensures found.Some? <==> exists p :: p in rows && p.codeDigest == code
    ensures found.Some? ==> found.value in rows && found.value.codeDigest == code
  {
    if rows == [] then None else if rows[0].codeDigest == code then Some(rows[0]) else FindCode(rows[1..], code)
  }

  function FindCredential(rows: seq<Pending>, digest: string): (found: Option<Pending>)
    ensures found.Some? <==> exists p :: p in rows && p.credentialDigest == digest
    ensures found.Some? ==> found.value in rows && found.value.credentialDigest == digest
  {
    if rows == [] then None
    else if rows[0].credentialDigest == digest then Some(rows[0])
    else FindCredential(rows[1..], digest)
  }

  /** DELETE FROM pending_enrollments WHERE credential_digest = digest. */
  function DropCredential(rows: seq<Pending>, digest: string): (kept: seq<Pending>)
    ensures forall p :: p in kept <==> p in rows && p.credentialDigest != digest
  {
    if rows == [] then []
    else
      var rest := DropCredential(rows[1..], digest);
      assert rows == [rows[0]] + rows[1..];
      if rows[0].credentialDigest == digest then rest else [rows[0]] + rest
  }

  function RemoveItem(store: map<string, string>, reference: string, ok: bool): map<string, string> {
    if ok then store - {reference} else store
  }

  // ----- enrollment -----

  /** Why an enrollment is refused before anything is stored. */
  function Refusal(w: World, s: State, q: Request, io: EnrollIo, now: int): Option<Error> {
    if s.source.None? then Some(SourceNotInitialized)
    else if q.source.fingerprint != s.source.value.fingerprint then Some(SourceMismatch)
    else if q.source.tlsFingerprint != s.source.value.tlsFingerprint then Some(FingerprintMismatch)
    else if !io.find then Some(Configuration)
    else if w.sha(q.code) !in s.invitations then Some(InvitationNotFound)
    else
      var invitation := s.invitations[w.sha(q.code)];
      var name := w.normalize(q.followerName);
      if invitation.used then Some(InvitationReplay)
      else if invitation.expiresAt <= now then Some(InvitationExpired)
      else if |name| == 0 || |name| > 128 || w.hasControl(name) then Some(Configuration)
      else if !io.lookup then Some(Configuration)
      else
        var id := w.followerId(s.source.value.fingerprint, name);
        if id in s.followers && !s.followers[id].revoked then Some(DuplicateFollower)
        else if !io.storeNew then Some(CredentialStorage)
        else None
  }

  /** The pending row an accepted enrollment proposes. */
  function Proposed(w: World, s: State, q: Request, d: Draw): Pending
    requires s.source.Some? && w.sha(q.code) in s.invitations
  {
    var name := w.normalize(q.followerName);
    Pending(w.followerId(s.source.value.fingerprint, name), w.sha(q.code), w.sha(d.credential), d.reference,
            name, s.invitations[w.sha(q.code)].groups)
  }

  /** `consumeEnrollmentInvitation`: why the transaction refuses, if it does. */
  function ConsumeRefusal(w: World, s: State, q: Request, d: Draw, row: Pending): Option<Error> {
    if row.codeDigest !in s.invitations then Some(InvitationNotFound)
    else
      var invitation := s.invitations[row.codeDigest];
      if invitation.used then Some(InvitationReplay)
      else if invitation.expiresAt <= d.enrolledAt then Some(InvitationExpired)
      else if invitation.source != q.source || invitation.nonceDigest != w.sha(q.nonce) then Some(SourceMismatch)
      else if row.follower in s.followers && !s.followers[row.follower].revoked then Some(DuplicateFollower)
      else if exists p | p in s.pending :: p.follower == row.follower then Some(DuplicateFollower)
      else if exists p | p in s.pending :: p.codeDigest == row.codeDigest then Some(InvitationReplay)
      else if exists id | id in s.followers :: s.followers[id].credentialDigest == row.credentialDigest
      then Some(DuplicateFollower)
      else if exists p | p in s.pending :: p.credentialDigest == row.credentialDigest || p.reference == row.reference
      then Some(Configuration)
      else None
  }

  /** A retry of the same invitation for the same name first withdraws its pending row. */
  function Withdraw(s: State, row: Pending, io: EnrollIo): Result<State, Error> {
    var prior := FindCode(s.pending, row.codeDigest);
    if prior.None? then Ok(s)
    else if prior.value.follower != row.follower then Err(InvitationReplay)
    else if !io.cancel then Err(Configuration)
    else Ok(s.(pending := DropCredential(s.pending, prior.value.credentialDigest),
               store := RemoveItem(s.store, prior.value.reference, io.dropOld)))
  }

  /** One `enrollFollower` request, from the state it finds to the state it leaves. */
  function Enroll(w: World, s: State, q: Request, d: Draw, io: EnrollIo): (State, Result<Pending, Error>) {
    var refusal := Refusal(w, s, q, io, d.now);
    if refusal.Some? then (s, Err(refusal.value))
    else
      var row := Proposed(w, s, q, d);
      var stored := s.(store := s.store[d.reference := d.credential]);
      if !io.list then (stored, Err(Configuration))
      else
        var withdrawn := Withdraw(stored, row, io);
        if withdrawn.Err? then (stored, Err(withdrawn.error))
        else
          var ready := withdrawn.value;
          var refused := if io.consume then ConsumeRefusal(w, ready, q, d, row) else Some(Configuration);
          if refused.Some? then (ready.(store := RemoveItem(ready.store, d.reference, io.dropNew)), Err(refused.value))
          else (ready.(pending := ready.pending + [row]), if io.revisions then Ok(row) else Err(Configuration))
  }

  // ----- finalization, cancellation, revocation, recovery -----

  function FinalizeRefusal(s: State, row: Pending, now: int): Option<Error> {
    if row.follower in s.followers && !s.followers[row.follower].revoked then Some(DuplicateFollower)
    else if row.codeDigest !in s.invitations || s.invitations[row.codeDigest].used then Some(InvitationReplay)
    else if s.invitations[row.codeDigest].expiresAt <= now then Some(InvitationExpired)
    else if exists id | id in s.followers ::
              id != row.follower
              && (s.followers[id].credentialDigest == row.credentialDigest
                  || s.followers[id].reference == row.reference)
    then Some(Configuration)
    else None
  }

  /** The transaction of `finalizeEnrollment` on an accepted pending row. */
  function Promote(s: State, row: Pending): State
    requires row.codeDigest in s.invitations
  {
    s.(followers := s.followers[row.follower :=
        Follower(row.name, row.groups, false, row.credentialDigest, row.reference)],
       invitations := s.invitations[row.codeDigest := s.invitations[row.codeDigest].(used := true)],
       pending := DropCredential(s.pending, row.credentialDigest))
  }

  /** The row of one follower and one credential. */
  function FindRow(rows: seq<Pending>, follower: string, digest: string): (found: Option<Pending>)
    ensures found.Some? ==>
              found.value in rows && found.value.follower == follower && found.value.credentialDigest == digest
    ensures found.None? ==> forall p :: p in rows ==> p.follower != follower || p.credentialDigest != digest
  {
    if rows == [] then None
    else if rows[0].follower == follower && rows[0].credentialDigest == digest then Some(rows[0])
    else FindRow(rows[1..], follower, digest)
  }

  /** The whole transaction of `finalizeEnrollment` for a row read earlier: it reads
      the row again, and when the row is gone it accepts only the follower it made. */
  function FinalizeTransaction(s: State, row: Pending, now: int): (State, Option<Error>) {
    var found := FindRow(s.pending, row.follower, row.credentialDigest);
    if found.None? then
      if row.follower in s.followers && !s.followers[row.follower].revoked
         && s.followers[row.follower].credentialDigest == row.credentialDigest
         && s.followers[row.follower].reference == row.reference
      then (s, None) else (s, Some(DuplicateFollower))
    else if found.value.reference != row.reference then (s, Some(DuplicateFollower))
    else
      var refusal := FinalizeRefusal(s, found.value, now);
      if refusal.Some? then (s, refusal) else (Promote(s, found.value), None)
  }

  function Finalize(w: World, s: State, credential: string, now: int, io: Io): (State, Option<Error>) {
    var digest := w.sha(credential);
    if !io.list then (s, Some(Configuration))
    else
      var found := FindCredential(s.pending, digest);
      if found.None? then
        if !io.lookup then (s, Some(Configuration))
        else if exists id | id in s.followers :: s.followers[id].credentialDigest == digest && !s.followers[id].revoked
        then (s, None) else (s, Some(InvalidCredential))
      else
        var row := found.value;
        var refusal := if io.write then FinalizeRefusal(s, row, now) else Some(Configuration);
        if refusal.Some? then (s, refusal)
        else
          var promoted := Promote(s, row);
          var retired := io.lookup && row.follower in s.followers
              && s.followers[row.follower].reference != row.reference;
          var previous := if retired then s.followers[row.follower].reference else "";
          (if retired then promoted.(store := RemoveItem(s.store, previous, io.drop)) else promoted, None)
  }

  function Cancel(w: World, s: State, credential: string, io: Io): (State, Option<Error>) {
    if !io.list || !io.write then (s, Some(Configuration))
    else
      var found := FindCredential(s.pending, w.sha(credential));
      (s.(pending := DropCredential(s.pending, w.sha(credential)),
          store := if found.Some? then RemoveItem(s.store, found.value.reference, io.drop) else s.store), None)
  }

  function Revoke(s: State, follower: string, io: Io): (State, Option<Error>) {
    if !io.lookup then (s, Some(Configuration))
    else if follower !in s.followers then (s, Some(FollowerNotFound))
    else if !io.write then (s, Some(Configuration))
    else (s.(followers := s.followers[follower := s.followers[follower].(revoked := true)],
             store := RemoveItem(s.store, s.followers[follower].reference, io.drop)), None)
  }

  /** Recovery at server start cancels the listed rows one by one; `writes` and
      `drops` say which cancellations and removals succeed. */
  function Recover(s: State, rows: seq<Pending>, writes: seq<bool>, drops: seq<bool>): (State, Option<Error>)
    requires |writes| == |drops| == |rows|
    decreases rows
  {
    if rows == [] then (s, None)
    else if !writes[0] then (s, Some(Configuration))
    else
      Recover(s.(pending := DropCredential(s.pending, rows[0].credentialDigest),
                 store := RemoveItem(s.store, rows[0].reference, drops[0])), rows[1..], writes[1..], drops[1..])
  }

  function Invite(s: State, codeDigest: string, invitation: Invitation, io: Io): State {
    if io.write && s.source.Some? && codeDigest !in s.invitations && !invitation.used
       && !(exists c | c in s.invitations :: s.invitations[c].nonceDigest == invitation.nonceDigest)
    then s.(invitations := s.invitations[codeDigest := invitation]) else s
  }

  function RemoveInvitation(s: State, codeDigest: string, io: Io): State {
    if io.write && codeDigest in s.invitations && !s.invitations[codeDigest].used
    then s.(invitations := s.invitations - {codeDigest}) else s
  }

  function Regroup(s: State, follower: string, groups: seq<string>, io: Io): State {
    if io.write && follower in s.followers
    then s.(followers := s.followers[follower := s.followers[follower].(groups := groups)]) else s
  }

  // ----- the invariant -----

  /** The table's primary key and unique columns. */
  ghost predicate RowsAreDistinct(rows: seq<Pending>) {
    forall i, j :: 0 <= i < j < |rows| ==>
      && rows[i].follower != rows[j].follower
      && rows[i].codeDigest != rows[j].codeDigest
      && rows[i].credentialDigest != rows[j].credentialDigest
      && rows[i].reference != rows[j].reference
  }

  ghost predicate ReferencesAreDistinct(s: State) {
    && (forall p, id :: p in s.pending && id in s.followers ==> p.reference != s.followers[id].reference)
    && (forall a, b :: a in s.followers && b in s.followers && a != b ==>
        s.followers[a].reference != s.followers[b].reference)
  }

  /** Each pending row and each unrevoked follower names a stored credential. */
  ghost predicate LiveCredentialsAreStored(s: State) {
    && (forall p :: p in s.pending ==> p.reference in s.store)
    && (forall id :: id in s.followers && !s.followers[id].revoked ==> s.followers[id].reference in s.store)
  }

  /** A pending identity is not enrolled, and its invitation is not spent. */
  ghost predicate PendingIsOpen(s: State) {
    && (forall p :: p in s.pending && p.follower in s.followers ==> s.followers[p.follower].revoked)
    && (forall p :: p in s.pending && p.codeDigest in s.invitations ==> !s.invitations[p.codeDigest].used)
  }

  ghost predicate Inv(s: State) {
    RowsAreDistinct(s.pending) && ReferencesAreDistinct(s) && LiveCredentialsAreStored(s) && PendingIsOpen(s)
  }

  /** A random reference never named before. */
  ghost predicate FreshReference(s: State, reference: string) {
    && reference !in s.store
    && (forall p :: p in s.pending ==> p.reference != reference)
    && (forall id :: id in s.followers ==> s.followers[id].reference != reference)
  }

  lemma {:induction false} DropKeepsDistinct(rows: seq<Pending>, digest: string)
    requires RowsAreDistinct(rows)
    ensures RowsAreDistinct(DropCredential(rows, digest))
  {
    if rows != [] {
      var rest, kept := rows[1..], DropCredential(rows[1..], digest);
      assert forall i :: 0 <= i < |rest| ==> rest[i] == rows[i + 1];
      DropKeepsDistinct(rest, digest);
      forall i | 0 <= i < |kept|
        ensures exists j :: 0 < j < |rows| && kept[i] == rows[j]
      {
        assert kept[i] in kept;
        var j :| 0 <= j < |rest| && rest[j] == kept[i];
        assert rows[j + 1] == kept[i];
      }
    }
  }

  lemma DistinctRows(rows: seq<Pending>, p: Pending, q: Pending)
    requires RowsAreDistinct(rows) && p in rows && q in rows && p != q
    ensures p.follower != q.follower && p.codeDigest != q.codeDigest
    ensures p.credentialDigest != q.credentialDigest && p.reference != q.reference
  {
    var i :| 0 <= i < |rows| && rows[i] == p;
    var j :| 0 <= j < |rows| && rows[j] == q;
    assert i < j || j < i;
  }

  /** Cancelling a row and removing the credential it names touches no other live credential. */
  lemma DropRowKeepsInv(s: State, row: Pending, ok: bool)
    requires Inv(s) && row in s.pending
    ensures Inv(s.(pending := DropCredential(s.pending, row.credentialDigest),
        store := RemoveItem(s.store, row.reference, ok)))
  {
    DropKeepsDistinct(s.pending, row.credentialDigest);
    forall p | p in s.pending && p.credentialDigest != row.credentialDigest
      ensures p.reference != row.reference
    {
      DistinctRows(s.pending, p, row);
    }
  }

  lemma WithdrawKeepsInv(s: State, row: Pending, io: EnrollIo)
    requires Inv(s) && Withdraw(s, row, io).Ok?
    requires FreshReference(s.(store := s.store - {row.reference}), row.reference) && row.reference in s.store
    ensures var t := Withdraw(s, row, io).value;
              Inv(t) && row.reference in t.store && t.store[row.reference] == s.store[row.reference]
              && FreshReference(t.(store := t.store - {row.reference}), row.reference)
              && t.followers == s.followers && t.invitations == s.invitations && t.source == s.source
  {
    var prior := FindCode(s.pending, row.codeDigest);
    if prior.Some? {
      DropRowKeepsInv(s, prior.value, io.dropOld);
    }
  }

  /** Inserting an accepted row keeps the invariant. */
  lemma InsertKeepsInv(w: World, s: State, q: Request, d: Draw, row: Pending)
    requires Inv(s) && ConsumeRefusal(w, s, q, d, row).None? && row.reference in s.store
    requires FreshReference(s.(store := s.store - {row.reference}), row.reference)
    ensures Inv(s.(pending := s.pending + [row]))
  {
    var t := s.(pending := s.pending + [row]);
    assert forall p :: p in t.pending <==> p in s.pending || p == row;
    assert RowsAreDistinct(t.pending) by {
      assert forall p :: p in s.pending ==> p.follower != row.follower && p.codeDigest != row.codeDigest;
      assert forall p :: p in s.pending ==> p.credentialDigest != row.credentialDigest && p.reference != row.reference;
    }
  }

  lemma EnrollKeepsInv(w: World, s: State, q: Request, d: Draw, io: EnrollIo)
    requires Inv(s) && FreshReference(s, d.reference)
    ensures Inv(Enroll(w, s, q, d, io).0)
  {
    if Refusal(w, s, q, io, d.now).None? {
      var row := Proposed(w, s, q, d);
      var stored := s.(store := s.store[d.reference := d.credential]);
      assert Inv(stored);
      if io.list && Withdraw(stored, row, io).Ok? {
        WithdrawKeepsInv(stored, row, io);
        var ready := Withdraw(stored, row, io).value;
        if io.consume && ConsumeRefusal(w, ready, q, d, row).None? {
          InsertKeepsInv(w, ready, q, d, row);
        }
      }
    }
  }

  ghost predicate Live(s: State, reference: string) {
    || (exists p :: p in s.pending && p.reference == reference)
    || (exists id :: id in s.followers && !s.followers[id].revoked && s.followers[id].reference == reference)
  }

  lemma RetireKeepsInv(s: State, reference: string, ok: bool)
    requires Inv(s) && !Live(s, reference)
    ensures Inv(s.(store := RemoveItem(s.store, reference, ok)))
  {
  }

  lemma PromoteKeepsInv(s: State, row: Pending, now: int)
    requires Inv(s) && row in s.pending && FinalizeRefusal(s, row, now).None?
    ensures Inv(Promote(s, row))
  {
    var t := Promote(s, row);
    DropKeepsDistinct(s.pending, row.credentialDigest);
    forall p | p in t.pending
      ensures p in s.pending && p.reference != row.reference && p.follower != row.follower
      ensures p.codeDigest != row.codeDigest
    {
      DistinctRows(s.pending, p, row);
    }
  }

  /** The transaction keeps the invariant however old the row it was given is. */
  lemma LateFinalizeKeepsInv(s: State, row: Pending, now: int)
    requires Inv(s)
    ensures Inv(FinalizeTransaction(s, row, now).0)
  {
    var found := FindRow(s.pending, row.follower, row.credentialDigest);
    if found.Some? && FinalizeRefusal(s, found.value, now).None? {
      PromoteKeepsInv(s, found.value, now);
    }
  }

  /** Given the row the request has just listed, it promotes that row or refuses. */
  lemma TransactionOfListedRow(s: State, row: Pending, now: int)
    requires FindCredential(s.pending, row.credentialDigest) == Some(row)
    ensures FinalizeTransaction(s, row, now)
         == var refusal := FinalizeRefusal(s, row, now); if refusal.Some? then (s, refusal) else (Promote(s, row), None)
  {
    ListedRowIsFound(s.pending, row);
  }

  lemma {:induction false} ListedRowIsFound(rows: seq<Pending>, row: Pending)
    requires FindCredential(rows, row.credentialDigest) == Some(row)
    ensures FindRow(rows, row.follower, row.credentialDigest) == Some(row)
  {
    if rows[0].credentialDigest != row.credentialDigest {
      ListedRowIsFound(rows[1..], row);
    }
  }

  lemma FinalizeKeepsInv(w: World, s: State, credential: string, now: int, io: Io)
    requires Inv(s)
    ensures Inv(Finalize(w, s, credential, now, io).0)
  {
    var found := FindCredential(s.pending, w.sha(credential));
    if io.list && found.Some? && io.write && FinalizeRefusal(s, found.value, now).None? {
      var row, t := found.value, Promote(s, found.value);
      PromoteKeepsInv(s, row, now);
      if io.lookup && row.follower in s.followers && s.followers[row.follower].reference != row.reference {
        var previous := s.followers[row.follower].reference;
        assert !Live(t, previous);
        RetireKeepsInv(t, previous, io.drop);
      }
    }
  }

  lemma RevokeKeepsInv(s: State, follower: string, io: Io)
    requires Inv(s)
    ensures Inv(Revoke(s, follower, io).0)
  {
    if io.lookup && follower in s.followers && io.write {
      var t := s.(followers := s.followers[follower := s.followers[follower].(revoked := true)]);
      RetireKeepsInv(t, s.followers[follower].reference, io.drop);
    }
  }

  lemma CancelKeepsInv(w: World, s: State, credential: string, io: Io)
    requires Inv(s)
    ensures Inv(Cancel(w, s, credential, io).0)
  {
    var found := FindCredential(s.pending, w.sha(credential));
    if found.Some? {
      DropRowKeepsInv(s, found.value, io.drop);
    } else {
      DropKeepsDistinct(s.pending, w.sha(credential));
    }
  }

  /** The rows still to recover are still pending, and still distinct. */
  lemma RestStillPending(s: State, rows: seq<Pending>)
    requires rows != [] && RowsAreDistinct(rows) && forall p :: p in rows ==> p in s.pending
    ensures RowsAreDistinct(rows[1..])
    ensures forall p :: p in rows[1..] ==> p in DropCredential(s.pending, rows[0].credentialDigest)
  {
    var rest := rows[1..];
    assert forall i :: 0 <= i < |rest| ==> rest[i] == rows[i + 1];
    forall p | p in rest
      ensures p in rows && p.credentialDigest != rows[0].credentialDigest
    {
      var j :| 0 <= j < |rest| && rest[j] == p;
      assert rows[j + 1] == p;
    }
  }

  lemma {:induction false} RecoverKeepsInv(s: State, rows: seq<Pending>, writes: seq<bool>, drops: seq<bool>)
    requires Inv(s) && |writes| == |drops| == |rows| && RowsAreDistinct(rows)
    requires forall p :: p in rows ==> p in s.pending
    ensures Inv(Recover(s, rows, writes, drops).0)
    decreases rows
  {
    if rows != [] && writes[0] {
      DropRowKeepsInv(s, rows[0], drops[0]);
      RestStillPending(s, rows);
      var t := s.(pending := DropCredential(s.pending, rows[0].credentialDigest),
                  store := RemoveItem(s.store, rows[0].reference, drops[0]));
      RecoverKeepsInv(t, rows[1..], writes[1..], drops[1..]);
    }
  }

  lemma {:induction false} RecoverRemoves(s: State, rows: seq<Pending>, writes: seq<bool>, drops: seq<bool>, p: Pending)
    requires |writes| == |drops| == |rows| && Recover(s, rows, writes, drops).1.None?
    ensures p in Recover(s, rows, writes, drops).0.pending ==> p in s.pending && p !in rows
    decreases rows
  {
    if rows != [] {
      var t := s.(pending := DropCredential(s.pending, rows[0].credentialDigest),
                  store := RemoveItem(s.store, rows[0].reference, drops[0]));
      RecoverRemoves(t, rows[1..], writes[1..], drops[1..], p);
      assert rows == [rows[0]] + rows[1..];
    }
  }

  /** A completed restart leaves no pending enrollment. */
  lemma CompletedRestartLeavesNonePending(s: State, writes: seq<bool>, drops: seq<bool>)
    requires |writes| == |drops| == |s.pending| && Recover(s, s.pending, writes, drops).1.None?
    ensures Recover(s, s.pending, writes, drops).0.pending == []
  {
    var t := Recover(s, s.pending, writes, drops).0;
    if t.pending != [] {
      RecoverRemoves(s, s.pending, writes, drops, t.pending[0]);
    }
  }

  // ----- every run -----

  datatype Event =
    | Inviting(codeDigest: string, invitation: Invitation, io: Io)
    | Uninviting(codeDigest: string, io: Io)
    | Enrolling(request: Request, draw: Draw, enrollIo: EnrollIo)
    | Finalizing(credential: string, now: int, io: Io)
    | Cancelling(credential: string, io: Io)
    | Revoking(follower: string, io: Io)
    | Regrouping(follower: string, groups: seq<string>, io: Io)
    | Restarting(writes: seq<bool>, drops: seq<bool>)

  ghost predicate Enabled(s: State, e: Event) {
    match e
    case Enrolling(_, d, _) => FreshReference(s, d.reference)
    case Restarting(writes, drops) => |writes| == |drops| == |s.pending|
    case _ => true
  }

  ghost function Step(w: World, s: State, e: Event): State
    requires Enabled(s, e)
  {
    match e
    case Inviting(c, invitation, io) => Invite(s, c, invitation, io)
    case Uninviting(c, io) => RemoveInvitation(s, c, io)
    case Enrolling(q, d, io) => Enroll(w, s, q, d, io).0
    case Finalizing(c, now, io) => Finalize(w, s, c, now, io).0
    case Cancelling(c, io) => Cancel(w, s, c, io).0
    case Revoking(f, io) => Revoke(s, f, io).0
    case Regrouping(f, groups, io) => Regroup(s, f, groups, io)
    case Restarting(writes, drops) => Recover(s, s.pending, writes, drops).0
  }

  lemma StepKeepsInv(w: World, s: State, e: Event)
    requires Inv(s) && Enabled(s, e)
    ensures Inv(Step(w, s, e))
  {
    match e
    case Inviting(c, invitation, io) => InviteKeepsInv(s, c, invitation, io);
    case Uninviting(c, io) =>
    case Enrolling(q, d, io) => EnrollKeepsInv(w, s, q, d, io);
    case Finalizing(c, now, io) => FinalizeKeepsInv(w, s, c, now, io);
    case Cancelling(c, io) => CancelKeepsInv(w, s, c, io);
    case Revoking(f, io) => RevokeKeepsInv(s, f, io);
    case Regrouping(f, groups, io) =>
    case Restarting(writes, drops) => RecoverKeepsInv(s, s.pending, writes, drops);
  }

  lemma InviteKeepsInv(s: State, codeDigest: string, invitation: Invitation, io: Io)
    requires Inv(s)
    ensures Inv(Invite(s, codeDigest, invitation, io))
  {
  }

  ghost predicate IsRun(w: World, states: seq<State>, events: seq<Event>) {
    && |states| == |events| + 1
    && forall i :: 0 <= i < |events| ==> Enabled(states[i], events[i]) && states[i + 1] == Step(w, states[i], events[i])
  }

  /** Over every run from an empty repository: each pending row and each
      unrevoked follower names a stored credential, an invitation code has at most
      one pending row, and none once it is spent. */
  lemma {:induction false} LiveCredentialsSurviveEveryRun(w: World, states: seq<State>, events: seq<Event>, i: nat)
    requires IsRun(w, states, events) && i < |states|
    requires states[0].pending == [] && states[0].followers == map[]
    ensures Inv(states[i])
    ensures forall reference :: Live(states[i], reference) ==> reference in states[i].store
    ensures forall p, q :: p in states[i].pending && q in states[i].pending && p.codeDigest == q.codeDigest ==> p == q
    ensures forall p :: p in states[i].pending ==> multiset(states[i].pending)[p] == 1
    ensures forall p :: p in states[i].pending && p.codeDigest in states[i].invitations ==>
              !states[i].invitations[p.codeDigest].used
  {
    if i > 0 {
      LiveCredentialsSurviveEveryRun(w, states, events, i - 1);
      StepKeepsInv(w, states[i - 1], events[i - 1]);
    }
    forall p, q | p in states[i].pending && q in states[i].pending && p.codeDigest == q.codeDigest ensures p == q {
      if p != q {
        DistinctRows(states[i].pending, p, q);
        assert false;
      }
    }
    forall p | p in states[i].pending ensures multiset(states[i].pending)[p] == 1 {
      OccursOnce(states[i].pending, p);
    }
  }

  lemma {:induction false} OccursOnce(rows: seq<Pending>, p: Pending)
    requires RowsAreDistinct(rows) && p in rows
    ensures multiset(rows)[p] == 1
  {
    var rest := rows[1..];
    assert rows == [rows[0]] + rest;
    assert forall i :: 0 <= i < |rest| ==> rest[i] == rows[i + 1];
    if rows[0] == p {
      assert p !in rest;
    } else {
      OccursOnce(rest, p);
    }
  }

  // ----- an invitation enrolls once -----

  /** The step turns a pending row of invitation `code` into an enrolled follower. */
  ghost predicate Promotes(w: World, s: State, e: Event, code: string) {
    && e.Finalizing? && Finalize(w, s, e.credential, e.now, e.io).1.None?
    && var found := FindCredential(s.pending, w.sha(e.credential)); found.Some? && found.value.codeDigest == code
  }

  ghost predicate Spent(s: State, code: string) {
    code in s.invitations && s.invitations[code].used
  }

  lemma SpentStaysSpent(w: World, s: State, e: Event, code: string)
    requires Enabled(s, e) && Spent(s, code)
    ensures Spent(Step(w, s, e), code) && !Promotes(w, s, e, code)
  {
    if e.Restarting? {
      RecoverKeepsInvitations(s, s.pending, e.writes, e.drops);
    }
  }

  lemma {:induction false} RecoverKeepsInvitations(s: State, rows: seq<Pending>, writes: seq<bool>, drops: seq<bool>)
    requires |writes| == |drops| == |rows|
    ensures Recover(s, rows, writes, drops).0.invitations == s.invitations
    decreases rows
  {
    if rows != [] && writes[0] {
      RecoverKeepsInvitations(s.(pending := DropCredential(s.pending, rows[0].credentialDigest),
                                 store := RemoveItem(s.store, rows[0].reference, drops[0])), rows[1..], writes[1..],
                                     drops[1..]);
    }
  }

  lemma {:induction false} SpentFrom(w: World, states: seq<State>, events: seq<Event>, code: string, i: nat, j: nat)
    requires IsRun(w, states, events) && i <= j < |states| && Spent(states[i], code)
    ensures Spent(states[j], code)
  {
    if i < j {
      SpentFrom(w, states, events, code, i, j - 1);
      SpentStaysSpent(w, states[j - 1], events[j - 1], code);
    }
  }

  /** In any run, an invitation code turns at most one pending row into a follower. */
  lemma InvitationEnrollsOnce(w: World, states: seq<State>, events: seq<Event>, code: string, i: nat, j: nat)
    requires IsRun(w, states, events) && i < |events| && j < |events|
    requires Promotes(w, states[i], events[i], code) && Promotes(w, states[j], events[j], code)
    ensures i == j
  {
    if i < j {
      PromotedOnlyOnce(w, states, events, code, i, j);
    } else if j < i {
      PromotedOnlyOnce(w, states, events, code, j, i);
    }
  }

  lemma PromotedOnlyOnce(w: World, states: seq<State>, events: seq<Event>, code: string, i: nat, j: nat)
    requires IsRun(w, states, events) && i < j < |events| && Promotes(w, states[i], events[i], code)
    ensures !Promotes(w, states[j], events[j], code)
  {
    assert Spent(states[i + 1], code);
    SpentFrom(w, states, events, code, i + 1, j);
    SpentStaysSpent(w, states[j], events[j], code);
  }

  // ----- one enrollment, end to end -----

  lemma DropAppended(rows: seq<Pending>, row: Pending)
    requires forall p :: p in rows ==> p.credentialDigest != row.credentialDigest
    ensures FindCredential(rows + [row], row.credentialDigest) == Some(row)
  {
    var found := FindCredential(rows + [row], row.credentialDigest);
    assert row in rows + [row];
    assert found.value in rows || found.value == row;
  }

  /** A prepared enrollment that the follower finalizes before the invitation
      expires enrolls exactly the prepared name, groups and credential. */
  lemma PreparedEnrollmentFinalizes(w: World, s: State, q: Request, d: Draw, io: EnrollIo, now: int, later: Io)
    requires Inv(s) && FreshReference(s, d.reference) && Enroll(w, s, q, d, io).1.Ok?
    requires later.list && later.lookup && later.write && now < s.invitations[w.sha(q.code)].expiresAt
    ensures var prepared := Enroll(w, s, q, d, io);
              var row, done := prepared.1.value, Finalize(w, prepared.0, d.credential, now, later);
              done.1.None? && done.0.followers[row.follower]
                  == Follower(row.name, row.groups, false, row.credentialDigest, d.reference)
              && d.reference in done.0.store && done.0.store[d.reference] == d.credential
              && Spent(done.0, w.sha(q.code)) && row !in done.0.pending
  {
    var prepared := Enroll(w, s, q, d, io).0;
    var row := Proposed(w, s, q, d);
    var stored := s.(store := s.store[d.reference := d.credential]);
    assert Inv(stored);
    WithdrawKeepsInv(stored, row, io);
    var ready := Withdraw(stored, row, io).value;
    assert prepared == ready.(pending := ready.pending + [row]);
    DropAppended(ready.pending, row);
    assert FindCredential(prepared.pending, w.sha(d.credential)) == Some(row);
  }

  /** Re-preparing the same invitation for the same name replaces its pending row
      and credential instead of refusing: a lost response never blocks a retry. */
  lemma RetryReplacesPending(w: World, s: State, q: Request, d: Draw, io: EnrollIo, prior: Pending)
    requires Inv(s) && FreshReference(s, d.reference) && Refusal(w, s, q, io, d.now).None?
    requires prior in s.pending && prior.codeDigest == w.sha(q.code) && prior.follower == Proposed(w, s, q, d).follower
    requires d.enrolledAt < s.invitations[w.sha(q.code)].expiresAt
    requires s.invitations[w.sha(q.code)].source == q.source
    requires s.invitations[w.sha(q.code)].nonceDigest == w.sha(q.nonce)
    requires forall p :: p in s.pending ==> p.credentialDigest != w.sha(d.credential)
    requires forall id :: id in s.followers ==> s.followers[id].credentialDigest != w.sha(d.credential)
    requires io.list && io.cancel && io.dropOld && io.consume
    ensures var t, row := Enroll(w, s, q, d, io).0, Proposed(w, s, q, d);
              t.pending == DropCredential(s.pending, prior.credentialDigest) + [row]
              && prior !in t.pending && prior.reference !in t.store && t.store[d.reference] == d.credential
  {
    var row := Proposed(w, s, q, d);
    var stored := s.(store := s.store[d.reference := d.credential]);
    var found := FindCode(s.pending, row.codeDigest).value;
    if found != prior {
      DistinctRows(s.pending, found, prior);
      assert false;
    }
    forall p | p in DropCredential(s.pending, prior.credentialDigest)
      ensures p.follower != row.follower && p.codeDigest != row.codeDigest
    {
      DistinctRows(s.pending, p, prior);
    }
    assert Withdraw(stored, row, io).Ok?;
  }

  // ----- what is left in the store -----

  /** When an enrollment fails, its new credential stays stored under no row
      exactly when it was stored and then the pending rows could not be listed,
      the code was pending for another name, the old row could not be cancelled,
      or the transaction refused and the removal failed too. */
  lemma FailedEnrollmentLeavesCredentialIff(w: World, s: State, q: Request, d: Draw, io: EnrollIo)
    requires Inv(s) && FreshReference(s, d.reference) && Enroll(w, s, q, d, io).1.Err?
    ensures var t := Enroll(w, s, q, d, io).0;
              (d.reference in t.store && !Live(t, d.reference))
              <==> (Refusal(w, s, q, io, d.now).None?
                    && var row := Proposed(w, s, q, d);
                       var stored := s.(store := s.store[d.reference := d.credential]);
                       !io.list || Withdraw(stored, row, io).Err?
                       || (!io.dropNew && (!io.consume
                           || ConsumeRefusal(w, Withdraw(stored, row, io).value, q, d, row).Some?)))
  {
    if Refusal(w, s, q, io, d.now).None? {
      var row := Proposed(w, s, q, d);
      var stored := s.(store := s.store[d.reference := d.credential]);
      if io.list && Withdraw(stored, row, io).Ok? {
        WithdrawKeepsInv(stored, row, io);
        var ready := Withdraw(stored, row, io).value;
        if io.consume && ConsumeRefusal(w, ready, q, d, row).None? {
          assert row in ready.pending + [row];
        }
      }
    }
  }

  // ----- why each request must be atomic -----

  /** The writes of `cancelPendingEnrollment` for a row read at an earlier time. */
  ghost function CancelAfterRead(s: State, row: Pending, ok: bool): State {
    s.(pending := DropCredential(s.pending, row.credentialDigest), store := RemoveItem(s.store, row.reference, ok))
  }

  /** Late writes are harmless exactly when no unrevoked follower took over the row's credential. */
  lemma LateCancelIsSafeIff(s: State, row: Pending)
    requires Inv(s) && forall p :: p in s.pending && p.reference == row.reference ==> p == row
    ensures LiveCredentialsAreStored(CancelAfterRead(s, row, true))
      <==> forall id :: id in s.followers && !s.followers[id].revoked ==> s.followers[id].reference != row.reference
  {
  }

  /** A finalization between the read and the writes of a cancellation leaves an
      enrolled follower whose stored credential is gone. */
  lemma FinalizeBetweenReadAndCancel(w: World, s: State, row: Pending, credential: string, now: int, io: Io)
    requires Inv(s) && row in s.pending && w.sha(credential) == row.credentialDigest
    requires Finalize(w, s, credential, now, io).1.None?
    ensures !LiveCredentialsAreStored(CancelAfterRead(Finalize(w, s, credential, now, io).0, row, true))
  {
    var t := Finalize(w, s, credential, now, io).0;
    var found := FindCredential(s.pending, w.sha(credential)).value;
    if found != row {
      DistinctRows(s.pending, found, row);
      assert false;
    }
    assert row.follower in t.followers && t.followers[row.follower].reference == row.reference;
  }

  /** Three requests list a row and later make exactly these writes for it: a
      cancellation, a retry of the same invitation, and recovery at server start. */
  lemma LateWritesOfCancel(w: World, s: State, credential: string, io: Io)
    requires Cancel(w, s, credential, io).1.None? && FindCredential(s.pending, w.sha(credential)).Some?
    ensures Cancel(w, s, credential, io).0
         == CancelAfterRead(s, FindCredential(s.pending, w.sha(credential)).value, io.drop)
  {
  }

  lemma LateWritesOfRetry(s: State, row: Pending, io: EnrollIo)
    requires Withdraw(s, row, io).Ok? && FindCode(s.pending, row.codeDigest).Some?
    ensures Withdraw(s, row, io).value == CancelAfterRead(s, FindCode(s.pending, row.codeDigest).value, io.dropOld)
  {
  }

  lemma LateWritesOfRecovery(s: State, rows: seq<Pending>, writes: seq<bool>, drops: seq<bool>)
    requires |writes| == |drops| == |rows| > 0 && writes[0]
    ensures Recover(s, rows, writes, drops)
         == Recover(CancelAfterRead(s, rows[0], drops[0]), rows[1..], writes[1..], drops[1..])
  {
  }

  /** What is left of a retry once it has listed `prior`: withdraw that row, then consume. */
  ghost function RetryAfterRead(w: World, s: State, q: Request, d: Draw, prior: Pending, row: Pending, io: EnrollIo)
    : (State, Option<Error>)
  {
    var ready := CancelAfterRead(s, prior, io.dropOld);
    var refused := if io.consume then ConsumeRefusal(w, ready, q, d, row) else Some(Configuration);
    if refused.Some? then (ready.(store := RemoveItem(ready.store, d.reference, io.dropNew)), refused)
    else (ready.(pending := ready.pending + [row]), None)
  }

  /** A finalization of `prior` in between makes the retry fail, and the retry
      still removes the credential of the follower just enrolled. */
  lemma FinalizeBetweenReadAndRetry(
      w: World, s: State, q: Request, d: Draw, prior: Pending, row: Pending, credential: string, now: int, io: Io,
      retry: EnrollIo)
    requires Inv(s) && prior in s.pending && w.sha(credential) == prior.credentialDigest
    requires prior.codeDigest == row.codeDigest
    requires Finalize(w, s, credential, now, io).1.None? && retry.dropOld
    ensures var t, failure := RetryAfterRead(w, Finalize(w, s, credential, now, io).0, q, d, prior, row, retry).0,
                              RetryAfterRead(w, Finalize(w, s, credential, now, io).0, q, d, prior, row, retry).1;
            failure.Some? && !LiveCredentialsAreStored(t)
  {
    var t := Finalize(w, s, credential, now, io).0;
    var found := FindCredential(s.pending, w.sha(credential)).value;
    if found != prior {
      DistinctRows(s.pending, found, prior);
      assert false;
    }
    assert Spent(t, row.codeDigest);
    assert prior.follower in t.followers && t.followers[prior.follower].reference == prior.reference;
    assert prior.follower in RetryAfterRead(w, t, q, d, prior, row, retry).0.followers;
  }

  // ----- runs from the empty repository that show both failures -----

  const EXAMPLE: World := World(text => text, text => text, text => false, (fingerprint, name) => name)

  const SOURCE: Source := Source("source", "tls")

  const EMPTY: State := State(Some(SOURCE), map[], [], map[], map[])

  const ALL_WORKS: Io := Io(true, true, true, true)

  const ENROLL_WORKS: EnrollIo := EnrollIo(true, true, true, true, true, true, true, true, true)

  function Asks(name: string): Request {
    Request("code", "nonce", SOURCE, name)
  }

  function FirstRow(): Pending {
    Pending("a", "code", "credential-a", "reference-a", "a", [])
  }

  function Invited(): State {
    EMPTY.(invitations := map["code" := Invitation("nonce", SOURCE, [], 10, false)])
  }

  /** One row pending, with its credential stored. */
  function Prepared(): State {
    Invited().(pending := [FirstRow()], store := map["reference-a" := "credential-a"])
  }

  lemma PreparedIsReached()
    ensures Invite(EMPTY, "code", Invitation("nonce", SOURCE, [], 10, false), ALL_WORKS) == Invited()
    ensures Enroll(EXAMPLE, Invited(), Asks("a"), Draw("credential-a", "reference-a", 0, 0), ENROLL_WORKS)
         == (Prepared(), Ok(FirstRow()))
    ensures FreshReference(Invited(), "reference-a") && Inv(Prepared())
  {
    var row := FirstRow();
    assert Refusal(EXAMPLE, Invited(), Asks("a"), ENROLL_WORKS, 0).None?;
    assert Proposed(EXAMPLE, Invited(), Asks("a"), Draw("credential-a", "reference-a", 0, 0)) == row;
    assert FindCode([], "code").None?;
    assert [] + [row] == [row];
  }

  /** The code is pending for another name and no call fails: the enrollment is
      refused as a replay, and its credential stays stored under no row. */
  lemma ReplayLeavesCredential()
    ensures var d := Draw("credential-b", "reference-b", 1, 1);
            var run := [EMPTY, Invited(), Prepared(), Enroll(EXAMPLE, Prepared(), Asks("b"), d, ENROLL_WORKS).0];
            IsRun(EXAMPLE, run, [Inviting("code", Invitation("nonce", SOURCE, [], 10, false), ALL_WORKS),
                                 Enrolling(Asks("a"), Draw("credential-a", "reference-a", 0, 0), ENROLL_WORKS),
                                 Enrolling(Asks("b"), d, ENROLL_WORKS)])
            && Enroll(EXAMPLE, Prepared(), Asks("b"), d, ENROLL_WORKS).1 == Err(InvitationReplay)
            && "reference-b" in run[3].store && !Live(run[3], "reference-b")
  {
    var d := Draw("credential-b", "reference-b", 1, 1);
    PreparedIsReached();
    assert Refusal(EXAMPLE, Prepared(), Asks("b"), ENROLL_WORKS, 1).None?;
    assert FindCode([FirstRow()], "code") == Some(FirstRow());
    assert Enroll(EXAMPLE, Prepared(), Asks("b"), d, ENROLL_WORKS).0
        == Prepared().(store := Prepared().store["reference-b" := "credential-b"]);
  }

  /** The follower finalizes between the read and the writes of its own
      cancellation: it is enrolled, and its credential is gone. */
  lemma RaceLosesCredential()
    ensures var enrolled := Finalize(EXAMPLE, Prepared(), "credential-a", 1, ALL_WORKS);
            var late := CancelAfterRead(enrolled.0, FirstRow(), true);
            FirstRow() in Prepared().pending && enrolled.1.None?
            && "a" in late.followers && !late.followers["a"].revoked && late.followers["a"].reference == "reference-a"
            && late.store == map[] && !LiveCredentialsAreStored(late)
  {
    PreparedIsReached();
    var row := FirstRow();
    assert FindCredential([row], "credential-a") == Some(row);
    assert FinalizeRefusal(Prepared(), row, 1).None?;
    var enrolled := Finalize(EXAMPLE, Prepared(), "credential-a", 1, ALL_WORKS);
    assert enrolled == (Promote(Prepared(), row), None);
    assert CancelAfterRead(enrolled.0, row, true).store == map[];
  }

  // ----- the program's sequence of reads and writes -----

  class SourceMachine {
    const world: World
    var source: Option<Source>
    var invitations: map<string, Invitation>
    var pending: seq<Pending>
    var followers: map<string, Follower>
    var store: map<string, string>

    ghost function Snapshot(): State
      reads this
    {
      State(source, invitations, pending, followers, store)
    }

    constructor (world: World)
      ensures this.world == world && Snapshot() == State(None, map[], [], map[], map[])
    {
      this.world := world;
      source, invitations, pending, followers, store := None, map[], [], map[], map[];
    }

    method RemoveCredential(reference: string, ok: bool)
      modifies this`store
      ensures store == RemoveItem(old(store), reference, ok)
    {
      if ok {
        store := store - {reference};
      }
    }

    method FindPendingByCode(code: string) returns (found: Option<Pending>)
      ensures found == FindCode(pending, code)
    {
      var i := 0;
      while i < |pending|
        invariant 0 <= i <= |pending| && FindCode(pending, code) == FindCode(pending[i..], code)
      {
        if pending[i].codeDigest == code {
          return Some(pending[i]);
        }
        i := i + 1;
      }
      return None;
    }

    method FindPendingByCredential(digest: string) returns (found: Option<Pending>)
      ensures found == FindCredential(pending, digest)
    {
      var i := 0;
      while i < |pending|
        invariant 0 <= i <= |pending| && FindCredential(pending, digest) == FindCredential(pending[i..], digest)
      {
        if pending[i].credentialDigest == digest {
          return Some(pending[i]);
        }
        i := i + 1;
      }
      return None;
    }

    /** Every check before the new credential is stored, and whether storing it works. */
    method CheckRequest(q: Request, io: EnrollIo, now: int) returns (refusal: Option<Error>)
      ensures refusal == Refusal(world, Snapshot(), q, io, now)
    {
      if source.None? { return Some(SourceNotInitialized); }
      if q.source.fingerprint != source.value.fingerprint { return Some(SourceMismatch); }
      if q.source.tlsFingerprint != source.value.tlsFingerprint { return Some(FingerprintMismatch); }
      var codeDigest := world.sha(q.code);
      if !io.find { return Some(Configuration); }
      if codeDigest !in invitations { return Some(InvitationNotFound); }
      var invitation := invitations[codeDigest];
      if invitation.used { return Some(InvitationReplay); }
      if invitation.expiresAt <= now { return Some(InvitationExpired); }
      var name := world.normalize(q.followerName);
      if |name| == 0 || |name| > 128 || world.hasControl(name) { return Some(Configuration); }
      var followerId := world.followerId(source.value.fingerprint, name);
      if !io.lookup { return Some(Configuration); }
      if followerId in followers && !followers[followerId].revoked { return Some(DuplicateFollower); }
      return if io.storeNew then None else Some(CredentialStorage);
    }

    method EnrollFollower(q: Request, d: Draw, io: EnrollIo) returns (answer: Result<Pending, Error>)
      modifies this
      ensures (Snapshot(), answer) == Enroll(world, old(Snapshot()), q, d, io)
      ensures source == old(source)
    {
      var refusal := CheckRequest(q, io, d.now);
      if refusal.Some? { return Err(refusal.value); }
      store := store[d.reference := d.credential];
      var codeDigest, name := world.sha(q.code), world.normalize(q.followerName);
      var followerId := world.followerId(source.value.fingerprint, name);
      var row := Pending(followerId, codeDigest, world.sha(d.credential), d.reference, name,
          invitations[codeDigest].groups);
      if !io.list { return Err(Configuration); }
      var prior := FindPendingByCode(codeDigest);
      if prior.Some? {
        if prior.value.follower != followerId { return Err(InvitationReplay); }
        if !io.cancel { return Err(Configuration); }
        pending := DropCredential(pending, prior.value.credentialDigest);
        RemoveCredential(prior.value.reference, io.dropOld);
      }
      var refused := ConsumeInvitation(q, d, row, io);
      if refused.Some? {
        RemoveCredential(d.reference, io.dropNew);
        return Err(refused.value);
      }
      if !io.revisions { return Err(Configuration); }
      return Ok(row);
    }

    /** The transaction inserts the row, or refuses and changes nothing. */
    method ConsumeInvitation(q: Request, d: Draw, row: Pending, io: EnrollIo) returns (refused: Option<Error>)
      modifies this`pending
      ensures refused == if io.consume then ConsumeRefusal(world, old(Snapshot()), q, d, row) else Some(Configuration)
      ensures pending == if refused.None? then old(pending) + [row] else old(pending)
    {
      if !io.consume { return Some(Configuration); }
      refused := ConsumeRefusal(world, State(source, invitations, pending, followers, store), q, d, row);
      if refused.None? {
        pending := pending + [row];
      }
    }

    method FinalizeFollower(credential: string, now: int, io: Io) returns (failure: Option<Error>)
      modifies this
      ensures (Snapshot(), failure) == Finalize(world, old(Snapshot()), credential, now, io)
      ensures source == old(source)
    {
      var digest := world.sha(credential);
      if !io.list { return Some(Configuration); }
      var found := FindPendingByCredential(digest);
      if found.None? {
        if !io.lookup { return Some(Configuration); }
        if exists id | id in followers ::
            followers[id].credentialDigest == digest && !followers[id].revoked { return None; }
        return Some(InvalidCredential);
      }
      var row := found.value;
      var previous := if io.lookup && row.follower in followers then Some(followers[row.follower].reference) else None;
      TransactionOfListedRow(Snapshot(), row, now);
      failure := FinalizeEnrollment(row, now, io);
      if failure.Some? { return; }
      if previous.Some? && previous.value != row.reference {
        RemoveCredential(previous.value, io.drop);
      }
    }

    method FindPendingRow(follower: string, digest: string) returns (found: Option<Pending>)
      ensures found == FindRow(pending, follower, digest)
    {
      var i := 0;
      while i < |pending|
        invariant 0 <= i <= |pending| && FindRow(pending, follower, digest) == FindRow(pending[i..], follower, digest)
      {
        if pending[i].follower == follower && pending[i].credentialDigest == digest {
          return Some(pending[i]);
        }
        i := i + 1;
      }
      return None;
    }

    /** The transaction writes the follower, spends the invitation and deletes the row, or changes nothing. */
    method FinalizeEnrollment(listed: Pending, now: int, io: Io) returns (failure: Option<Error>)
      modifies this
      ensures (Snapshot(), failure)
           == if io.write then FinalizeTransaction(old(Snapshot()), listed, now)
               else (old(Snapshot()), Some(Configuration))
    {
      if !io.write { return Some(Configuration); }
      var found := FindPendingRow(listed.follower, listed.credentialDigest);
      if found.None? {
        if listed.follower in followers {
          var active := followers[listed.follower];
          if !active.revoked && active.credentialDigest == listed.credentialDigest
              && active.reference == listed.reference {
            return None;
          }
        }
        return Some(DuplicateFollower);
      }
      var row := found.value;
      if row.reference != listed.reference { return Some(DuplicateFollower); }
      failure := FinalizeRefusal(State(source, invitations, pending, followers, store), row, now);
      if failure.Some? { return; }
      followers := followers[row.follower :=
          Follower(row.name, row.groups, false, row.credentialDigest, row.reference)];
      invitations := invitations[row.codeDigest := invitations[row.codeDigest].(used := true)];
      pending := DropCredential(pending, row.credentialDigest);
    }

    method CancelPendingEnrollment(credential: string, io: Io) returns (failure: Option<Error>)
      modifies this
      ensures (Snapshot(), failure) == Cancel(world, old(Snapshot()), credential, io)
    {
      var digest := world.sha(credential);
      if !io.list { return Some(Configuration); }
      var found := FindPendingByCredential(digest);
      if !io.write { return Some(Configuration); }
      pending := DropCredential(pending, digest);
      if found.Some? {
        RemoveCredential(found.value.reference, io.drop);
      }
      return None;
    }

    method RevokeAndRetire(follower: string, io: Io) returns (failure: Option<Error>)
      modifies this
      ensures (Snapshot(), failure) == Revoke(old(Snapshot()), follower, io)
    {
      if !io.lookup { return Some(Configuration); }
      if follower !in followers { return Some(FollowerNotFound); }
      var stored := followers[follower];
      if !io.write { return Some(Configuration); }
      followers := followers[follower := stored.(revoked := true)];
      RemoveCredential(stored.reference, io.drop);
      return None;
    }

    /** The exclusive server owner cancels what an interrupted server left pending. */
    method StartServerSession(writes: seq<bool>, drops: seq<bool>) returns (failure: Option<Error>)
      requires |writes| == |drops| == |pending|
      modifies this
      ensures (Snapshot(), failure) == Recover(old(Snapshot()), old(pending), writes, drops)
      ensures failure.None? ==> pending == []
    {
      var abandoned := pending;
      ghost var start := Snapshot();
      var i := 0;
      while i < |abandoned|
        invariant 0 <= i <= |abandoned|
        invariant Recover(start, abandoned, writes, drops)
               == Recover(Snapshot(), abandoned[i..], writes[i..], drops[i..])
      {
        if !writes[i] { return Some(Configuration); }
        pending := DropCredential(pending, abandoned[i].credentialDigest);
        RemoveCredential(abandoned[i].reference, drops[i]);
        i := i + 1;
      }
      CompletedRestartLeavesNonePending(start, writes, drops);
      return None;
    }
  }
}
