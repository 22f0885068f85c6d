/**
  The migration of a Source's credentials from account-global names to the
  names of one state directory (src/enrollment/enrollment.layer.ts,
  `storeSourceSecrets`, `removeSourceSecrets` and `sourceCredentials`).

  Any number of processes of one state directory run it at once. The model is a
  state machine whose step is one read, write or removal by one process, each of
  which may fail; a process may also stop anywhere, and an earlier release
  working in another state directory may replace the account-global items.
 */
module CredentialMigration {
  import opened Options

  /** The three items of a Source: signing key, TLS key, TLS certificate. */
  type Kind = k: nat | k < 3

  /** The reference a stored name yields. Account-global names have no namespace. */
  datatype Reference = Reference(kind: Kind, namespace: Option<string>)

  datatype Record = Record(identity: string, namespace: Option<string>)

  function ReferenceOf(r: Record, kind: Kind): Reference {
    Reference(kind, r.namespace)
  }

  /** One call of `sourceCredentials`, by the read or write it does next. */
  datatype Process =
    | Reading
    | Loading(record: Record, loaded: seq<string>)
    | Storing(record: Record, secrets: seq<string>, own: string, written: Kind)
    | Rereading(record: Record, secrets: seq<string>, own: string)
    | Saving(record: Record, secrets: seq<string>, own: string)
    | Removing(own: string, removed: nat, upTo: nat, outcome: Process)
    | Returned(record: Record, secrets: seq<string>)
    | Failed

  datatype Event =
    | Act(pid: nat, ok: bool, freshNamespace: string)
    | Stop(pid: nat)
    | ReplaceGlobal(kind: Kind, item: Option<string>)

  /** `issued` holds every namespace drawn, `published` every one ever recorded. */
  datatype System = System(
    record: Option<Record>,
    store: map<Reference, string>,
    processes: map<nat, Process>,
    issued: set<string>,
    published: set<string>)

  /** Whether three secrets match an identity's fingerprints: uninterpreted. */
  type Check = (string, seq<string>) -> bool

  predicate Terminal(p: Process) {
    p.Returned? || p.Failed?
  }

  /** The next action checks the loaded secrets and may draw a namespace for their copies. */
  predicate DrawsNamespace(p: Process) {
    p.Loading? && |p.loaded| == 3
  }

  /** Random namespaces of 16 bytes are taken to be unique. */
  predicate Enabled(s: System, e: Event) {
    match e
    case Act(pid, _, namespace) =>
      pid in s.processes && !Terminal(s.processes[pid]) && (DrawsNamespace(s.processes[pid]) ==> namespace !in s.issued)
    case Stop(pid) => pid in s.processes && !Terminal(s.processes[pid])
    case ReplaceGlobal(_, _) => true
  }

  function RemoveOwn(own: string, removed: nat, upTo: nat, outcome: Process): Process {
    if removed >= upTo then outcome else Removing(own, removed, upTo, outcome)
  }

  /** Put process `pid` in a new state. */
  function Become(s: System, pid: nat, p: Process): System {
    s.(processes := s.processes[pid := p])
  }

  function Step(check: Check, s: System, e: Event): System
    requires Enabled(s, e)
  {
    match e
    case ReplaceGlobal(kind, item) =>
      var global := Reference(kind, None);
      s.(store := if item.Some? then s.store[global := item.value] else s.store - {global})
    case Stop(pid) => Become(s, pid, Failed)
    case Act(pid, ok, namespace) => Advance(check, s, pid, s.processes[pid], ok, namespace)
  }

  function Advance(check: Check, s: System, pid: nat, p: Process, ok: bool, namespace: string): System {
    match p
    case Reading =>
      Become(s, pid, if ok && s.record.Some? then Loading(s.record.value, []) else Failed)
    case Loading(record, loaded) =>
      if |loaded| < 3 then
        if !ok || ReferenceOf(record, |loaded|) !in s.store then Become(s, pid, Failed)
        else Become(s, pid, Loading(record, loaded + [s.store[ReferenceOf(record, |loaded|)]]))
      else if !check(record.identity, loaded) then Become(s, pid, Failed)
      else if record.namespace.Some? then Become(s, pid, Returned(record, loaded))
      else Become(s.(issued := s.issued + {namespace}), pid, Storing(record, loaded, namespace, 0))
    case Storing(record, secrets, own, written) =>
      if !ok || |secrets| != 3 then Become(s, pid, RemoveOwn(own, 0, written, Failed))
      else Become(s.(store := s.store[Reference(written, Some(own)) := secrets[written]]), pid,
                  if written < 2 then Storing(record, secrets, own, written + 1) else Rereading(record, secrets, own))
    case Rereading(record, secrets, own) =>
      if !ok then Become(s, pid, RemoveOwn(own, 0, 3, Failed))
      else if s.record.Some? && s.record.value.namespace.Some?
      then Become(s, pid, RemoveOwn(own, 0, 3, Returned(s.record.value, secrets)))
      else Become(s, pid, Saving(record, secrets, own))
    case Saving(record, secrets, own) =>
      if !ok then Become(s, pid, RemoveOwn(own, 0, 3, Failed))
      else
        var migrated := record.(namespace := Some(own));
        Become(s.(record := Some(migrated), published := s.published + {own}), pid, Returned(migrated, secrets))
    case Removing(own, removed, upTo, outcome) =>
      if removed >= 3 then Become(s, pid, outcome)
      else Become(if ok then s.(store := s.store - {Reference(removed, Some(own))}) else s, pid,
                  RemoveOwn(own, removed + 1, upTo, outcome))
    case Returned(_, _) => s
    case Failed => s
  }

  // ----- the invariant -----

  /** All three items of `namespace` are stored and belong to `identity`. */
  ghost predicate StoredFor(check: Check, store: map<Reference, string>, identity: string, namespace: Option<string>) {
    && (forall k: Kind :: Reference(k, namespace) in store)
    && check(identity, [store[Reference(0, namespace)], store[Reference(1, namespace)], store[Reference(2, namespace)]])
  }

  predicate Owns(p: Process, namespace: string) {
    (p.Storing? || p.Rereading? || p.Saving? || p.Removing?) && p.own == namespace
  }

  /** The first `n` copies under `own` hold the secrets. */
  ghost predicate CopiedUpTo(store: map<Reference, string>, own: string, secrets: seq<string>, n: nat) {
    |secrets| == 3 && n <= 3 && CopiedFirst(store, own, secrets, n)
  }

  /** The secrets read so far are the stored items of a namespace. */
  ghost predicate HoldsStored(store: map<Reference, string>, namespace: string, secrets: seq<string>) {
    |secrets| <= 3 && CopiedFirst(store, namespace, secrets, |secrets|)
  }

  ghost predicate CopiedFirst(store: map<Reference, string>, namespace: string, secrets: seq<string>, n: nat)
    requires n <= |secrets|
  {
    forall k: Kind :: k < n ==>
      Reference(k, Some(namespace)) in store && store[Reference(k, Some(namespace))] == secrets[k]
  }

  ghost predicate RecordKnown(s: System, identity: string, r: Record) {
    r.identity == identity && (r.namespace.Some? ==> r.namespace.value in s.published)
  }

  /** What a process in each state relies on. */
  ghost predicate ProcessOk(check: Check, s: System, identity: string, p: Process) {
    match p
    case Reading => true
    case Loading(record, loaded) =>
      && RecordKnown(s, identity, record) && |loaded| <= 3
      && (record.namespace.Some? ==> HoldsStored(s.store, record.namespace.value, loaded))
    case Storing(record, secrets, own, written) =>
      record == Record(identity, None) && check(identity, secrets) && CopiedUpTo(s.store, own, secrets, written)
    case Rereading(record, secrets, own) =>
      record == Record(identity, None) && check(identity, secrets) && CopiedUpTo(s.store, own, secrets, 3)
    case Saving(record, secrets, own) =>
      record == Record(identity, None) && check(identity, secrets) && CopiedUpTo(s.store, own, secrets, 3)
    case Removing(_, removed, upTo, outcome) => removed < upTo <= 3
        && (outcome.Failed? || (outcome.Returned? && ReturnedOk(check, s, identity, outcome)))
    case Returned(_, _) => ReturnedOk(check, s, identity, p)
    case Failed => true
  }

  ghost predicate ReturnedOk(check: Check, s: System, identity: string, p: Process)
    requires p.Returned?
  {
    RecordKnown(s, identity, p.record) && p.record.namespace.Some? && check(identity, p.secrets)
  }

  ghost predicate Inv(check: Check, s: System, identity: string) {
    && s.published <= s.issued
    && (s.record.Some? ==> RecordKnown(s, identity, s.record.value))
    && (forall namespace :: namespace in s.published ==> StoredFor(check, s.store, identity, Some(namespace)))
    && (forall pid :: pid in s.processes ==> ProcessOk(check, s, identity, s.processes[pid]))
    && (forall pid, namespace :: pid in s.processes && Owns(s.processes[pid], namespace)
          ==> namespace in s.issued && namespace !in s.published)
    && (forall pid, qid, namespace :: pid in s.processes && qid in s.processes && pid != qid
          ==> !(Owns(s.processes[pid], namespace) && Owns(s.processes[qid], namespace)))
  }

  /** What one process may change: its own state, the items of a namespace it
      owns or has just drawn, and, once those are complete, the record. */
  ghost predicate ChangesOnly(s: System, t: System, pid: nat, own: Option<string>) {
    && pid in s.processes && pid in t.processes && t.processes == s.processes[pid := t.processes[pid]]
    && (own.Some? ==> Owns(s.processes[pid], own.value) || own.value !in s.issued)
    && (forall namespace :: Owns(t.processes[pid], namespace) ==>
        own == Some(namespace) && namespace in t.issued && namespace !in t.published)
    && (forall r: Reference :: r.namespace.Some? && r.namespace != own
          ==> (r in t.store <==> r in s.store) && (r in s.store ==> t.store[r] == s.store[r]))
    && s.issued <= t.issued && s.published <= t.published <= t.issued
    && (forall namespace :: namespace in t.published && namespace !in s.published ==> own == Some(namespace))
  }

  lemma OtherProcessUnaffected(
      check: Check, s: System, t: System, identity: string, pid: nat, own: Option<string>, q: nat)
    requires Inv(check, s, identity) && ChangesOnly(s, t, pid, own) && q in s.processes && q != pid
    ensures ProcessOk(check, t, identity, s.processes[q])
    ensures own.Some? ==> !Owns(s.processes[q], own.value)
  {
    var p := s.processes[q];
    assert ProcessOk(check, s, identity, p);
    if p.Storing? || p.Rereading? || p.Saving? {
      assert Owns(p, p.own);
      assert p.own in s.issued;
      assert forall k: Kind :: Reference(k, Some(p.own)).namespace != own;
    }
    if p.Loading? && p.record.namespace.Some? {
      assert p.record.namespace != own;
      assert forall k: Kind :: Reference(k, p.record.namespace).namespace != own;
    }
  }

  lemma ChangeKeepsInv(check: Check, s: System, t: System, identity: string, pid: nat, own: Option<string>)
    requires Inv(check, s, identity) && ChangesOnly(s, t, pid, own)
    requires ProcessOk(check, t, identity, t.processes[pid])
    requires t.record.Some? ==> RecordKnown(t, identity, t.record.value)
    requires own.Some? && own.value in t.published ==> StoredFor(check, t.store, identity, own)
    ensures Inv(check, t, identity)
  {
    forall q | q in t.processes && q != pid
      ensures ProcessOk(check, t, identity, t.processes[q])
      ensures own.Some? ==> !Owns(t.processes[q], own.value)
    {
      OtherProcessUnaffected(check, s, t, identity, pid, own, q);
    }
    forall namespace | namespace in t.published
      ensures StoredFor(check, t.store, identity, Some(namespace))
    {
      if own != Some(namespace) {
        assert StoredFor(check, s.store, identity, Some(namespace));
        assert forall k: Kind :: Reference(k, Some(namespace)).namespace != own;
      }
    }
    forall q, namespace | q in t.processes && Owns(t.processes[q], namespace)
      ensures namespace in t.issued && namespace !in t.published
    {
      if q != pid {
        assert Owns(s.processes[q], namespace);
        assert own != Some(namespace);
      }
    }
  }

  lemma ReadKeepsInv(check: Check, s: System, pid: nat, ok: bool, namespace: string, identity: string)
    requires Inv(check, s, identity) && Enabled(s, Act(pid, ok, namespace)) && s.processes[pid].Reading?
    ensures Inv(check, Advance(check, s, pid, s.processes[pid], ok, namespace), identity)
  {
    ChangeKeepsInv(check, s, Advance(check, s, pid, s.processes[pid], ok, namespace), identity, pid, None);
  }

  lemma LoadKeepsInv(check: Check, s: System, pid: nat, ok: bool, namespace: string, identity: string)
    requires Inv(check, s, identity) && Enabled(s, Act(pid, ok, namespace)) && s.processes[pid].Loading?
    ensures Inv(check, Advance(check, s, pid, s.processes[pid], ok, namespace), identity)
  {
    var p := s.processes[pid];
    var t := Advance(check, s, pid, p, ok, namespace);
    assert ProcessOk(check, s, identity, p);
    ChangeKeepsInv(check, s, t, identity, pid, if t.issued != s.issued then Some(namespace) else None);
  }

  lemma StoreKeepsInv(check: Check, s: System, pid: nat, ok: bool, namespace: string, identity: string)
    requires Inv(check, s, identity) && Enabled(s, Act(pid, ok, namespace)) && s.processes[pid].Storing?
    ensures Inv(check, Advance(check, s, pid, s.processes[pid], ok, namespace), identity)
  {
    var p := s.processes[pid];
    var t := Advance(check, s, pid, p, ok, namespace);
    assert ProcessOk(check, s, identity, p);
    assert Owns(p, p.own);
    ChangeKeepsInv(check, s, t, identity, pid, Some(p.own));
  }

  lemma RereadKeepsInv(check: Check, s: System, pid: nat, ok: bool, namespace: string, identity: string)
    requires Inv(check, s, identity) && Enabled(s, Act(pid, ok, namespace)) && s.processes[pid].Rereading?
    ensures Inv(check, Advance(check, s, pid, s.processes[pid], ok, namespace), identity)
  {
    var p := s.processes[pid];
    var t := Advance(check, s, pid, p, ok, namespace);
    assert ProcessOk(check, s, identity, p);
    assert Owns(p, p.own);
    ChangeKeepsInv(check, s, t, identity, pid, Some(p.own));
  }

  lemma SaveKeepsInv(check: Check, s: System, pid: nat, ok: bool, namespace: string, identity: string)
    requires Inv(check, s, identity) && Enabled(s, Act(pid, ok, namespace)) && s.processes[pid].Saving?
    ensures Inv(check, Advance(check, s, pid, s.processes[pid], ok, namespace), identity)
  {
    var p := s.processes[pid];
    var t := Advance(check, s, pid, p, ok, namespace);
    assert ProcessOk(check, s, identity, p);
    assert Owns(p, p.own);
    assert p.secrets == [p.secrets[0], p.secrets[1], p.secrets[2]];
    ChangeKeepsInv(check, s, t, identity, pid, Some(p.own));
  }

  lemma RemoveKeepsInv(check: Check, s: System, pid: nat, ok: bool, namespace: string, identity: string)
    requires Inv(check, s, identity) && Enabled(s, Act(pid, ok, namespace)) && s.processes[pid].Removing?
    ensures Inv(check, Advance(check, s, pid, s.processes[pid], ok, namespace), identity)
  {
    var p := s.processes[pid];
    var t := Advance(check, s, pid, p, ok, namespace);
    assert ProcessOk(check, s, identity, p);
    assert Owns(p, p.own);
    ChangeKeepsInv(check, s, t, identity, pid, Some(p.own));
  }

  /** Any event, of a process or of the account, keeps the invariant. */
  lemma StepKeepsInv(check: Check, s: System, e: Event, identity: string)
    requires Inv(check, s, identity) && Enabled(s, e)
    ensures Inv(check, Step(check, s, e), identity)
  {
    var t := Step(check, s, e);
    match e
    case ReplaceGlobal(kind, item) =>
      forall pid | pid in s.processes ensures ProcessOk(check, t, identity, t.processes[pid]) {
        assert ProcessOk(check, s, identity, s.processes[pid]);
      }
    case Stop(pid) => ChangeKeepsInv(check, s, t, identity, pid, None);
    case Act(pid, ok, namespace) =>
      match s.processes[pid]
      case Reading => ReadKeepsInv(check, s, pid, ok, namespace, identity);
      case Loading(_, _) => LoadKeepsInv(check, s, pid, ok, namespace, identity);
      case Storing(_, _, _, _) => StoreKeepsInv(check, s, pid, ok, namespace, identity);
      case Rereading(_, _, _) => RereadKeepsInv(check, s, pid, ok, namespace, identity);
      case Saving(_, _, _) => SaveKeepsInv(check, s, pid, ok, namespace, identity);
      case Removing(_, _, _, _) => RemoveKeepsInv(check, s, pid, ok, namespace, identity);
  }

  // ----- every run -----

  ghost predicate IsRun(check: Check, states: seq<System>, events: seq<Event>) {
    && |states| == |events| + 1
    && forall i :: 0 <= i < |events| ==>
        Enabled(states[i], events[i]) && states[i + 1] == Step(check, states[i], events[i])
  }

  /** Before any process runs: the record, if any, and nothing drawn but a recorded namespace. */
  ghost predicate Initial(check: Check, s: System, identity: string) {
    && (s.record.Some? ==> s.record.value.identity == identity)
    && s.published == s.issued
    && s.issued == (if s.record.Some? && s.record.value.namespace.Some? then {s.record.value.namespace.value} else {})
    && (s.record.Some? ==> StoredFor(check, s.store, identity, s.record.value.namespace))
    && (forall pid :: pid in s.processes ==> s.processes[pid].Reading?)
    && (forall r: Reference :: r in s.store && r.namespace.Some? ==> r.namespace.value in s.published)
  }

  lemma {:induction false} RunKeepsInv(check: Check, states: seq<System>, events: seq<Event>, identity: string, i: nat)
    requires IsRun(check, states, events) && Initial(check, states[0], identity) && i < |states|
    ensures Inv(check, states[i], identity)
  {
    if i > 0 {
      RunKeepsInv(check, states, events, identity, i - 1);
      StepKeepsInv(check, states[i - 1], events[i - 1], identity);
    }
  }

  /** In every interleaving, with failures and stops anywhere, the recorded
      references name stored items that match the recorded identity. Only another
      state directory's write to the account-global names can break that, and
      only while the record still names them. */
  lemma {:induction false} RecordedItemsAreStored(
      check: Check, states: seq<System>, events: seq<Event>, identity: string, i: nat)
    requires IsRun(check, states, events) && Initial(check, states[0], identity) && i < |states|
    ensures states[i].record.Some? ==>
              var r := states[i].record.value;
              r.identity == identity
              && (r.namespace.Some? || (forall k :: 0 <= k < i ==> !events[k].ReplaceGlobal?)
                  ==> StoredFor(check, states[i].store, identity, r.namespace))
    ensures states[0].record.Some? ==> states[i].record.Some?
  {
    RunKeepsInv(check, states, events, identity, i);
    if i > 0 {
      RecordedItemsAreStored(check, states, events, identity, i - 1);
      if !events[i - 1].ReplaceGlobal? {
        GlobalItemsUntouched(check, states[i - 1], events[i - 1]);
      }
    }
  }

  /** The migration never writes or removes an account-global item. */
  lemma GlobalItemsUntouched(check: Check, s: System, e: Event)
    requires Enabled(s, e) && !e.ReplaceGlobal?
    ensures forall k: Kind :: var g := Reference(k, None);
              (g in Step(check, s, e).store <==> g in s.store)
                  && (g in s.store ==> Step(check, s, e).store[g] == s.store[g])
    ensures s.record.Some? && s.record.value.namespace.Some? ==>
              Step(check, s, e).record.Some? && Step(check, s, e).record.value.namespace.Some?
  {
  }

  /** Whatever the interleaving, a process that returns holds secrets of this
      very identity and a record whose own namespace stores matching items. */
  lemma ReturnedCredentialsBelong(
      check: Check, states: seq<System>, events: seq<Event>, identity: string, i: nat, pid: nat)
    requires IsRun(check, states, events) && Initial(check, states[0], identity) && i < |states|
    requires pid in states[i].processes && states[i].processes[pid].Returned?
    ensures var p := states[i].processes[pid];
              p.record.identity == identity && p.record.namespace.Some? && check(identity, p.secrets)
              && StoredFor(check, states[i].store, identity, p.record.namespace)
  {
    RunKeepsInv(check, states, events, identity, i);
    assert ProcessOk(check, states[i], identity, states[i].processes[pid]);
  }

  /** All three items of the namespace are in both stores, and the same. */
  ghost predicate SameItems(before: map<Reference, string>, after: map<Reference, string>, namespace: string) {
    forall k: Kind ::
      var r := Reference(k, Some(namespace));
      r in before && r in after && after[r] == before[r]
  }

  /** Once a namespace has been recorded, its items never change. */
  lemma PublishedItemsStay(check: Check, s: System, e: Event, identity: string, namespace: string)
    requires Inv(check, s, identity) && Enabled(s, e) && namespace in s.published
    ensures namespace in Step(check, s, e).published
    ensures SameItems(s.store, Step(check, s, e).store, namespace)
  {
    assert StoredFor(check, s.store, identity, Some(namespace));
    if e.Act? {
      var p := s.processes[e.pid];
      assert !Owns(p, namespace);
    }
  }

  lemma {:induction false} PublishedItemsNeverChange(
      check: Check, states: seq<System>, events: seq<Event>, identity: string, namespace: string, i: nat, j: nat)
    requires IsRun(check, states, events) && Initial(check, states[0], identity) && i <= j < |states|
    requires namespace in states[i].published
    ensures namespace in states[j].published
    ensures SameItems(states[i].store, states[j].store, namespace)
  {
    if i < j {
      PublishedItemsNeverChange(check, states, events, identity, namespace, i, j - 1);
      RunKeepsInv(check, states, events, identity, j - 1);
      PublishedItemsStay(check, states[j - 1], events[j - 1], identity, namespace);
    } else {
      RunKeepsInv(check, states, events, identity, i);
      assert StoredFor(check, states[i].store, identity, Some(namespace));
    }
  }

  /** The step by which a process returns what it loaded from, or saved under, a namespace. */
  ghost predicate ReturnsOwn(check: Check, s: System, e: Event, pid: nat) {
    && Enabled(s, e) && e.Act? && e.pid == pid && Step(check, s, e).processes[pid].Returned?
    && (s.processes[pid].Saving? || (s.processes[pid].Loading? && s.processes[pid].record.namespace.Some?))
  }

  lemma OwnReturnIsStored(check: Check, s: System, e: Event, identity: string, pid: nat)
    requires Inv(check, s, identity) && ReturnsOwn(check, s, e, pid)
    ensures var t := Step(check, s, e);
            var p := t.processes[pid];
            |p.secrets| == 3 && p.record.namespace.Some? && p.record.namespace.value in t.published
            && HoldsStored(t.store, p.record.namespace.value, p.secrets)
  {
    assert ProcessOk(check, s, identity, s.processes[pid]);
  }

  /** In every later state a process that returned this way still holds exactly the
      items its record names. */
  lemma {:induction false} ReturnedCredentialsAreStored(
      check: Check, states: seq<System>, events: seq<Event>, identity: string, j: nat, i: nat, pid: nat)
    requires IsRun(check, states, events) && Initial(check, states[0], identity) && j < i < |states|
    requires ReturnsOwn(check, states[j], events[j], pid)
    ensures pid in states[i].processes && states[i].processes[pid] == states[j + 1].processes[pid]
    ensures var p := states[i].processes[pid];
            p.Returned? && |p.secrets| == 3 && p.record.namespace.Some?
            && HoldsStored(states[i].store, p.record.namespace.value, p.secrets)
  {
    RunKeepsInv(check, states, events, identity, j);
    OwnReturnIsStored(check, states[j], events[j], identity, pid);
    ReturnedStays(check, states, events, j + 1, i, pid);
    PublishedItemsNeverChange(
      check, states, events, identity, states[j + 1].processes[pid].record.namespace.value, j + 1, i);
  }

  lemma {:induction false} ReturnedStays(
      check: Check, states: seq<System>, events: seq<Event>, j: nat, i: nat, pid: nat)
    requires IsRun(check, states, events) && j <= i < |states| && pid in states[j].processes
    requires states[j].processes[pid].Returned?
    ensures pid in states[i].processes && states[i].processes[pid] == states[j].processes[pid]
  {
    if j < i {
      ReturnedStays(check, states, events, j, i - 1, pid);
    }
  }

  // ----- nothing is left behind -----

  /** The copies a process has written and not yet published or removed. */
  predicate HoldsCopy(p: Process, kind: Kind) {
    match p
    case Storing(_, _, _, written) => kind < written
    case Rereading(_, _, _) => true
    case Saving(_, _, _) => true
    case Removing(_, removed, upTo, _) => removed <= kind < upTo
    case _ => false
  }

  ghost predicate NoOrphans(s: System) {
    forall r: Reference :: r in s.store && r.namespace.Some? ==>
      r.namespace.value in s.published
      || exists pid :: pid in s.processes && Owns(s.processes[pid], r.namespace.value)
          && HoldsCopy(s.processes[pid], r.kind)
  }

  /** Every removal succeeds, and no process stops while it owns copies. */
  predicate Clean(s: System, e: Event)
    requires Enabled(s, e)
  {
    match e
    case Act(pid, ok, _) => s.processes[pid].Removing? ==> ok
    case Stop(pid) => !exists own :: own in s.issued && Owns(s.processes[pid], own)
    case ReplaceGlobal(_, _) => true
  }

  /** The process holding an unpublished copy still holds it, or publishes or removes it. */
  lemma HolderKeepsCopy(check: Check, s: System, e: Event, identity: string, q: nat, r: Reference)
    requires Inv(check, s, identity) && Enabled(s, e) && Clean(s, e) && q in s.processes
    requires r.namespace.Some? && Owns(s.processes[q], r.namespace.value) && HoldsCopy(s.processes[q], r.kind)
    ensures var t := Step(check, s, e);
              r !in t.store || r.namespace.value in t.published
              || (q in t.processes && Owns(t.processes[q], r.namespace.value) && HoldsCopy(t.processes[q], r.kind))
  {
    var p := s.processes[q];
    assert r.namespace.value in s.issued;
    assert ProcessOk(check, s, identity, p);
    if e.Act? && e.pid == q {
      match p
      case Storing(_, _, _, written) =>
      case Rereading(_, _, _) =>
      case Saving(_, _, _) =>
      case Removing(_, _, _, _) =>
    }
  }

  lemma StepLeavesNoOrphans(check: Check, s: System, e: Event, identity: string)
    requires Inv(check, s, identity) && NoOrphans(s) && Enabled(s, e) && Clean(s, e)
    ensures NoOrphans(Step(check, s, e))
  {
    var t := Step(check, s, e);
    forall r: Reference | r in t.store && r.namespace.Some? && r.namespace.value !in t.published
      ensures exists q ::
                q in t.processes && Owns(t.processes[q], r.namespace.value) && HoldsCopy(t.processes[q], r.kind)
    {
      if r in s.store {
        var q :| q in s.processes && Owns(s.processes[q], r.namespace.value) && HoldsCopy(s.processes[q], r.kind);
        HolderKeepsCopy(check, s, e, identity, q, r);
      } else {
        NewCopyIsHeld(check, s, e, r);
      }
    }
  }

  lemma NewCopyIsHeld(check: Check, s: System, e: Event, r: Reference)
    requires Enabled(s, e) && r.namespace.Some? && r !in s.store && r in Step(check, s, e).store
    ensures e.Act? && Owns(Step(check, s, e).processes[e.pid], r.namespace.value)
    ensures HoldsCopy(Step(check, s, e).processes[e.pid], r.kind)
  {
  }

  /** When every process has ended after a clean run, the only namespaced items
      left are those of namespaces that were recorded. */
  lemma CleanRunLeavesOnlyPublished(check: Check, states: seq<System>, events: seq<Event>, identity: string, i: nat)
    requires IsRun(check, states, events) && Initial(check, states[0], identity) && i < |states|
    requires forall k :: 0 <= k < i ==> Clean(states[k], events[k])
    ensures NoOrphans(states[i])
    ensures (forall pid :: pid in states[i].processes ==> Terminal(states[i].processes[pid])) ==>
              forall r: Reference :: r in states[i].store && r.namespace.Some? ==>
                  r.namespace.value in states[i].published
  {
    if i > 0 {
      CleanRunLeavesOnlyPublished(check, states, events, identity, i - 1);
      RunKeepsInv(check, states, events, identity, i - 1);
      StepLeavesNoOrphans(check, states[i - 1], events[i - 1], identity);
    }
  }

  // ----- the migration does happen -----

  ghost function Solo(check: Check, s: System, pid: nat, namespace: string, steps: nat): System {
    if steps == 0 then s
    else
      var e, before := Act(pid, true, namespace), Solo(check, s, pid, namespace, steps - 1);
      if Enabled(before, e) then Step(check, before, e) else before
  }

  lemma SoloNext(check: Check, s: System, pid: nat, namespace: string, steps: nat)
    ensures var before, e := Solo(check, s, pid, namespace, steps), Act(pid, true, namespace);
              Solo(check, s, pid, namespace, steps + 1) == if Enabled(before, e) then Step(check, before, e) else before
  {
  }

  ghost predicate ReadyToMigrate(check: Check, s: System, identity: string, pid: nat, namespace: string) {
    && s.record == Some(Record(identity, None)) && StoredFor(check, s.store, identity, None)
    && pid in s.processes && s.processes[pid].Reading? && namespace !in s.issued
  }

  ghost function GlobalItems(s: System): seq<string>
    requires forall k: Kind :: Reference(k, None) in s.store
  {
    [s.store[Reference(0, None)], s.store[Reference(1, None)], s.store[Reference(2, None)]]
  }

  ghost function WithCopies(s: System, namespace: string): map<Reference, string>
    requires forall k: Kind :: Reference(k, None) in s.store
  {
    var g := GlobalItems(s);
    var own := Some(namespace);
    s.store[Reference(0, own) := g[0]][Reference(1, own) := g[1]][Reference(2, own) := g[2]]
  }

  lemma SoloLoads(check: Check, s: System, identity: string, pid: nat, namespace: string)
    requires ReadyToMigrate(check, s, identity, pid, namespace)
    ensures Solo(check, s, pid, namespace, 4) == Become(s, pid, Loading(Record(identity, None), GlobalItems(s)))
  {
    SoloNext(check, s, pid, namespace, 0);
    var g := GlobalItems(s);
    assert [] + [g[0]] == [g[0]] && [g[0]] + [g[1]] == [g[0], g[1]] && [g[0], g[1]] + [g[2]] == g;
    assert Solo(check, s, pid, namespace, 1) == Become(s, pid, Loading(Record(identity, None), []));
    SoloNext(check, s, pid, namespace, 1);
    assert Solo(check, s, pid, namespace, 2) == Become(s, pid, Loading(Record(identity, None), [g[0]]));
    SoloNext(check, s, pid, namespace, 2);
    assert Solo(check, s, pid, namespace, 3) == Become(s, pid, Loading(Record(identity, None), [g[0], g[1]]));
    SoloNext(check, s, pid, namespace, 3);
  }

  lemma SoloStores(check: Check, s: System, identity: string, pid: nat, namespace: string)
    requires ReadyToMigrate(check, s, identity, pid, namespace)
    ensures Solo(check, s, pid, namespace, 8)
         == Become(s.(issued := s.issued + {namespace}, store := WithCopies(s, namespace)), pid,
                   Rereading(Record(identity, None), GlobalItems(s), namespace))
  {
    SoloLoads(check, s, identity, pid, namespace);
    var g, drawn := GlobalItems(s), s.(issued := s.issued + {namespace});
    SoloNext(check, s, pid, namespace, 4);
    assert Solo(check, s, pid, namespace, 5) == Become(drawn, pid, Storing(Record(identity, None), g, namespace, 0));
    SoloNext(check, s, pid, namespace, 5);
    var one := drawn.(store := s.store[Reference(0, Some(namespace)) := g[0]]);
    assert Solo(check, s, pid, namespace, 6) == Become(one, pid, Storing(Record(identity, None), g, namespace, 1));
    SoloNext(check, s, pid, namespace, 6);
    var two := one.(store := one.store[Reference(1, Some(namespace)) := g[1]]);
    assert Solo(check, s, pid, namespace, 7) == Become(two, pid, Storing(Record(identity, None), g, namespace, 2));
    SoloNext(check, s, pid, namespace, 7);
  }

  /** A lone process whose account-global items are its own copies all three
      under a fresh namespace, records it, and returns the same secrets. */
  lemma SoloRunMigrates(check: Check, s: System, identity: string, pid: nat, namespace: string)
    requires ReadyToMigrate(check, s, identity, pid, namespace)
    ensures var migrated := Record(identity, Some(namespace));
              Solo(check, s, pid, namespace, 10)
              == Become(System(Some(migrated), WithCopies(s, namespace), s.processes, s.issued + {namespace},
                  s.published + {namespace}),
                        pid, Returned(migrated, GlobalItems(s)))
  {
    SoloStores(check, s, identity, pid, namespace);
    SoloNext(check, s, pid, namespace, 8);
    SoloNext(check, s, pid, namespace, 9);
  }

  // ----- a migrated Source keeps loading its credentials -----

  /** The three stored items of a namespace. */
  ghost function ItemsOf(store: map<Reference, string>, namespace: string): seq<string>
    requires forall k: Kind :: Reference(k, Some(namespace)) in store
  {
    var own := Some(namespace);
    [store[Reference(0, own)], store[Reference(1, own)], store[Reference(2, own)]]
  }

  /** Where a process that has just read a namespaced record is after `acts` of its own actions. */
  function LoadedAfter(record: Record, items: seq<string>, acts: nat): Process
    requires |items| == 3
  {
    if acts < 4 then Loading(record, items[..acts]) else Returned(record, items)
  }

  /** The actions of one process among the events. */
  function ActsOf(events: seq<Event>, pid: nat): nat {
    if events == [] then 0
    else ActsOf(events[..|events| - 1], pid)
         + if events[|events| - 1].Act? && events[|events| - 1].pid == pid then 1 else 0
  }

  /** No call of process `pid` fails, and nothing stops it. */
  ghost predicate Undisturbed(events: seq<Event>, pid: nat) {
    forall k :: 0 <= k < |events| ==> Spares(events[k], pid)
  }

  predicate Spares(e: Event, pid: nat) {
    match e
    case Act(q, ok, _) => q == pid ==> ok
    case Stop(q) => q != pid
    case ReplaceGlobal(_, _) => true
  }

  /** The process is `acts` actions on, and the items it loads are those `first` stored. */
  ghost predicate IsLoading(
      s: System, identity: string, pid: nat, namespace: string, first: map<Reference, string>, acts: nat) {
    && namespace in s.published && SameItems(first, s.store, namespace)
    && (forall k: Kind :: Reference(k, Some(namespace)) in first) && pid in s.processes
    && s.processes[pid] == LoadedAfter(Record(identity, Some(namespace)), ItemsOf(first, namespace), acts)
  }

  /** One step of a run in which a process loads the items of a namespaced record. */
  lemma LoadingAdvances(check: Check, s: System, e: Event, identity: string, pid: nat, namespace: string, acts: nat)
    requires Inv(check, s, identity) && Enabled(s, e) && Spares(e, pid) && namespace in s.published
    requires StoredFor(check, s.store, identity, Some(namespace)) && pid in s.processes
    requires s.processes[pid] == LoadedAfter(Record(identity, Some(namespace)), ItemsOf(s.store, namespace), acts)
    ensures pid in Step(check, s, e).processes
    ensures Step(check, s, e).processes[pid]
         == LoadedAfter(Record(identity, Some(namespace)), ItemsOf(s.store, namespace),
                        acts + if e.Act? && e.pid == pid then 1 else 0)
  {
    var items := ItemsOf(s.store, namespace);
    if e.Act? && e.pid == pid && acts < 3 {
      assert items[..acts] + [items[acts]] == items[..acts + 1];
    } else {
      assert items[..3] == items;
    }
  }

  lemma LoadingStep(
      check: Check, s: System, e: Event, identity: string, pid: nat, namespace: string,
      first: map<Reference, string>, acts: nat)
    requires Inv(check, s, identity) && Enabled(s, e) && Spares(e, pid)
    requires IsLoading(s, identity, pid, namespace, first, acts)
    ensures IsLoading(Step(check, s, e), identity, pid, namespace, first,
                      acts + if e.Act? && e.pid == pid then 1 else 0)
  {
    SameItemsOf(first, s.store, namespace);
    PublishedItemsStay(check, s, e, identity, namespace);
    LoadingAdvances(check, s, e, identity, pid, namespace, acts);
  }

  lemma LoadingStarts(check: Check, s: System, identity: string, pid: nat, namespace: string)
    requires Inv(check, s, identity) && pid in s.processes
    requires s.processes[pid] == Loading(Record(identity, Some(namespace)), [])
    ensures StoredFor(check, s.store, identity, Some(namespace))
    ensures IsLoading(s, identity, pid, namespace, s.store, 0)
  {
    assert ProcessOk(check, s, identity, s.processes[pid]);
    assert StoredFor(check, s.store, identity, Some(namespace));
    assert ItemsOf(s.store, namespace)[..0] == [];
  }

  /** Whatever the other processes and other state directories do in between, a
      process that has read a namespaced record loads the three items stored under
      it and at its fourth action returns exactly these. */
  lemma {:induction false} MigratedSourceLoads(
      check: Check, states: seq<System>, events: seq<Event>, identity: string, i: nat, j: nat, pid: nat,
      namespace: string)
    requires IsRun(check, states, events) && Initial(check, states[0], identity) && i <= j < |states|
    requires Undisturbed(events[i..j], pid) && pid in states[i].processes
    requires states[i].processes[pid] == Loading(Record(identity, Some(namespace)), [])
    ensures StoredFor(check, states[i].store, identity, Some(namespace))
    ensures IsLoading(states[j], identity, pid, namespace, states[i].store, ActsOf(events[i..j], pid))
  {
    if i < j {
      OneEventLess(events, i, j, pid);
      MigratedSourceLoads(check, states, events, identity, i, j - 1, pid, namespace);
      RunKeepsInv(check, states, events, identity, j - 1);
      LoadingStep(check, states[j - 1], events[j - 1], identity, pid, namespace, states[i].store,
                  ActsOf(events[i..j - 1], pid));
    } else {
      RunKeepsInv(check, states, events, identity, i);
      LoadingStarts(check, states[i], identity, pid, namespace);
      assert events[i..j] == [];
    }
  }

  lemma OneEventLess(events: seq<Event>, i: nat, j: nat, pid: nat)
    requires i < j <= |events| && Undisturbed(events[i..j], pid)
    ensures Undisturbed(events[i..j - 1], pid) && Spares(events[j - 1], pid)
    ensures ActsOf(events[i..j], pid)
         == ActsOf(events[i..j - 1], pid) + if events[j - 1].Act? && events[j - 1].pid == pid then 1 else 0
  {
    var all, earlier := events[i..j], events[i..j - 1];
    assert all[..|all| - 1] == earlier && all[|all| - 1] == events[j - 1];
    assert forall k :: 0 <= k < |earlier| ==> earlier[k] == all[k];
  }

  lemma SameItemsOf(before: map<Reference, string>, after: map<Reference, string>, namespace: string)
    requires SameItems(before, after, namespace)
    ensures forall k: Kind :: Reference(k, Some(namespace)) in before && Reference(k, Some(namespace)) in after
    ensures ItemsOf(before, namespace) == ItemsOf(after, namespace)
  {
    assert forall k: Kind :: Reference(k, Some(namespace)) in before && Reference(k, Some(namespace)) in after;
  }

  /** A lone process of a migrated Source returns the three stored items at its
      fifth action and changes nothing. */
  lemma SoloRunReturns(check: Check, s: System, identity: string, pid: nat, namespace: string, unused: string)
    requires s.record == Some(Record(identity, Some(namespace))) && pid in s.processes && s.processes[pid].Reading?
    requires StoredFor(check, s.store, identity, Some(namespace)) && unused !in s.issued
    ensures Solo(check, s, pid, unused, 5)
         == Become(s, pid, Returned(Record(identity, Some(namespace)), ItemsOf(s.store, namespace)))
  {
    var record, items := Record(identity, Some(namespace)), ItemsOf(s.store, namespace);
    assert [] + [items[0]] == [items[0]] && [items[0]] + [items[1]] == [items[0], items[1]];
    assert [items[0], items[1]] + [items[2]] == items;
    SoloNext(check, s, pid, unused, 0);
    assert Solo(check, s, pid, unused, 1) == Become(s, pid, Loading(record, []));
    SoloNext(check, s, pid, unused, 1);
    assert Solo(check, s, pid, unused, 2) == Become(s, pid, Loading(record, [items[0]]));
    SoloNext(check, s, pid, unused, 2);
    assert Solo(check, s, pid, unused, 3) == Become(s, pid, Loading(record, [items[0], items[1]]));
    SoloNext(check, s, pid, unused, 3);
    assert Solo(check, s, pid, unused, 4) == Become(s, pid, Loading(record, items));
    SoloNext(check, s, pid, unused, 4);
  }

  // ----- when a process fails, and that the others return -----

  /** The process has failed, or will once its copies are removed. */
  predicate Fails(p: Process) {
    p.Failed? || (p.Removing? && p.outcome.Failed?)
  }

  /** The only reasons: the process is stopped, a call of its own fails, there is no
      record, or the account-global items it was to copy are gone or another's. */
  predicate HasCause(check: Check, s: System, e: Event, pid: nat)
    requires pid in s.processes
  {
    match e
    case ReplaceGlobal(_, _) => false
    case Stop(q) => q == pid
    case Act(q, ok, _) =>
      q == pid
      && match s.processes[pid]
         case Reading => !ok || s.record.None?
         case Loading(record, loaded) =>
           if |loaded| < 3 then !ok || (record.namespace.None? && Reference(|loaded|, None) !in s.store)
           else record.namespace.None? && !check(record.identity, loaded)
         case Removing(_, _, _, _) => false
         case _ => !ok
  }

  lemma LoadingFailsIffCause(
      check: Check, s: System, pid: nat, ok: bool, namespace: string, identity: string)
    requires Inv(check, s, identity) && Enabled(s, Act(pid, ok, namespace)) && s.processes[pid].Loading?
    ensures Fails(Step(check, s, Act(pid, ok, namespace)).processes[pid])
       <==> HasCause(check, s, Act(pid, ok, namespace), pid)
  {
    var p := s.processes[pid];
    assert ProcessOk(check, s, identity, p);
    if p.record.namespace.Some? {
      assert StoredFor(check, s.store, identity, p.record.namespace);
      assert |p.loaded| == 3 ==> p.loaded == ItemsOf(s.store, p.record.namespace.value);
    }
  }

  lemma OthersFailIffCause(
      check: Check, s: System, pid: nat, ok: bool, namespace: string, identity: string)
    requires Inv(check, s, identity) && Enabled(s, Act(pid, ok, namespace)) && !Fails(s.processes[pid])
    requires !s.processes[pid].Loading?
    ensures Fails(Step(check, s, Act(pid, ok, namespace)).processes[pid])
       <==> HasCause(check, s, Act(pid, ok, namespace), pid)
  {
    assert ProcessOk(check, s, identity, s.processes[pid]);
  }

  lemma FailsIffCause(check: Check, s: System, e: Event, identity: string, pid: nat)
    requires Inv(check, s, identity) && Enabled(s, e) && pid in s.processes && !Fails(s.processes[pid])
    ensures pid in Step(check, s, e).processes
    ensures Fails(Step(check, s, e).processes[pid]) <==> HasCause(check, s, e, pid)
  {
    if e.Act? && e.pid == pid {
      if s.processes[pid].Loading? {
        LoadingFailsIffCause(check, s, pid, e.ok, e.freshNamespace, identity);
      } else {
        OthersFailIffCause(check, s, pid, e.ok, e.freshNamespace, identity);
      }
    }
  }

  /** How many actions a process has left at most. */
  function Left(p: Process): nat {
    match p
    case Reading => 13
    case Loading(_, loaded) => if |loaded| < 3 then 12 - |loaded| else 9
    case Storing(_, _, _, written) => 8 - written
    case Rereading(_, _, _) => 5
    case Saving(_, _, _) => 4
    case Removing(_, removed, _, _) => if removed < 3 then 3 - removed else 1
    case Returned(_, _) => 0
    case Failed => 0
  }

  lemma ActionAdvances(check: Check, s: System, e: Event, identity: string, pid: nat)
    requires Inv(check, s, identity) && Enabled(s, e) && pid in s.processes
    ensures pid in Step(check, s, e).processes
    ensures Left(Step(check, s, e).processes[pid])
         <= Left(s.processes[pid]) - if e.Act? && e.pid == pid then 1 else 0
  {
    assert ProcessOk(check, s, identity, s.processes[pid]);
  }

  /** In any interleaving a process makes at most thirteen actions, and one that
      met no cause to fail and has none left to make has returned. */
  lemma {:induction false} SparedProcessReturns(
      check: Check, states: seq<System>, events: seq<Event>, identity: string, j: nat, pid: nat)
    requires IsRun(check, states, events) && Initial(check, states[0], identity) && j < |states|
    requires pid in states[0].processes
    requires forall k :: 0 <= k < j && pid in states[k].processes ==> !HasCause(check, states[k], events[k], pid)
    ensures pid in states[j].processes && !Fails(states[j].processes[pid])
    ensures ActsOf(events[..j], pid) + Left(states[j].processes[pid]) <= 13
    ensures Terminal(states[j].processes[pid]) ==> states[j].processes[pid].Returned?
  {
    if j > 0 {
      SparedProcessReturns(check, states, events, identity, j - 1, pid);
      RunKeepsInv(check, states, events, identity, j - 1);
      FailsIffCause(check, states[j - 1], events[j - 1], identity, pid);
      ActionAdvances(check, states[j - 1], events[j - 1], identity, pid);
      assert events[..j][..j - 1] == events[..j - 1];
    }
  }

  // ----- a recorded migration is replaced only in a race -----

  predicate IsMigrated(s: System) {
    s.record.Some? && s.record.value.namespace.Some?
  }

  /** The process rereads the record, successfully, and nobody has migrated yet. */
  predicate RereadsUnmigrated(s: System, e: Event, pid: nat) {
    e.Act? && e.pid == pid && e.ok && pid in s.processes && s.processes[pid].Rereading? && !IsMigrated(s)
  }

  lemma {:induction false} SavingHasReread(
      check: Check, states: seq<System>, events: seq<Event>, identity: string, k: nat, pid: nat)
    requires IsRun(check, states, events) && Initial(check, states[0], identity) && k < |states|
    requires pid in states[k].processes && states[k].processes[pid].Saving?
    ensures exists m :: 0 <= m < k && RereadsUnmigrated(states[m], events[m], pid)
  {
    if pid in states[k - 1].processes && states[k - 1].processes[pid].Saving? {
      SavingHasReread(check, states, events, identity, k - 1, pid);
    } else {
      RunKeepsInv(check, states, events, identity, k - 1);
      assert ProcessOk(check, states[k - 1], identity, states[k - 1].processes[pid]);
      assert RereadsUnmigrated(states[k - 1], events[k - 1], pid);
    }
  }

  /** Only a process that reread the record before anyone had migrated can replace a
      migrated record; one that sees the migration keeps it and withdraws its copies. */
  lemma MigrationReplacedOnlyInRace(
      check: Check, states: seq<System>, events: seq<Event>, identity: string, k: nat)
    requires IsRun(check, states, events) && Initial(check, states[0], identity) && k < |events|
    requires IsMigrated(states[k]) && states[k + 1].record != states[k].record
    ensures events[k].Act?
    ensures exists m :: 0 <= m < k && RereadsUnmigrated(states[m], events[m], events[k].pid)
  {
    SavingHasReread(check, states, events, identity, k, events[k].pid);
  }
}
