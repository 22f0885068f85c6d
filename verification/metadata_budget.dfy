/**
  The size of the metadata a follower receives against the size publication
  budgets for it (`assertProfileMetadataBudget`, src/profile/metadata-budget.ts;
  the envelope of `getAuthorizedRevision`, src/enrollment/enrollment.layer.ts).
 */
module MetadataBudget {
  import opened Options
  import opened Visibility
  import Binary

  const MAXIMUM_METADATA_BYTES: nat := 1024 * 1024

  // ----- JSON.stringify, measured -----

  datatype Json =
    | Undefined | Null | Bool(value: bool) | Number(n: nat) | Text(text: string)
    | List(items: seq<Json>) | Record(fields: seq<Field>)

  datatype Field = Field(name: string, content: Json)

  /** Bytes of one character inside a JSON string, in UTF-8. */
  function CharBytes(c: char): nat {
    var code := c as int;
    if c == '"' || c == '\\' || code == 8 || code == 9 || code == 10 || code == 12 || code == 13 then 2
    else if code < 0x20 then 6
    else if code < 0x80 then 1
    else if code < 0x800 then 2
    else if code < 0x1_0000 then 3
    else 4
  }

  function Escaped(text: string): nat {
    if text == "" then 0 else CharBytes(text[0]) + Escaped(text[1..])
  }

  function DigitCount(n: nat): nat {
    if n < 10 then 1 else DigitCount(n / 10) + 1
  }

  /** The bytes of the items, each with a comma after it. */
  function ItemBytes(items: seq<Json>): nat {
    if items == [] then 0 else Bytes(items[0]) + 1 + ItemBytes(items[1..])
  }

  /** The bytes of the members, each with its name, a colon and a comma; undefined members are left out. */
  function FieldBytes(fields: seq<Field>): nat {
    if fields == [] then 0
    else
      (if fields[0].content.Undefined? then 0 else Escaped(fields[0].name) + 4 + Bytes(fields[0].content))
      + FieldBytes(fields[1..])
  }

  /** Brackets around the items, and no comma after the last. */
  function Bracketed(bytes: nat): nat {
    if bytes == 0 then 2 else bytes + 1
  }

  /** `Buffer.byteLength(JSON.stringify(json))`; an undefined item of a list is written as `null`. */
  function Bytes(json: Json): nat {
    match json
    case Undefined => 4
    case Null => 4
    case Bool(value) => if value then 4 else 5
    case Number(n) => DigitCount(n)
    case Text(text) => Escaped(text) + 2
    case List(items) => Bracketed(ItemBytes(items))
    case Record(fields) => Bracketed(FieldBytes(fields))
  }

  // ----- the envelope -----

  datatype Envelope = Envelope(
    id: string, profileId: string, sequence: nat, digest: string, publishedAt: string, resources: seq<Json>,
    scheduleDefault: Json,
    signingKeyId: string, signingPublicKey: string, sourceSignature: string, metadataDigest: string, signature: string)

  function EnvelopeJson(e: Envelope): Json {
    Record([
      Field("id", Text(e.id)), Field("profileId", Text(e.profileId)), Field("sequence", Number(e.sequence)),
      Field("digest", Text(e.digest)), Field("publishedAt", Text(e.publishedAt)), Field("resources", List(e.resources)),
      Field("scheduleDefault", e.scheduleDefault), Field("signingKeyId", Text(e.signingKeyId)),
      Field("signingPublicKey", Text(e.signingPublicKey)), Field("sourceSignature", Text(e.sourceSignature)),
      Field("metadataDigest", Text(e.metadataDigest)), Field("signature", Text(e.signature))])
  }

  /** A published resource; the payload holds the members authorization never changes. */
  function ResourceJson(r: Resource<seq<Field>>): Json {
    Record(r.payload + [
      Field("id", Text(r.id)), Field("dependsOn", List(Texts(r.dependsOn))),
      Field("groups", if r.groups.None? then Undefined else List(Texts(r.groups.value)))])
  }

  function Texts(names: seq<string>): seq<Json> {
    if names == [] then [] else [Text(names[0])] + Texts(names[1..])
  }

  function ResourcesJson(rs: seq<Resource<seq<Field>>>): seq<Json> {
    if rs == [] then [] else [ResourceJson(rs[0])] + ResourcesJson(rs[1..])
  }

  // ----- the budget -----

  datatype MetadataInput = MetadataInput(
    profileId: string, resources: seq<Resource<seq<Field>>>, scheduleDefault: Json, id: Option<string>,
    sequence: Option<nat>,
    publishedAt: Option<string>, signingKeyId: Option<string>, sourceSignature: Option<string>)

  function Zeros(n: nat): string {
    if n == 0 then "" else ['0'] + Zeros(n - 1)
  }

  function Decimal(n: nat): string {
    if n < 10 then [n as char + '0'] else Decimal(n / 10) + [(n % 10) as char + '0']
  }

  function Or<T>(value: Option<T>, reserve: T): T {
    if value.Some? then value.value else reserve
  }

  /** The envelope publication measures: what it knows, and a reserve for the rest. */
  function Budgeted(input: MetadataInput): Envelope {
    Envelope(
      Or(input.id, input.profileId + ":" + Zeros(64) + ":" + Decimal(Binary.MAX_SAFE_INTEGER)), input.profileId,
      Or(input.sequence, Binary.MAX_SAFE_INTEGER), Zeros(64), Or(input.publishedAt, Zeros(128)),
      ResourcesJson(input.resources),
      input.scheduleDefault, Or(input.signingKeyId, Zeros(512)), Zeros(512), Or(input.sourceSignature, Zeros(256)),
      Zeros(64), Zeros(256))
  }

  function AssertProfileMetadataBudget(input: MetadataInput): Result<nat, nat> {
    var bytes := Bytes(EnvelopeJson(Budgeted(input)));
    if bytes > MAXIMUM_METADATA_BYTES then Err(bytes) else Ok(bytes)
  }

  /** Each member of the signed envelope fits what was budgeted for it. */
  predicate Fits(e: Envelope, input: MetadataInput) {
    && e.profileId == input.profileId && e.scheduleDefault == input.scheduleDefault
    && (if input.id.Some? then e.id == input.id.value else Escaped(e.id) <= Escaped(input.profileId) + 82)
    && (if input.sequence.Some? then e.sequence == input.sequence.value else e.sequence <= Binary.MAX_SAFE_INTEGER)
    && (if input.publishedAt.Some? then e.publishedAt == input.publishedAt.value else Escaped(e.publishedAt) <= 128)
    && (if input.signingKeyId.Some? then e.signingKeyId == input.signingKeyId.value else Escaped(e.signingKeyId) <= 512)
    && (if input.sourceSignature.Some? then e.sourceSignature == input.sourceSignature.value
        else Escaped(e.sourceSignature) <= 256)
    && Escaped(e.digest) <= 64 && Escaped(e.signingPublicKey) <= 512 && Escaped(e.metadataDigest) <= 64
        && Escaped(e.signature) <= 256
  }

  // ----- sizes -----

  lemma {:induction false} EscapedConcat(a: string, b: string)
    ensures Escaped(a + b) == Escaped(a) + Escaped(b)
  {
    if a == "" {
      assert a + b == b;
    } else {
      assert (a + b)[1..] == a[1..] + b;
      EscapedConcat(a[1..], b);
    }
  }

  lemma {:induction false} EscapedZeros(n: nat)
    ensures Escaped(Zeros(n)) == n
  {
    if n > 0 {
      EscapedZeros(n - 1);
      assert Zeros(n)[1..] == Zeros(n - 1);
    }
  }

  lemma {:induction false} EscapedDecimal(n: nat)
    ensures Escaped(Decimal(n)) == DigitCount(n)
  {
    if n >= 10 {
      EscapedDecimal(n / 10);
      var last := [(n % 10) as char + '0'];
      EscapedConcat(Decimal(n / 10), last);
      assert Escaped(last) == 1 by {
        assert last[1..] == "";
      }
    } else {
      assert Decimal(n)[1..] == "";
    }
  }

  lemma {:induction false} DigitCountGrows(a: nat, b: nat)
    requires a <= b
    ensures DigitCount(a) <= DigitCount(b)
  {
    if a >= 10 {
      DigitCountGrows(a / 10, b / 10);
    }
  }

  lemma LargestNumber()
    ensures DigitCount(Binary.MAX_SAFE_INTEGER) == 16
  {
    assert DigitCount(9007199254740991 / 100000000) == 8;
    assert DigitCount(90071992) == 8;
  }

  lemma {:induction false} FieldBytesConcat(a: seq<Field>, b: seq<Field>)
    ensures FieldBytes(a + b) == FieldBytes(a) + FieldBytes(b)
  {
    if a == [] {
      assert a + b == b;
    } else {
      assert (a + b)[1..] == a[1..] + b;
      FieldBytesConcat(a[1..], b);
    }
  }

  // ----- projection only shrinks -----

  lemma {:induction false} KeptGroupsAreSmaller(names: seq<string>, groups: set<string>)
    ensures ItemBytes(Texts(KeepGroups(names, groups))) <= ItemBytes(Texts(names))
  {
    if names != [] {
      KeptGroupsAreSmaller(names[1..], groups);
      var rest := KeepGroups(names[1..], groups);
      if names[0] in groups {
        assert KeepGroups(names, groups)[1..] == rest;
        assert Texts(KeepGroups(names, groups)) == [Text(names[0])] + Texts(rest);
      } else {
        assert KeepGroups(names, groups) == rest;
      }
    }
  }

  lemma NarrowedIsSmaller(r: Resource<seq<Field>>, groups: set<string>)
    ensures Bytes(ResourceJson(Narrow(r, groups))) <= Bytes(ResourceJson(r))
  {
    if r.groups.Some? {
      KeptGroupsAreSmaller(r.groups.value, groups);
      GroupsDecideSize(r, r.groups.value);
      GroupsDecideSize(Narrow(r, groups), KeepGroups(r.groups.value, groups));
    }
  }

  lemma GroupsDecideSize(r: Resource<seq<Field>>, names: seq<string>)
    requires r.groups == Some(names)
    ensures Bytes(ResourceJson(r))
         == Bracketed(FieldBytes(r.payload + [Field("id", Text(r.id)), Field("dependsOn", List(Texts(r.dependsOn)))])
                      + Escaped("groups") + 4 + Bracketed(ItemBytes(Texts(names))))
  {
    var rest, last := r.payload + [Field("id", Text(r.id)), Field("dependsOn", List(Texts(r.dependsOn)))],
        [Field("groups", List(Texts(names)))];
    FieldBytesConcat(rest, last);
    assert ResourceJson(r).fields == rest + last;
    assert last[1..] == [];
  }

  lemma {:induction false} ProjectedIsSmaller(rs: seq<Resource<seq<Field>>>, ids: set<string>, groups: set<string>)
    ensures ItemBytes(ResourcesJson(NarrowAll(Select(rs, ids), groups))) <= ItemBytes(ResourcesJson(rs))
  {
    if rs != [] {
      ProjectedIsSmaller(rs[1..], ids, groups);
      var rest := Select(rs[1..], ids);
      assert ResourcesJson(rs)[1..] == ResourcesJson(rs[1..]);
      if rs[0].id in ids {
        NarrowedIsSmaller(rs[0], groups);
        assert Select(rs, ids)[1..] == rest;
        assert NarrowAll(Select(rs, ids), groups)[1..] == NarrowAll(rest, groups);
        assert ResourcesJson(NarrowAll(Select(rs, ids), groups))[1..] == ResourcesJson(NarrowAll(rest, groups));
      } else {
        assert Select(rs, ids) == rest;
      }
    }
  }

  // ----- the envelope stays within the budget -----

  /** Member by member, `a` has the names of `b` and is no larger. */
  ghost predicate AreNoLarger(a: seq<Field>, b: seq<Field>) {
    |a| == |b| && forall i :: 0 <= i < |a| ==> IsNoLarger(a[i], b[i])
  }

  ghost predicate IsNoLarger(a: Field, b: Field) {
    a.name == b.name && (a.content.Undefined? <==> b.content.Undefined?) && Bytes(a.content) <= Bytes(b.content)
  }

  lemma {:induction false} NoLargerFields(a: seq<Field>, b: seq<Field>)
    requires AreNoLarger(a, b)
    ensures FieldBytes(a) <= FieldBytes(b)
  {
    if a != [] {
      assert IsNoLarger(a[0], b[0]);
      NoLargerFields(a[1..], b[1..]);
    }
  }

  /** Every member of one envelope is no larger than that of the other. */
  ghost predicate IsWithin(e: Envelope, budget: Envelope) {
    && Escaped(e.id) <= Escaped(budget.id) && Escaped(e.profileId) <= Escaped(budget.profileId)
    && DigitCount(e.sequence) <= DigitCount(budget.sequence) && Escaped(e.digest) <= Escaped(budget.digest)
    && Escaped(e.publishedAt) <= Escaped(budget.publishedAt) && ItemBytes(e.resources) <= ItemBytes(budget.resources)
    && e.scheduleDefault == budget.scheduleDefault && Escaped(e.signingKeyId) <= Escaped(budget.signingKeyId)
    && Escaped(e.signingPublicKey) <= Escaped(budget.signingPublicKey)
        && Escaped(e.sourceSignature) <= Escaped(budget.sourceSignature)
    && Escaped(e.metadataDigest) <= Escaped(budget.metadataDigest) && Escaped(e.signature) <= Escaped(budget.signature)
  }

  lemma MembersAreNoLarger(e: Envelope, budget: Envelope)
    requires IsWithin(e, budget)
    ensures AreNoLarger(EnvelopeJson(e).fields, EnvelopeJson(budget).fields)
  {
    var a, b := EnvelopeJson(e).fields, EnvelopeJson(budget).fields;
    forall i | 0 <= i < |a|
      ensures IsNoLarger(a[i], b[i])
    {
      MemberIsNoLarger(e, budget, i);
    }
  }

  lemma MemberIsNoLarger(e: Envelope, budget: Envelope, i: nat)
    requires IsWithin(e, budget) && i < 12
    ensures IsNoLarger(EnvelopeJson(e).fields[i], EnvelopeJson(budget).fields[i])
  {
    match i
    case 0 => TextIsNoLarger("id", e.id, budget.id);
    case 1 => TextIsNoLarger("profileId", e.profileId, budget.profileId);
    case 2 => NumberIsNoLarger("sequence", e.sequence, budget.sequence);
    case 3 => TextIsNoLarger("digest", e.digest, budget.digest);
    case 4 => TextIsNoLarger("publishedAt", e.publishedAt, budget.publishedAt);
    case 5 => ListIsNoLarger("resources", e.resources, budget.resources);
    case 6 => assert e.scheduleDefault == budget.scheduleDefault;
    case 7 => TextIsNoLarger("signingKeyId", e.signingKeyId, budget.signingKeyId);
    case 8 => TextIsNoLarger("signingPublicKey", e.signingPublicKey, budget.signingPublicKey);
    case 9 => TextIsNoLarger("sourceSignature", e.sourceSignature, budget.sourceSignature);
    case 10 => TextIsNoLarger("metadataDigest", e.metadataDigest, budget.metadataDigest);
    case _ => TextIsNoLarger("signature", e.signature, budget.signature);
  }

  lemma TextIsNoLarger(name: string, a: string, b: string)
    requires Escaped(a) <= Escaped(b)
    ensures IsNoLarger(Field(name, Text(a)), Field(name, Text(b)))
  {
  }

  lemma NumberIsNoLarger(name: string, a: nat, b: nat)
    requires DigitCount(a) <= DigitCount(b)
    ensures IsNoLarger(Field(name, Number(a)), Field(name, Number(b)))
  {
  }

  lemma ListIsNoLarger(name: string, a: seq<Json>, b: seq<Json>)
    requires ItemBytes(a) <= ItemBytes(b)
    ensures IsNoLarger(Field(name, List(a)), Field(name, List(b)))
  {
  }

  lemma WithinIsNoLarger(e: Envelope, budget: Envelope)
    requires IsWithin(e, budget)
    ensures Bytes(EnvelopeJson(e)) <= Bytes(EnvelopeJson(budget))
  {
    var a, b := EnvelopeJson(e).fields, EnvelopeJson(budget).fields;
    MembersAreNoLarger(e, budget);
    NoLargerFields(a, b);
    RecordIsNoLarger(a, b);
  }

  lemma RecordIsNoLarger(a: seq<Field>, b: seq<Field>)
    requires FieldBytes(a) <= FieldBytes(b)
    ensures Bytes(Record(a)) <= Bytes(Record(b))
  {
  }

  /** The reserves, measured. */
  lemma ReserveBytes(profileId: string)
    ensures Escaped(profileId + ":" + Zeros(64) + ":" + Decimal(Binary.MAX_SAFE_INTEGER)) == Escaped(profileId) + 82
    ensures Escaped(Zeros(64)) == 64 && Escaped(Zeros(128)) == 128 && Escaped(Zeros(256)) == 256
    ensures Escaped(Zeros(512)) == 512
  {
    EscapedId(profileId, Zeros(64), Binary.MAX_SAFE_INTEGER);
    LargestNumber();
    EscapedZeros(64);
    EscapedZeros(128);
    EscapedZeros(256);
    EscapedZeros(512);
  }

  lemma EscapedId(profileId: string, digest: string, sequence: nat)
    ensures Escaped(profileId + ":" + digest) == Escaped(profileId) + 1 + Escaped(digest)
    ensures Escaped(profileId + ":" + digest + ":" + Decimal(sequence))
         == Escaped(profileId) + 2 + Escaped(digest) + DigitCount(sequence)
  {
    assert Escaped(":") == 1 by {
      assert ":"[1..] == "";
    }
    EscapedConcat(profileId, ":");
    EscapedConcat(profileId + ":", digest);
    EscapedConcat(profileId + ":" + digest, ":");
    EscapedConcat(profileId + ":" + digest + ":", Decimal(sequence));
    EscapedDecimal(sequence);
  }

  /** A revision id, with or without its sequence, fits its reserve. */
  lemma RevisionIdFits(profileId: string, digest: string, sequence: nat)
    requires Escaped(digest) <= 64 && sequence <= Binary.MAX_SAFE_INTEGER
    ensures Escaped(profileId + ":" + digest) <= Escaped(profileId) + 82
    ensures Escaped(profileId + ":" + digest + ":" + Decimal(sequence)) <= Escaped(profileId) + 82
  {
    EscapedId(profileId, digest, sequence);
    DigitCountGrows(sequence, Binary.MAX_SAFE_INTEGER);
    LargestNumber();
  }

  lemma FittingIsWithin(e: Envelope, input: MetadataInput)
    requires Fits(e, input) && ItemBytes(e.resources) <= ItemBytes(ResourcesJson(input.resources))
    ensures IsWithin(e, Budgeted(input))
  {
    ReserveBytes(input.profileId);
    if input.sequence.None? {
      DigitCountGrows(e.sequence, Binary.MAX_SAFE_INTEGER);
    }
  }

  /** Once the budget admits a profile, the metadata of every projection stays
      within the budgeted size, and so within the transport limit. */
  lemma ProjectionFitsBudget(input: MetadataInput, e: Envelope, groups: set<string>)
    requires AssertProfileMetadataBudget(input).Ok? && Fits(e, input)
    requires e.resources == ResourcesJson(Projection(input.resources, groups))
    ensures Bytes(EnvelopeJson(e)) <= AssertProfileMetadataBudget(input).value <= MAXIMUM_METADATA_BYTES
  {
    ProjectedIsSmaller(input.resources, VisibleIds(input.resources, groups), groups);
    FittingIsWithin(e, input);
    WithinIsNoLarger(e, Budgeted(input));
  }

  /** What passes with reserves passes again with any values that fit them. */
  lemma PublicationFitsCompilation(compiled: MetadataInput, published: MetadataInput)
    requires compiled.id.None? && compiled.sequence.None? && compiled.publishedAt.None? && compiled.signingKeyId.None?
    requires compiled.sourceSignature.None?
    requires published.profileId == compiled.profileId && published.resources == compiled.resources
    requires published.scheduleDefault == compiled.scheduleDefault && Fits(Budgeted(published), compiled)
    ensures AssertProfileMetadataBudget(compiled).Ok? ==> AssertProfileMetadataBudget(published).Ok?
  {
    FittingIsWithin(Budgeted(published), compiled);
    WithinIsNoLarger(Budgeted(published), Budgeted(compiled));
  }
}
