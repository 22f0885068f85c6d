/**
  The text whose size the metadata budget counts: `JSON.stringify` written out, in
  UTF-8 (src/profile/metadata-budget.ts; section 25.5.2 of ECMA-262 and RFC 3629).
  The measure of `metadata_budget.dfy` is proved to be the length of that text.
 */
module JsonText {
  import opened Options
  import opened MetadataBudget
  import Binary
  import Utf8
  import Visibility

  // ----- the text -----

  function HexDigit(n: nat): char
    requires n < 16
  {
    if n < 10 then n as char + '0' else (n - 10) as char + 'a'
  }

  /** One character inside a string. */
  function CharText(c: char): string {
    var code := c as int;
    if c == '"' then "\\\"" else if c == '\\' then "\\\\"
    else if code == 8 then "\\b" else if code == 9 then "\\t" else if code == 10 then "\\n"
    else if code == 12 then "\\f" else if code == 13 then "\\r"
    else if code < 0x20 then "\\u00" + [HexDigit(code / 16), HexDigit(code % 16)]
    else [c]
  }

  function StringBody(text: string): string {
    if text == "" then "" else CharText(text[0]) + StringBody(text[1..])
  }

  function Quoted(text: string): string {
    "\"" + StringBody(text) + "\""
  }

  function Stringify(json: Json): string {
    match json
    case Undefined => "null"
    case Null => "null"
    case Bool(value) => if value then "true" else "false"
    case Number(n) => Decimal(n)
    case Text(text) => Quoted(text)
    case List(items) => "[" + Items(items) + "]"
    case Record(fields) => "{" + Members(fields) + "}"
  }

  /** The items with a comma between each two. */
  function Items(items: seq<Json>): string {
    if items == [] then ""
    else if |items| == 1 then Stringify(items[0])
    else Stringify(items[0]) + "," + Items(items[1..])
  }

  function Member(f: Field): string {
    Quoted(f.name) + ":" + Stringify(f.content)
  }

  predicate AllUndefined(fields: seq<Field>) {
    forall f | f in fields :: f.content.Undefined?
  }

  /** The members that are defined, with a comma between each two. */
  function Members(fields: seq<Field>): string {
    if fields == [] then ""
    else if fields[0].content.Undefined? then Members(fields[1..])
    else if AllUndefined(fields[1..]) then Member(fields[0])
    else Member(fields[0]) + "," + Members(fields[1..])
  }

  /** The text in UTF-8, one scalar value after another. */
  function Encoded(text: string): Binary.Bytes {
    if text == "" then [] else Utf8.EncodeScalar(text[0] as int) + Encoded(text[1..])
  }

  // ----- its length -----

  lemma {:induction false} EncodedConcat(a: string, b: string)
    ensures |Encoded(a + b)| == |Encoded(a)| + |Encoded(b)|
  {
    if a == "" {
      assert a + b == b;
    } else {
      assert (a + b)[1..] == a[1..] + b;
      EncodedConcat(a[1..], b);
    }
  }

  lemma EncodedOne(c: char)
    ensures |Encoded([c])| == |Utf8.EncodeScalar(c as int)|
  {
    assert [c][1..] == "";
  }

  lemma {:induction false} EncodedAscii(text: string)
    requires forall i :: 0 <= i < |text| ==> text[i] as int < 0x80
    ensures |Encoded(text)| == |text|
  {
    if text != "" {
      EncodedAscii(text[1..]);
    }
  }

  lemma CharIsMeasured(c: char)
    ensures |Encoded(CharText(c))| == CharBytes(c)
  {
    if CharText(c) == [c] {
      EncodedOne(c);
    } else {
      EncodedAscii(CharText(c));
    }
  }

  lemma {:induction false} BodyIsMeasured(text: string)
    ensures |Encoded(StringBody(text))| == Escaped(text)
  {
    if text != "" {
      BodyIsMeasured(text[1..]);
      CharIsMeasured(text[0]);
      EncodedConcat(CharText(text[0]), StringBody(text[1..]));
    }
  }

  lemma QuotedIsMeasured(text: string)
    ensures |Encoded(Quoted(text))| == Escaped(text) + 2
  {
    BodyIsMeasured(text);
    EncodedConcat("\"" + StringBody(text), "\"");
    EncodedConcat("\"", StringBody(text));
    EncodedAscii("\"");
  }

  lemma {:induction false} DecimalIsMeasured(n: nat)
    ensures |Encoded(Decimal(n))| == DigitCount(n)
  {
    if n >= 10 {
      DecimalIsMeasured(n / 10);
      EncodedConcat(Decimal(n / 10), [(n % 10) as char + '0']);
      EncodedOne((n % 10) as char + '0');
    } else {
      EncodedOne(n as char + '0');
    }
  }

  lemma WrappedIsMeasured(open: string, inner: string, close: string)
    requires |open| == 1 == |close| && open[0] as int < 0x80 && close[0] as int < 0x80
    ensures |Encoded(open + inner + close)| == |Encoded(inner)| + 2
  {
    EncodedConcat(open + inner, close);
    EncodedConcat(open, inner);
    EncodedAscii(open);
    EncodedAscii(close);
  }

  lemma JoinedIsMeasured(first: string, rest: string)
    ensures |Encoded(first + "," + rest)| == |Encoded(first)| + 1 + |Encoded(rest)|
  {
    EncodedConcat(first + ",", rest);
    EncodedConcat(first, ",");
    EncodedAscii(",");
  }

  /** The measure counts exactly the bytes of the text. */
  lemma {:induction false} BytesAreOfText(json: Json)
    ensures |Encoded(Stringify(json))| == Bytes(json)
    decreases json, 1
  {
    match json
    case Undefined => EncodedAscii("null");
    case Null => EncodedAscii("null");
    case Bool(value) => EncodedAscii(if value then "true" else "false");
    case Number(n) => DecimalIsMeasured(n);
    case Text(text) => QuotedIsMeasured(text);
    case List(items) =>
      ItemsAreMeasured(items);
      WrappedIsMeasured("[", Items(items), "]");
    case Record(fields) =>
      MembersAreMeasured(fields);
      WrappedIsMeasured("{", Members(fields), "}");
  }

  lemma {:induction false} ItemsAreMeasured(items: seq<Json>)
    ensures ItemBytes(items) == if items == [] then 0 else |Encoded(Items(items))| + 1
    decreases items
  {
    if items != [] {
      BytesAreOfText(items[0]);
      ItemsAreMeasured(items[1..]);
      if |items| > 1 {
        JoinedIsMeasured(Stringify(items[0]), Items(items[1..]));
      }
    }
  }

  lemma MemberIsMeasured(f: Field)
    ensures |Encoded(Member(f))| == Escaped(f.name) + 3 + |Encoded(Stringify(f.content))|
  {
    QuotedIsMeasured(f.name);
    EncodedConcat(Quoted(f.name) + ":", Stringify(f.content));
    EncodedConcat(Quoted(f.name), ":");
    EncodedAscii(":");
  }

  lemma {:induction false} NothingIsMeasured(fields: seq<Field>)
    requires AllUndefined(fields)
    ensures FieldBytes(fields) == 0 && Members(fields) == ""
  {
    if fields != [] {
      assert fields[0] in fields && forall f :: f in fields[1..] ==> f in fields;
      NothingIsMeasured(fields[1..]);
    }
  }

  lemma {:induction false} MembersAreMeasured(fields: seq<Field>)
    ensures FieldBytes(fields) == if AllUndefined(fields) then 0 else |Encoded(Members(fields))| + 1
    ensures AllUndefined(fields) ==> Members(fields) == ""
    decreases fields
  {
    if AllUndefined(fields) {
      NothingIsMeasured(fields);
    } else {
      var first, rest := fields[0], fields[1..];
      assert forall f :: f in fields <==> f == first || f in rest;
      MembersAreMeasured(rest);
      if !first.content.Undefined? {
        BytesAreOfText(first.content);
        MemberIsMeasured(first);
        if !AllUndefined(rest) {
          JoinedIsMeasured(Member(first), Members(rest));
        }
      }
    }
  }

  // ----- what the budget promises of the text -----

  /** A profile is admitted exactly when the envelope with its reserves, written out,
      is no longer than the transport takes. */
  lemma AdmittedIffTextFits(input: MetadataInput)
    ensures var bytes := |Encoded(Stringify(EnvelopeJson(Budgeted(input))))|;
            AssertProfileMetadataBudget(input) == if bytes <= 1048576 then Ok(bytes) else Err(bytes)
  {
    BytesAreOfText(EnvelopeJson(Budgeted(input)));
  }

  /** Once a profile is admitted, the metadata of every follower's projection, written
      out, can be sent. */
  lemma AdmittedProjectionsAreSent(input: MetadataInput, e: Envelope, groups: set<string>)
    requires |Encoded(Stringify(EnvelopeJson(Budgeted(input))))| <= 1048576 && Fits(e, input)
    requires e.resources == ResourcesJson(Visibility.Projection(input.resources, groups))
    ensures |Encoded(Stringify(EnvelopeJson(e)))| <= 1048576
  {
    AdmittedIffTextFits(input);
    ProjectionFitsBudget(input, e, groups);
    BytesAreOfText(EnvelopeJson(e));
  }
}
