/**
  The append-local file format (src/domain/text-composition.ts): a marked
  Source payload followed by local text.
 */
module TextComposition {
  import opened Options
  import opened Binary
  import opened Sequences
  import opened Utf8

  /** An ASCII string as code units. */
  function Ascii(s: string): (text: Text)
    ensures |text| == |s|
    ensures forall i :: 0 <= i < |s| && s[i] as int < 0x80 ==> text[i] == s[i] as int
  {
    seq(|s|, i requires 0 <= i < |s| => if s[i] as int < 0x80 then s[i] as int else 0x3F)
  }

  const START_TEXT := "<!-- canonfig:source:start -->"
  const END_TEXT := "<!-- canonfig:source:end -->"
  const START: Text := Ascii(START_TEXT)
  const END: Text := Ascii(END_TEXT)
  const NEWLINE: Text := [0x0A]
  const LESS_THAN: Unit := 0x3C

  // ----- searching -----

  ghost predicate Contains(text: Text, part: Text) {
    exists at :: OccursAt(text, part, at)
  }

  /** `String.prototype.indexOf`: the first occurrence from a position, or -1. */
  function IndexOf(text: Text, part: Text, from: nat): (found: int)
    ensures found == -1 || (from <= found && OccursAt(text, part, found))
    ensures forall at :: from <= at && (found == -1 || at < found) ==> !OccursAt(text, part, at)
    decreases |text| - from
  {
    if from + |part| > |text| then -1
    else if text[from..from + |part|] == part then from
    else if from == |text| then -1
    else IndexOf(text, part, from + 1)
  }

  function ContainsSourceMarker(text: Text): (contains: bool)
    ensures contains <==> Contains(text, START) || Contains(text, END)
  {
    IndexOf(text, START, 0) != -1 || IndexOf(text, END, 0) != -1
  }

  // ----- publication checks -----

  datatype Issue = NulIssue | UnicodeIssue | MarkerIssue | Utf8Issue

  function SourceTextIssue(text: Text): Option<Issue> {
    if 0 in text then Some(NulIssue)
    else if Decode(Encode(text)) != Some(text) then Some(UnicodeIssue)
    else if ContainsSourceMarker(text) then Some(MarkerIssue)
    else None
  }

  function SourceBytesIssue(bytes: Bytes): Option<Issue> {
    var text := Decode(bytes);
    if text.None? then Some(Utf8Issue) else SourceTextIssue(text.value)
  }

  /** Text either side may contain: well formed, no NUL, no marker. */
  ghost predicate Admissible(text: Text) {
    0 !in text && WellFormed(text) && !Contains(text, START) && !Contains(text, END)
  }

  lemma NoIssueIffAdmissible(text: Text)
    ensures SourceTextIssue(text).None? <==> Admissible(text)
  {
    DecodeEncoded(text);
  }

  /** The issue named is the first of: a NUL, a lone surrogate, a marker. */
  lemma IssueNamesFault(text: Text)
    ensures SourceTextIssue(text) == Some(NulIssue) <==> 0 in text
    ensures SourceTextIssue(text) == Some(UnicodeIssue) <==> 0 !in text && !WellFormed(text)
    ensures SourceTextIssue(text) == Some(MarkerIssue)
       <==> 0 !in text && WellFormed(text) && (Contains(text, START) || Contains(text, END))
    ensures SourceTextIssue(text) != Some(Utf8Issue)
  {
    DecodeEncoded(text);
  }

  /** Bytes pass exactly when they are the encoding of admissible text; bytes that
      are no encoding are reported as such, whatever they contain. */
  lemma BytesPassIffEncodeAdmissible(bytes: Bytes)
    ensures SourceBytesIssue(bytes).None? <==> exists text :: Admissible(text) && bytes == Encode(text)
    ensures SourceBytesIssue(bytes) == Some(Utf8Issue) <==> forall text :: WellFormed(text) ==> bytes != Encode(text)
  {
    forall text | WellFormed(text) && bytes == Encode(text) ensures Decode(bytes) == Some(text) {
      DecodeEncoded(text);
    }
    if Decode(bytes).Some? {
      EncodeDecoded(bytes);
      NoIssueIffAdmissible(Decode(bytes).value);
      IssueNamesFault(Decode(bytes).value);
    }
  }

  // ----- the streaming check -----

  /** The last `n` units, or all of them. */
  function Last(text: Text, n: nat): Text {
    if |text| <= n then text else text[|text| - n..]
  }

  /** The longest marker's length minus one. */
  const CARRIED: nat := if |START| >= |END| then |START| - 1 else |END| - 1

  /** A window of the carried units and the new text sees exactly the new occurrences. */
  lemma WindowSeesMarker(seen: Text, text: Text, marker: Text)
    requires 0 < |marker| <= CARRIED + 1
    ensures Contains(seen + text, marker) <==> Contains(seen, marker) || Contains(Last(seen, CARRIED) + text, marker)
  {
    var rest := Last(seen, CARRIED);
    var before := seen[..|seen| - |rest|];
    assert before + rest == seen;
    OccursSplit(before, rest, text, marker);
  }

  /** A part too long for a marker to cross splits the occurrences in two. */
  lemma OccursSplit(before: Text, rest: Text, text: Text, marker: Text)
    requires 0 < |marker| && (before == [] || |marker| <= |rest| + 1)
    ensures Contains(before + rest + text, marker) <==> Contains(before + rest, marker) || Contains(rest + text, marker)
  {
    var all := before + rest + text;
    if at :| OccursAt(all, marker, at) {
      if at + |marker| <= |before + rest| {
        OccursInMiddlePart([], before + rest, text, marker, at);
        assert [] + (before + rest) + text == all;
      } else {
        OccursInMiddlePart(before, rest + text, [], marker, at);
        assert before + (rest + text) + [] == all;
      }
    }
    if at :| OccursAt(before + rest, marker, at) {
      OccursInMiddlePart([], before + rest, text, marker, at);
      assert [] + (before + rest) + text == all;
    }
    if at :| OccursAt(rest + text, marker, at) {
      OccursInMiddlePart(before, rest + text, [], marker, |before| + at);
      assert before + (rest + text) + [] == all;
    }
  }

  lemma OccursInMiddlePart(before: Text, part: Text, after: Text, marker: Text, at: int)
    requires |before| <= at && at + |marker| <= |before| + |part|
    ensures OccursAt(before + part + after, marker, at) <==> OccursAt(part, marker, at - |before|)
  {
    SliceOfMiddle(before, part, after, at - |before|, at - |before| + |marker|);
  }

  lemma LastOfWindow(seen: Text, text: Text, n: nat)
    ensures Last(Last(seen, n) + text, n) == Last(seen + text, n)
  {
  }

  /** Scanning the window makes the flags describe the longer text. */
  lemma WindowScanned(seen: Text, text: Text)
    ensures var window := Last(seen, CARRIED) + text;
              (ContainsSourceMarker(window) || Contains(seen, START) || Contains(seen, END)
               <==> Contains(seen + text, START) || Contains(seen + text, END))
              && Last(window, CARRIED) == Last(seen + text, CARRIED)
  {
    WindowSeesMarker(seen, text, START);
    WindowSeesMarker(seen, text, END);
    LastOfWindow(seen, text, CARRIED);
  }

  class ChunkScanner {
    var decoder: Decoder
    var previous: Text
    var nul: bool
    var marker: bool
    /** Everything decoded so far. */
    ghost var seen: Text

    constructor ()
      ensures Valid() && decoder == READY && seen == []
    {
      decoder, previous, nul, marker, seen := READY, [], false, false, [];
      new;
      assert !Contains(seen, START) && !Contains(seen, END);
    }

    /** `previous` is the last `CARRIED` units seen, and the flags describe all of them. */
    ghost predicate Valid()
      reads this
    {
      && previous == Last(seen, CARRIED)
      && (nul <==> 0 in seen)
      && (marker <==> Contains(seen, START) || Contains(seen, END))
    }

    method Scan(text: Text)
      requires Valid()
      modifies this
      ensures Valid() && seen == old(seen) + text && decoder == old(decoder)
    {
      var window := previous + text;
      WindowScanned(seen, text);
      nul := nul || 0 in text;
      marker := marker || ContainsSourceMarker(window);
      previous := Last(window, CARRIED);
      seen := seen + text;
    }

    /** Decode one chunk and scan it; false when the bytes are invalid. */
    method DecodeChunk(chunk: Bytes) returns (ok: bool)
      requires Valid()
      modifies this
      ensures ok <==> Stream(old(decoder), chunk).Some?
      ensures ok ==> Valid() && Stream(old(decoder), chunk).value.0 == decoder
      ensures ok ==> seen == old(seen) + Stream(old(decoder), chunk).value.1
    {
      var decoded := Stream(decoder, chunk);
      if decoded.None? {
        return false;
      }
      Scan(decoded.value.1);
      decoder := decoded.value.0;
      return true;
    }
  }

  /** However the bytes are cut into chunks, the answer is that of the whole;
      invalid UTF-8 wins even over what earlier chunks held. */
  method SourceChunksIssue(chunks: seq<Bytes>) returns (issue: Option<Issue>)
    ensures issue == SourceBytesIssue(Flatten(chunks))
  {
    var scanner := new ChunkScanner();
    for k := 0 to |chunks|
      invariant scanner.Valid()
      invariant Stream(READY, Flatten(chunks[..k])) == Some((scanner.decoder, scanner.seen))
    {
      assert chunks[..k + 1] == chunks[..k] + [chunks[k]];
      FlattenAppend(chunks[..k], chunks[k]);
      StreamConcat(READY, Flatten(chunks[..k]), chunks[k]);
      var ok := scanner.DecodeChunk(chunks[k]);
      if !ok {
        FlattenSplit(chunks, k + 1);
        StreamConcat(READY, Flatten(chunks[..k + 1]), Flatten(chunks[k + 1..]));
        return Some(Utf8Issue);
      }
    }
    assert chunks[..|chunks|] == chunks;
    if scanner.decoder.needed != 0 {
      return Some(Utf8Issue);
    }
    scanner.Scan([]);
    EncodeDecoded(Flatten(chunks));
    assert scanner.seen == Decode(Flatten(chunks)).value;
    DecodeEncoded(scanner.seen);
    return if scanner.nul then Some(NulIssue) else if scanner.marker then Some(MarkerIssue) else None;
  }

  lemma {:induction false} FlattenSplit(chunks: seq<Bytes>, k: nat)
    requires k <= |chunks|
    ensures Flatten(chunks) == Flatten(chunks[..k]) + Flatten(chunks[k..])
    decreases |chunks| - k
  {
    if k == |chunks| {
      assert chunks[..k] == chunks && Flatten(chunks[k..]) == [];
    } else {
      FlattenSplit(chunks, k + 1);
      assert chunks[..k + 1] == chunks[..k] + [chunks[k]];
      FlattenAppend(chunks[..k], chunks[k]);
      assert chunks[k..][1..] == chunks[k + 1..];
    }
  }

  // ----- the file format -----

  datatype Composition = Unmanaged(local: Text) | Managed(source: Text, local: Text)

  datatype ParseError = InvalidUtf8 | NulCharacters | Malformed | RepeatedMarkers

  const OPENING: Text := START + NEWLINE
  const CLOSING: Text := NEWLINE + END + NEWLINE + NEWLINE

  function ParseTextComposition(bytes: Bytes): Result<Composition, ParseError> {
    var decoded := Decode(bytes);
    if decoded.None? then Err(InvalidUtf8)
    else
      var text := decoded.value;
      if 0 in text then Err(NulCharacters)
      else if !ContainsSourceMarker(text) then Ok(Unmanaged(text))
      else
        var end := IndexOf(text, CLOSING, |OPENING|);
        if !(OPENING <= text) || end < 0 then Err(Malformed)
        else
          var source, local := text[|OPENING|..end], text[end + |CLOSING|..];
          if ContainsSourceMarker(source) || ContainsSourceMarker(local) then Err(RepeatedMarkers)
          else Ok(Managed(source, local))
  }

  function Composed(source: Text, local: Text): Text {
    OPENING + source + CLOSING + local
  }

  function ComposeTextFile(source: Text, current: Option<Composition>): Bytes {
    Encode(Composed(source, if current.Some? then current.value.local else []))
  }

  // ----- well-formedness across the joins -----

  lemma {:induction false} WellFormedConcat(a: Text, b: Text)
    requires WellFormed(a) && WellFormed(b)
    ensures WellFormed(a + b)
  {
    if a == [] {
      assert a + b == b;
    } else if StartsPair(a) {
      WellFormedConcat(a[2..], b);
      assert (a + b)[2..] == a[2..] + b;
    } else {
      WellFormedConcat(a[1..], b);
      assert (a + b)[1..] == a[1..] + b;
    }
  }

  /** Cutting well-formed text before an ASCII unit leaves both sides well formed. */
  lemma {:induction false} WellFormedCut(a: Text, b: Text)
    requires WellFormed(a + b) && (b == [] || b[0] < 0x80)
    ensures WellFormed(a) && WellFormed(b)
  {
    if a == [] {
      assert a + b == b;
    } else if StartsPair(a + b) {
      assert |a| >= 2;
      assert (a + b)[2..] == a[2..] + b;
      WellFormedCut(a[2..], b);
    } else {
      assert (a + b)[1..] == a[1..] + b;
      WellFormedCut(a[1..], b);
    }
  }

  ghost predicate IsAscii(text: Text) {
    forall i :: 0 <= i < |text| ==> 0 < text[i] < 0x80
  }

  lemma {:induction false} AsciiIsWellFormed(text: Text)
    requires IsAscii(text)
    ensures WellFormed(text)
  {
    if text != [] {
      AsciiIsWellFormed(text[1..]);
    }
  }

  /** Dropping an ASCII prefix from well-formed text leaves it well formed. */
  lemma {:induction false} WellFormedAfterAscii(a: Text, b: Text)
    requires WellFormed(a + b) && IsAscii(a)
    ensures WellFormed(b)
  {
    if a == [] {
      assert a + b == b;
    } else {
      assert (a + b)[0] == a[0] && (a + b)[1..] == a[1..] + b;
      WellFormedAfterAscii(a[1..], b);
    }
  }

  /** Each marker starts with the only `<` it holds, and neither holds a newline. */
  lemma MarkerShape()
    ensures |START| == 30 && |END| == 28 && IsAscii(START) && IsAscii(END)
    ensures START[0] == LESS_THAN && forall k :: 0 < k < |START| ==> START[k] != LESS_THAN
    ensures END[0] == LESS_THAN && forall k :: 0 < k < |END| ==> END[k] != LESS_THAN
    ensures 0x0A !in START && 0x0A !in END
  {
    assert forall k :: 0 <= k < |START_TEXT| ==> 0 < START_TEXT[k] as int < 0x80;
    assert forall k :: 0 <= k < |END_TEXT| ==> 0 < END_TEXT[k] as int < 0x80;
    assert forall k :: 0 < k < |START_TEXT| ==> START_TEXT[k] != '<' && START_TEXT[k] != 0x0A as char;
    assert forall k :: 0 < k < |END_TEXT| ==> END_TEXT[k] != '<' && END_TEXT[k] != 0x0A as char;
  }

  /** A window inside another starts where the offsets add up. */
  lemma OccursWithin(text: Text, part: Text, at: int, from: nat, to: nat)
    requires OccursAt(text, part, at) && from <= at && at + |part| <= to <= |text|
    ensures OccursAt(text[from..to], part, at - from)
  {
    OccurrenceAt(text, part, at);
    var found := text[from..to][at - from..at - from + |part|];
    assert forall k :: 0 <= k < |part| ==> found[k] == text[at + k];
  }

  /** An occurrence of a delimiter holds its middle part. */
  lemma OccursInMiddle(text: Text, before: Text, part: Text, after: Text, at: int)
    requires OccursAt(text, before + part + after, at)
    ensures OccursAt(text, part, at + |before|)
  {
    var whole := before + part + after;
    OccurrenceAt(text, whole, at);
    var found := text[at + |before|..at + |before| + |part|];
    assert forall k :: 0 <= k < |part| ==> found[k] == text[at + |before| + k] == whole[|before| + k];
  }

  // ----- composing then parsing -----

  lemma ComposedIsWellFormed(source: Text, local: Text)
    requires Admissible(source) && Admissible(local)
    ensures WellFormed(Composed(source, local)) && 0 !in Composed(source, local)
  {
    MarkerShape();
    AsciiIsWellFormed(OPENING);
    AsciiIsWellFormed(CLOSING);
    WellFormedConcat(OPENING, source);
    WellFormedConcat(OPENING + source, CLOSING);
    WellFormedConcat(OPENING + source + CLOSING, local);
    assert 0 !in OPENING && 0 !in CLOSING;
  }

  /** The end delimiter is found right after the source, never earlier. */
  lemma ClosingFoundAfterSource(source: Text, local: Text)
    requires !Contains(source, END)
    ensures IndexOf(Composed(source, local), CLOSING, |OPENING|) == |OPENING| + |source|
  {
    var text, found := Composed(source, local), |OPENING| + |source|;
    MarkerShape();
    assert text[found..found + |CLOSING|] == CLOSING;
    assert OccursAt(text, CLOSING, found);
    forall e | |OPENING| <= e < found
      ensures !OccursAt(text, CLOSING, e)
    {
      if OccursAt(text, CLOSING, e) {
        EarlierClosing(source, local, e);
        assert false;
      }
    }
  }

  /** An earlier end delimiter would put an end marker inside the source. */
  lemma EarlierClosing(source: Text, local: Text, e: nat)
    requires |OPENING| <= e < |OPENING| + |source| && OccursAt(Composed(source, local), CLOSING, e)
    ensures Contains(source, END)
  {
    var text, found := Composed(source, local), |OPENING| + |source|;
    assert text[found..found + |CLOSING|] == CLOSING;
    assert CLOSING == NEWLINE + END + (NEWLINE + NEWLINE);
    OccursInMiddle(text, NEWLINE, END, NEWLINE + NEWLINE, e);
    OccursInMiddle(text, NEWLINE, END, NEWLINE + NEWLINE, found);
    MarkerShape();
    OccurrencesApart(text, END, e + 1, found + 1);
    MarkerEndsBeforeNewline(text, END, e + 1, found);
    OccursWithin(text, END, e + 1, |OPENING|, found);
    assert text[|OPENING|..found] == source;
  }

  lemma MarkerEndsBeforeNewline(text: Text, marker: Text, at: int, newline: nat)
    requires OccursAt(text, marker, at) && 0x0A !in marker && |marker| > 0
    requires newline < |text| && text[newline] == 0x0A && at + |marker| <= newline + 1
    ensures at + |marker| <= newline
  {
    OccurrenceAt(text, marker, at);
    assert text[at + |marker| - 1] == marker[|marker| - 1] && marker[|marker| - 1] in marker;
  }

  /** Parsing a composition returns its source and its local text. */
  lemma ComposeThenParse(source: Text, current: Option<Composition>)
    requires Admissible(source) && (current.Some? ==> Admissible(current.value.local))
    ensures ParseTextComposition(ComposeTextFile(source, current))
         == Ok(Managed(source, if current.Some? then current.value.local else []))
  {
    var local: Text := if current.Some? then current.value.local else [];
    NothingIsAdmissible();
    ComposedIsWellFormed(source, local);
    DecodeEncoded(Composed(source, local));
    ClosingFoundAfterSource(source, local);
    ComposedParts(source, local);
  }

  lemma NothingIsAdmissible()
    ensures Admissible([])
  {
    MarkerShape();
  }

  /** Where the parts of a composed text stand. */
  lemma ComposedParts(source: Text, local: Text)
    ensures var text := Composed(source, local);
            OPENING <= text && Contains(text, START)
            && |OPENING| + |source| + |CLOSING| <= |text|
            && text[|OPENING|..|OPENING| + |source|] == source && text[|OPENING| + |source| + |CLOSING|..] == local
  {
    var text := Composed(source, local);
    assert text[..|START|] == START;
    assert OccursAt(text, START, 0);
  }

  // ----- parsing then composing -----

  lemma SplitAtDelimiters(text: Text, opening: Text, closing: Text, end: nat)
    requires opening <= text && |opening| <= end && OccursAt(text, closing, end)
    ensures text == opening + text[|opening|..end] + closing + text[end + |closing|..]
  {
    assert text == text[..|opening|] + text[|opening|..end] + text[end..end + |closing|] + text[end + |closing|..];
  }

  lemma ManagedPieces(bytes: Bytes)
    requires ParseTextComposition(bytes).Ok? && ParseTextComposition(bytes).value.Managed?
    ensures var parsed := ParseTextComposition(bytes).value;
              Decode(bytes) == Some(Composed(parsed.source, parsed.local))
              && 0 !in parsed.source && 0 !in parsed.local
              && !ContainsSourceMarker(parsed.source) && !ContainsSourceMarker(parsed.local)
  {
    var parsed, text := ParseTextComposition(bytes).value, Decode(bytes).value;
    SplitAtDelimiters(text, OPENING, CLOSING, IndexOf(text, CLOSING, |OPENING|));
  }

  lemma PiecesAreWellFormed(source: Text, local: Text)
    requires WellFormed(Composed(source, local))
    ensures WellFormed(source) && WellFormed(local)
  {
    var head, tail := OPENING + source, CLOSING + local;
    assert Composed(source, local) == head + tail;
    MarkerShape();
    WellFormedCut(head, tail);
    WellFormedAfterAscii(OPENING, source);
    WellFormedAfterAscii(CLOSING, local);
  }

  /** A managed file is the composition of what it parses to, and both parts are admissible. */
  lemma ManagedIsComposed(bytes: Bytes)
    requires ParseTextComposition(bytes).Ok? && ParseTextComposition(bytes).value.Managed?
    ensures var parsed := ParseTextComposition(bytes).value;
              Decode(bytes) == Some(Composed(parsed.source, parsed.local))
              && Admissible(parsed.source) && Admissible(parsed.local)
  {
    ManagedPieces(bytes);
    EncodeDecoded(bytes);
    var parsed := ParseTextComposition(bytes).value;
    PiecesAreWellFormed(parsed.source, parsed.local);
  }

  /** Composing what a managed file parses to rebuilds the file byte for byte. */
  lemma ParseThenCompose(bytes: Bytes)
    requires ParseTextComposition(bytes).Ok? && ParseTextComposition(bytes).value.Managed?
    ensures var parsed := ParseTextComposition(bytes).value;
              ComposeTextFile(parsed.source, Some(parsed)) == bytes && SourceTextIssue(parsed.source).None?
  {
    ManagedIsComposed(bytes);
    NoIssueIffAdmissible(ParseTextComposition(bytes).value.source);
    EncodeDecoded(bytes);
  }

  /** Any successfully parsed file has admissible local text. */
  lemma ParsedLocalIsAdmissible(bytes: Bytes)
    requires ParseTextComposition(bytes).Ok?
    ensures Admissible(ParseTextComposition(bytes).value.local)
  {
    EncodeDecoded(bytes);
    if ParseTextComposition(bytes).value.Managed? {
      ManagedIsComposed(bytes);
    }
  }

  // ----- every sequence of Source updates -----

  /** A file after publishing `sources` in turn, or the first parse error. */
  function AfterUpdates(bytes: Bytes, sources: seq<Text>): Result<Bytes, ParseError> {
    if sources == [] then Ok(bytes)
    else
      var before := AfterUpdates(bytes, sources[..|sources| - 1]);
      if before.Err? then before
      else
        var parsed := ParseTextComposition(before.value);
        if parsed.Err? then Err(parsed.error)
        else Ok(ComposeTextFile(sources[|sources| - 1], Some(parsed.value)))
  }

  /** Whatever the file held at first, managed or not, its local text survives
      every update and only the last source remains. */
  lemma {:induction false} UpdatesKeepLocalText(bytes: Bytes, sources: seq<Text>)
    requires ParseTextComposition(bytes).Ok? && sources != []
    requires forall k :: 0 <= k < |sources| ==> SourceTextIssue(sources[k]).None?
    ensures AfterUpdates(bytes, sources).Ok?
    ensures ParseTextComposition(AfterUpdates(bytes, sources).value)
         == Ok(Managed(sources[|sources| - 1], ParseTextComposition(bytes).value.local))
  {
    var earlier := sources[..|sources| - 1];
    NoIssueIffAdmissible(sources[|sources| - 1]);
    ParsedLocalIsAdmissible(bytes);
    if earlier == [] {
      ComposeThenParse(sources[|sources| - 1], Some(ParseTextComposition(bytes).value));
    } else {
      UpdatesKeepLocalText(bytes, earlier);
      ComposeThenParse(sources[|sources| - 1], Some(ParseTextComposition(AfterUpdates(bytes, earlier).value).value));
    }
  }

  // ----- the format, without the parser -----

  /** The bytes are local text that nobody has composed. */
  ghost predicate IsUnmanagedFile(bytes: Bytes, local: Text) {
    Admissible(local) && bytes == Encode(local)
  }

  /** The bytes are an opening line, a source, a closing line and local text. */
  ghost predicate IsManagedFile(bytes: Bytes, source: Text, local: Text) {
    && Admissible(source) && Admissible(local)
    && bytes == Encode(START + NEWLINE + source + NEWLINE + END + NEWLINE + NEWLINE + local)
  }

  lemma ComposedSpelled(source: Text, local: Text)
    ensures Composed(source, local) == START + NEWLINE + source + NEWLINE + END + NEWLINE + NEWLINE + local
  {
    assert START + NEWLINE + source + (NEWLINE + END + NEWLINE + NEWLINE)
        == START + NEWLINE + source + NEWLINE + END + NEWLINE + NEWLINE;
  }

  /** A file without markers is local text as a whole, and no other file is. */
  lemma UnmanagedIff(bytes: Bytes, local: Text)
    ensures ParseTextComposition(bytes) == Ok(Unmanaged(local)) <==> IsUnmanagedFile(bytes, local)
  {
    if Decode(bytes).Some? {
      EncodeDecoded(bytes);
    }
    if Admissible(local) {
      DecodeEncoded(local);
    }
  }

  /** A file is managed exactly when it is the two parts between the delimiters. */
  lemma ManagedIff(bytes: Bytes, source: Text, local: Text)
    ensures ParseTextComposition(bytes) == Ok(Managed(source, local)) <==> IsManagedFile(bytes, source, local)
  {
    ComposedSpelled(source, local);
    if ParseTextComposition(bytes) == Ok(Managed(source, local)) {
      ManagedIsComposed(bytes);
      EncodeDecoded(bytes);
    }
    if IsManagedFile(bytes, source, local) {
      ComposeThenParse(source, Some(Unmanaged(local)));
    }
  }

  /** A file is refused exactly when it is neither: no UTF-8, a NUL, or markers anywhere
      but around one source at the start. */
  lemma RefusedIffNeither(bytes: Bytes)
    ensures ParseTextComposition(bytes).Err?
       <==> (forall local :: !IsUnmanagedFile(bytes, local))
            && forall source, local :: !IsManagedFile(bytes, source, local)
    ensures ParseTextComposition(bytes) == Err(InvalidUtf8)
       <==> forall text :: WellFormed(text) ==> bytes != Encode(text)
    ensures ParseTextComposition(bytes) == Err(NulCharacters) <==> exists text :: WellFormed(text) && 0 in text
                                                                               && bytes == Encode(text)
  {
    forall local ensures ParseTextComposition(bytes) == Ok(Unmanaged(local)) <==> IsUnmanagedFile(bytes, local) {
      UnmanagedIff(bytes, local);
    }
    forall source, local
      ensures ParseTextComposition(bytes) == Ok(Managed(source, local)) <==> IsManagedFile(bytes, source, local)
    {
      ManagedIff(bytes, source, local);
    }
    forall text | WellFormed(text) && bytes == Encode(text) ensures Decode(bytes) == Some(text) {
      DecodeEncoded(text);
    }
    if Decode(bytes).Some? {
      EncodeDecoded(bytes);
    }
  }

  /** The bytes in front of the local text once a source is published. */
  function Head(source: Text): Bytes {
    Encode(START + NEWLINE + source + NEWLINE + END + NEWLINE + NEWLINE)
  }

  lemma HeadThenLocal(source: Text, local: Text)
    requires Admissible(source) && Admissible(local)
    ensures Encode(Composed(source, local)) == Head(source) + Encode(local)
    ensures IsManagedFile(Head(source) + Encode(local), source, local)
  {
    var head := START + NEWLINE + source + NEWLINE + END + NEWLINE + NEWLINE;
    ComposedSpelled(source, local);
    NothingIsAdmissible();
    ComposedIsWellFormed(source, []);
    ComposedSpelled(source, []);
    assert head + [] == head;
    EncodeConcat(head, local);
  }

  lemma PublishedFile(bytes: Bytes, sources: seq<Text>, local: Text)
    requires sources != [] && forall k :: 0 <= k < |sources| ==> Admissible(sources[k])
    requires ParseTextComposition(bytes).Ok? && ParseTextComposition(bytes).value.local == local
    ensures AfterUpdates(bytes, sources) == Ok(Head(sources[|sources| - 1]) + Encode(local))
  {
    forall k | 0 <= k < |sources| ensures SourceTextIssue(sources[k]).None? {
      NoIssueIffAdmissible(sources[k]);
    }
    UpdatesKeepLocalText(bytes, sources);
    ParsedLocalIsAdmissible(bytes);
    var after := AfterUpdates(bytes, sources).value;
    ParseThenCompose(after);
    HeadThenLocal(sources[|sources| - 1], local);
  }

  /** First adoption keeps the whole file: after any updates it stands unchanged,
      byte for byte, behind the last published source. */
  lemma AdoptionKeepsWholeFile(bytes: Bytes, local: Text, sources: seq<Text>)
    requires IsUnmanagedFile(bytes, local)
    requires sources != [] && forall k :: 0 <= k < |sources| ==> Admissible(sources[k])
    ensures AfterUpdates(bytes, sources) == Ok(Head(sources[|sources| - 1]) + bytes)
  {
    UnmanagedIff(bytes, local);
    PublishedFile(bytes, sources, local);
  }

  /** Updating a managed file replaces the source and keeps the bytes behind it. */
  lemma UpdatesReplaceHead(source: Text, tail: Bytes, local: Text, sources: seq<Text>)
    requires Admissible(source) && IsUnmanagedFile(tail, local)
    requires sources != [] && forall k :: 0 <= k < |sources| ==> Admissible(sources[k])
    ensures AfterUpdates(Head(source) + tail, sources) == Ok(Head(sources[|sources| - 1]) + tail)
  {
    HeadThenLocal(source, local);
    ManagedIff(Head(source) + tail, source, local);
    PublishedFile(Head(source) + tail, sources, local);
  }
}
