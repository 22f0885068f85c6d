/**
  Redaction of known values (src/cli/redaction.ts, `renderRanges`,
  `literalRanges` and `redactKnownValues`).

  The program collects ranges of text, sorts and merges them, and writes one
  marker per merged range. The model proves that this equals a definition with no
  ranges at all: a position is hidden when it lies in some occurrence of a secret
  or of a marker, and each maximal run of hidden positions becomes one marker.
 */
module Redaction {
  import opened Options
  import opened Sequences
  import opened Sorting

  const MARKER: string := "[REDACTED]"

  datatype Range = Range(start: nat, end: nat)

  // ----- what redaction means -----

  /** What must be hidden: markers already there, and every non-empty secret. */
  ghost predicate IsHidden(secrets: set<string>, part: string) {
    part == MARKER || (part in secrets && part != "")
  }

  ghost predicate Covers(text: string, part: string, at: int, position: int) {
    OccursAt(text, part, at) && at <= position < at + |part|
  }

  ghost predicate Covered(text: string, secrets: set<string>, position: int) {
    exists part, at :: IsHidden(secrets, part) && Covers(text, part, at, position)
  }

  ghost function Mask(text: string, secrets: set<string>): (mask: seq<bool>)
    ensures |mask| == |text|
    ensures forall i :: 0 <= i < |text| ==> mask[i] == Covered(text, secrets, i)
  {
    seq(|text|, i requires 0 <= i < |text| => Covered(text, secrets, i))
  }

  /** What position `i` adds to the output. */
  ghost function Written(text: string, mask: seq<bool>, i: nat): string
    requires i < |text| == |mask|
  {
    if !mask[i] then [text[i]] else if i > 0 && mask[i - 1] then "" else MARKER
  }

  /** The first `n` positions written out: kept characters, and one marker where
      each run of masked positions begins. */
  ghost function Rendered(text: string, mask: seq<bool>, n: nat): string
    requires n <= |text| == |mask|
  {
    if n == 0 then "" else Rendered(text, mask, n - 1) + Written(text, mask, n - 1)
  }

  ghost function Redacted(text: string, secrets: set<string>): string {
    Rendered(text, Mask(text, secrets), |text|)
  }

  /** `new Set(secrets)`. */
  function Values(secrets: seq<string>): set<string> {
    set s | s in secrets
  }

  // ----- searching -----

  /** `String.prototype.indexOf` from a position. */
  method IndexOf(text: string, part: string, from: nat) returns (found: int)
    requires part != ""
    ensures found == -1 || (from <= found && OccursAt(text, part, found))
    ensures forall at :: from <= at && (found == -1 || at < found) ==> !OccursAt(text, part, at)
  {
    var at := from;
    while at + |part| <= |text|
      invariant from <= at
      invariant forall k :: from <= k < at ==> !OccursAt(text, part, k)
    {
      if text[at..at + |part|] == part {
        return at;
      }
      at := at + 1;
    }
    return -1;
  }

  // ----- ranges -----

  ghost predicate InRange(r: Range, position: int) {
    r.start <= position < r.end
  }

  ghost predicate InSome(ranges: seq<Range>, position: int) {
    exists r :: r in ranges && InRange(r, position)
  }

  /** Nonempty and inside the text. */
  ghost predicate AllInside(ranges: seq<Range>, length: nat) {
    forall r :: r in ranges ==> r.start < r.end <= length
  }

  ghost predicate ByStart(ranges: seq<Range>) {
    forall i, j :: 0 <= i < j < |ranges| ==> ranges[i].start <= ranges[j].start
  }

  /** Sorted, with at least one kept position between neighbours. */
  ghost predicate Apart(ranges: seq<Range>) {
    forall i, j :: 0 <= i < j < |ranges| ==> ranges[i].end < ranges[j].start
  }

  /** The comparison `renderRanges` sorts by: start, then the longer range first. */
  predicate Before(a: Range, b: Range) {
    a.start < b.start || (a.start == b.start && a.end >= b.end)
  }

  function Later(a: nat, b: nat): nat {
    if a >= b then a else b
  }

  // ----- the program's loops -----

  method MarkerRanges(text: string) returns (markers: seq<Range>)
    ensures AllInside(markers, |text|)
    ensures forall r :: r in markers ==> OccursAt(text, MARKER, r.start) && r.end == r.start + |MARKER|
    ensures forall at :: OccursAt(text, MARKER, at) ==> Range(at, at + |MARKER|) in markers
  {
    markers := [];
    var start := IndexOf(text, MARKER, 0);
    while start != -1
      invariant start == -1 || OccursAt(text, MARKER, start)
      invariant AllInside(markers, |text|)
      invariant forall r :: r in markers ==> OccursAt(text, MARKER, r.start) && r.end == r.start + |MARKER|
      invariant forall at :: OccursAt(text, MARKER, at) && (start == -1 || at < start) ==>
                  Range(at, at + |MARKER|) in markers
      decreases start != -1, |text| - start
    {
      ghost var here := start;
      markers := markers + [Range(start, start + |MARKER|)];
      start := IndexOf(text, MARKER, start + |MARKER|);
      forall at | OccursAt(text, MARKER, at) && here < at < here + |MARKER| ensures false {
        OccurrencesApart(text, MARKER, here, at);
      }
    }
  }

  /** The coalesced occurrences of one secret that no existing marker contains. */
  method SecretRanges(text: string, secret: string, markers: seq<Range>) returns (ranges: seq<Range>)
    requires secret != "" && AllInside(markers, |text|)
    ensures AllInside(ranges, |text|)
    ensures forall i :: InSome(ranges, i) ==> InOccurrence(text, secret, i)
    ensures forall at, i :: Covers(text, secret, at, i) ==> InSome(ranges, i) || InSome(markers, i)
  {
    ranges := [];
    var pending: Option<Range> := None;
    var markerIndex := 0;
    var start := IndexOf(text, secret, 0);
    while start != -1
      invariant start == -1 || OccursAt(text, secret, start)
      invariant 0 <= markerIndex <= |markers|
      invariant AllInside(ranges, |text|) && (pending.Some? ==> pending.value.start < pending.value.end <= |text|)
      invariant pending.Some? && start != -1 ==> pending.value.start <= start
      invariant forall i :: Recorded(ranges, pending, i) ==> InOccurrence(text, secret, i)
      invariant forall at, i :: Covers(text, secret, at, i) && (start == -1 || at < start)
                  ==> Recorded(ranges, pending, i) || InSome(markers, i)
      decreases start != -1, |text| - start
    {
      var end := start + |secret|;
      while markerIndex < |markers| && markers[markerIndex].end <= start
        invariant 0 <= markerIndex <= |markers|
      {
        markerIndex := markerIndex + 1;
      }
      ghost var earlier, open := ranges, pending;
      var hidden := markerIndex < |markers| && start >= markers[markerIndex].start && end <= markers[markerIndex].end;
      if hidden {
        assert markers[markerIndex] in markers && forall i :: start <= i < end ==> InRange(markers[markerIndex], i);
      } else if pending.Some? && start <= pending.value.end {
        pending := Some(Range(pending.value.start, Later(pending.value.end, end)));
      } else {
        if pending.Some? {
          ranges := ranges + [pending.value];
        }
        pending := Some(Range(start, end));
      }
      Extended(text, secret, earlier, open, ranges, pending, hidden, start);
      forall i | start <= i < end ensures InOccurrence(text, secret, i) {
        assert Covers(text, secret, start, i);
      }
      start := IndexOf(text, secret, start + 1);
    }
    if pending.Some? {
      ghost var earlier := ranges;
      ranges := ranges + [pending.value];
      assert forall i :: InSome(ranges, i) <==> Recorded(earlier, pending, i);
    }
  }

  ghost predicate InOccurrence(text: string, secret: string, position: int) {
    exists at :: Covers(text, secret, at, position)
  }

  ghost predicate Recorded(ranges: seq<Range>, pending: Option<Range>, position: int) {
    InSome(ranges, position) || InOpen(pending, position)
  }

  ghost predicate InOpen(pending: Option<Range>, position: int) {
    pending.Some? && InRange(pending.value, position)
  }

  /** Recording one more occurrence adds exactly its positions. */
  lemma Extended(text: string, secret: string, ranges: seq<Range>, pending: Option<Range>,
                 ranges': seq<Range>, pending': Option<Range>, hidden: bool, start: nat)
    requires pending.Some? ==> pending.value.start < pending.value.end && pending.value.start <= start
    requires hidden ==> ranges' == ranges && pending' == pending
    requires !hidden && pending.Some? && start <= pending.value.end ==>
               ranges' == ranges && pending'
                   == Some(Range(pending.value.start, Later(pending.value.end, start + |secret|)))
    requires !hidden && !(pending.Some? && start <= pending.value.end) ==>
               ranges' == (if pending.Some? then ranges + [pending.value] else ranges)
                   && pending' == Some(Range(start, start + |secret|))
    ensures forall i :: Recorded(ranges', pending', i)
              <==> Recorded(ranges, pending, i) || (!hidden && start <= i < start + |secret|)
  {
    if pending.Some? {
      assert forall i :: InSome(ranges + [pending.value], i) <==> InSome(ranges, i) || InRange(pending.value, i);
    }
  }

  method LiteralRanges(text: string, secrets: seq<string>) returns (ranges: seq<Range>)
    ensures AllInside(ranges, |text|)
    ensures forall i :: InSome(ranges, i) <==> Covered(text, Values(secrets), i)
  {
    var markers := MarkerRanges(text);
    ranges := markers;
    var seen: set<string> := {};
    OnlyMarkers(text, markers);
    for k := 0 to |secrets|
      invariant seen == Values(secrets[..k])
      invariant AllInside(ranges, |text|)
      invariant forall r :: r in markers ==> r in ranges
      invariant forall i :: InSome(ranges, i) <==> Covered(text, seen, i)
    {
      var secret := secrets[k];
      assert secrets[..k + 1] == secrets[..k] + [secret];
      ghost var before, already := ranges, seen;
      if secret !in seen && |secret| != 0 && secret != MARKER {
        var found := SecretRanges(text, secret, markers);
        ranges := ranges + found;
        seen := seen + {secret};
        OneMoreSecret(text, already, secret, markers, before, found);
      } else {
        seen := seen + {secret};
        SameHidden(text, already, secret);
      }
    }
    assert secrets[..|secrets|] == secrets;
  }

  lemma OnlyMarkers(text: string, markers: seq<Range>)
    requires forall r :: r in markers ==> OccursAt(text, MARKER, r.start) && r.end == r.start + |MARKER|
    requires forall at :: OccursAt(text, MARKER, at) ==> Range(at, at + |MARKER|) in markers
    ensures forall i :: InSome(markers, i) <==> Covered(text, {}, i)
  {
    forall i | InSome(markers, i)
      ensures Covered(text, {}, i)
    {
      var r :| r in markers && InRange(r, i);
      assert IsHidden({}, MARKER) && Covers(text, MARKER, r.start, i);
    }
    forall i | Covered(text, {}, i)
      ensures InSome(markers, i)
    {
      var part, at :| IsHidden({}, part) && Covers(text, part, at, i);
      assert InRange(Range(at, at + |MARKER|), i);
    }
  }

  lemma SameHidden(text: string, seen: set<string>, secret: string)
    requires secret in seen || secret == "" || secret == MARKER
    ensures forall i :: Covered(text, seen + {secret}, i) <==> Covered(text, seen, i)
  {
    assert forall part :: IsHidden(seen + {secret}, part) <==> IsHidden(seen, part);
  }

  lemma OneMoreSecret(
      text: string, seen: set<string>, secret: string, markers: seq<Range>, before: seq<Range>, found: seq<Range>)
    requires secret != "" && forall r :: r in markers ==> r in before
    requires forall i :: InSome(before, i) <==> Covered(text, seen, i)
    requires forall i :: InSome(found, i) ==> InOccurrence(text, secret, i)
    requires forall at, i :: Covers(text, secret, at, i) ==> InSome(found, i) || InSome(markers, i)
    ensures forall i :: InSome(before + found, i) <==> Covered(text, seen + {secret}, i)
  {
    forall i
      ensures InSome(before + found, i) <==> Covered(text, seen + {secret}, i)
    {
      assert InSome(before + found, i) <==> InSome(before, i) || InSome(found, i);
      if Covered(text, seen, i) {
        var part, at :| IsHidden(seen, part) && Covers(text, part, at, i);
        assert IsHidden(seen + {secret}, part);
      }
      if InSome(found, i) {
        assert IsHidden(seen + {secret}, secret);
      }
      if Covered(text, seen + {secret}, i) {
        var part, at :| IsHidden(seen + {secret}, part) && Covers(text, part, at, i);
        if part != secret {
          assert IsHidden(seen, part);
        } else {
          assert InSome(found, i) || InSome(markers, i);
        }
      }
    }
  }

  // ----- merging and writing -----

  lemma InSomeAppended(ranges: seq<Range>, r: Range)
    ensures forall i :: InSome(ranges + [r], i) <==> InSome(ranges, i) || InRange(r, i)
  {
  }

  /** Widening the last range by one that meets it keeps the ranges apart and adds its positions. */
  lemma WidenLast(merged: seq<Range>, r: Range, length: nat)
    requires AllInside(merged, length) && Apart(merged) && |merged| > 0 && r.start < r.end <= length
    requires merged[|merged| - 1].start <= r.start <= merged[|merged| - 1].end
    ensures var last := |merged| - 1;
              var widened := merged[..last] + [Range(merged[last].start, Later(merged[last].end, r.end))];
              AllInside(widened, length) && Apart(widened)
              && forall i :: InSome(widened, i) <==> InSome(merged, i) || InRange(r, i)
  {
    var last := |merged| - 1;
    assert merged == merged[..last] + [merged[last]];
    assert merged[last] in merged;
    InSomeAppended(merged[..last], merged[last]);
    InSomeAppended(merged[..last], Range(merged[last].start, Later(merged[last].end, r.end)));
  }

  lemma AppendApart(merged: seq<Range>, r: Range, length: nat)
    requires AllInside(merged, length) && Apart(merged) && r.start < r.end <= length
    requires |merged| > 0 ==> merged[|merged| - 1].end < r.start
    ensures AllInside(merged + [r], length) && Apart(merged + [r])
  {
    forall j | 0 <= j < |merged|
      ensures merged[j].end < r.start
    {
      assert merged[j] in merged && merged[|merged| - 1] in merged;
    }
  }

  method MergeRanges(ranges: seq<Range>, length: nat) returns (merged: seq<Range>)
    requires AllInside(ranges, length)
    ensures AllInside(merged, length) && Apart(merged)
    ensures forall i :: InSome(merged, i) <==> InSome(ranges, i)
  {
    var sorted := SortBy(ranges, Before);
    SameElements(ranges, Before);
    SortIsOrdered(ranges, Before);
    merged := MergeSorted(sorted, length);
    assert forall i :: InSome(sorted, i) <==> InSome(ranges, i);
  }

  method MergeSorted(sorted: seq<Range>, length: nat) returns (merged: seq<Range>)
    requires AllInside(sorted, length) && ByStart(sorted)
    ensures AllInside(merged, length) && Apart(merged)
    ensures forall i :: InSome(merged, i) <==> InSome(sorted, i)
  {
    merged := [];
    for k := 0 to |sorted|
      invariant AllInside(merged, length) && Apart(merged)
      invariant |merged| > 0 ==> exists j :: 0 <= j < k && merged[|merged| - 1].start == sorted[j].start
      invariant forall i :: InSome(merged, i) <==> InSome(sorted[..k], i)
    {
      var r := sorted[k];
      assert r in sorted;
      assert sorted[..k + 1] == sorted[..k] + [r];
      InSomeAppended(sorted[..k], r);
      InSomeAppended(merged, r);
      var last := |merged| - 1;
      if last >= 0 && r.start <= merged[last].end {
        WidenLast(merged, r, length);
        merged := merged[..last] + [Range(merged[last].start, Later(merged[last].end, r.end))];
      } else {
        AppendApart(merged, r, length);
        merged := merged + [r];
      }
    }
    assert sorted[..|sorted|] == sorted;
  }

  /** A stretch of kept positions is copied. */
  lemma {:induction false} KeptRun(text: string, mask: seq<bool>, a: nat, b: nat)
    requires a <= b <= |text| == |mask| && forall i :: a <= i < b ==> !mask[i]
    ensures Rendered(text, mask, b) == Rendered(text, mask, a) + text[a..b]
  {
    if a < b {
      KeptRun(text, mask, a, b - 1);
      assert text[a..b] == text[a..b - 1] + [text[b - 1]];
    }
  }

  /** A whole run of masked positions becomes one marker. */
  lemma {:induction false} MaskedRun(text: string, mask: seq<bool>, a: nat, b: nat)
    requires a < b <= |text| == |mask| && forall i :: a <= i < b ==> mask[i]
    requires a == 0 || !mask[a - 1]
    ensures Rendered(text, mask, b) == Rendered(text, mask, a) + MARKER
  {
    if a + 1 < b {
      MaskedRun(text, mask, a, b - 1);
    }
  }

  method RenderRanges(text: string, ranges: seq<Range>, ghost mask: seq<bool>) returns (result: string)
    requires AllInside(ranges, |text|) && |mask| == |text|
    requires forall i :: 0 <= i < |text| ==> mask[i] == InSome(ranges, i)
    ensures result == Rendered(text, mask, |text|)
  {
    var merged := MergeRanges(ranges, |text|);
    var cursor := 0;
    result := "";
    for k := 0 to |merged|
      invariant cursor == if k == 0 then 0 else merged[k - 1].end
      invariant cursor <= |text| && result == Rendered(text, mask, cursor)
    {
      var r := merged[k];
      assert r in merged;
      forall i | cursor <= i < r.start ensures !mask[i] {
        GapIsKept(merged, k, i);
      }
      assert forall i :: r.start <= i < r.end ==> InRange(r, i) && mask[i];
      assert cursor <= r.start && (r.start > 0 ==> !mask[r.start - 1]) by {
        if r.start > 0 {
          GapIsKept(merged, k, r.start - 1);
        }
      }
      KeptRun(text, mask, cursor, r.start);
      MaskedRun(text, mask, r.start, r.end);
      result := result + text[cursor..r.start] + MARKER;
      cursor := r.end;
    }
    forall i | cursor <= i < |text| ensures !mask[i] {
      GapIsKept(merged, |merged|, i);
    }
    KeptRun(text, mask, cursor, |text|);
    result := result + text[cursor..];
  }

  /** Between two neighbouring merged ranges nothing is covered. */
  lemma GapIsKept(merged: seq<Range>, k: nat, position: nat)
    requires Apart(merged) && k <= |merged| && forall r :: r in merged ==> r.start < r.end
    requires k > 0 ==> merged[k - 1].end <= position
    requires k < |merged| ==> position < merged[k].start
    ensures !InSome(merged, position)
  {
    forall j | 0 <= j < |merged|
      ensures !InRange(merged[j], position)
    {
      assert merged[j] in merged;
      if j < k - 1 {
        assert merged[j].end < merged[k - 1].start && merged[k - 1] in merged;
      }
    }
  }

  /** The program's redaction hides exactly the covered positions. */
  method RedactKnownValues(text: string, secrets: seq<string>) returns (result: string)
    ensures result == Redacted(text, Values(secrets))
  {
    var ranges := LiteralRanges(text, secrets);
    result := RenderRanges(text, ranges, Mask(text, Values(secrets)));
  }

  // ----- what a reader of the output can rely on -----

  /** No stretch of kept characters contains a secret or a marker. */
  lemma KeptTextHoldsNoSecret(text: string, secrets: set<string>, part: string, at: int)
    requires IsHidden(secrets, part) && OccursAt(text, part, at)
    ensures forall i :: at <= i < at + |part| ==> Mask(text, secrets)[i]
  {
    forall i | at <= i < at + |part| ensures Mask(text, secrets)[i] {
      assert Covers(text, part, at, i);
    }
  }

  /** The order and repetition of the secrets never matter, nor do empty ones
      or the marker itself. */
  lemma OnlyTheSecretsMatter(text: string, a: seq<string>, b: seq<string>)
    requires Values(a) - {"", MARKER} == Values(b) - {"", MARKER}
    ensures Redacted(text, Values(a)) == Redacted(text, Values(b))
  {
    forall part ensures IsHidden(Values(a), part) <==> IsHidden(Values(b), part) {
      if part != "" && part != MARKER {
        assert part in Values(a) <==> part in Values(a) - {"", MARKER};
        assert part in Values(b) <==> part in Values(b) - {"", MARKER};
      }
    }
    assert Mask(text, Values(a)) == Mask(text, Values(b));
  }

  // ----- redacting twice -----

  ghost function WrittenMask(mask: seq<bool>, i: nat): seq<bool>
    requires i < |mask|
  {
    if !mask[i] then [false] else if i > 0 && mask[i - 1] then [] else seq(|MARKER|, _ => true)
  }

  /** Which positions of the output belong to a marker that was written. */
  ghost function OutputMask(mask: seq<bool>, n: nat): seq<bool>
    requires n <= |mask|
  {
    if n == 0 then [] else OutputMask(mask, n - 1) + WrittenMask(mask, n - 1)
  }

  lemma {:induction false} OutputLength(text: string, mask: seq<bool>, n: nat)
    requires n <= |text| == |mask|
    ensures |Rendered(text, mask, n)| == |OutputMask(mask, n)|
    ensures n > 0 ==> |OutputMask(mask, n)| > 0
    ensures n > 0 ==> (OutputMask(mask, n)[|OutputMask(mask, n)| - 1] <==> mask[n - 1])
  {
    if n > 0 {
      OutputLength(text, mask, n - 1);
    }
  }

  /** A written position lies in one whole written marker. */
  ghost predicate InWrittenMarker(output: string, written: seq<bool>, position: nat, start: int) {
    && 0 <= start <= position < start + |MARKER| <= |output| == |written|
    && OccursAt(output, MARKER, start) && forall k :: start <= k < start + |MARKER| ==> written[k]
  }

  lemma {:induction false} WrittenMarkers(text: string, mask: seq<bool>, n: nat, position: nat) returns (start: int)
    requires n <= |text| == |mask| && position < |OutputMask(mask, n)| && OutputMask(mask, n)[position]
    ensures InWrittenMarker(Rendered(text, mask, n), OutputMask(mask, n), position, start)
  {
    OutputLength(text, mask, n);
    OutputLength(text, mask, n - 1);
    if position < |Rendered(text, mask, n - 1)| {
      start := WrittenMarkers(text, mask, n - 1, position);
      MarkerStaysWritten(
        Rendered(text, mask, n - 1), OutputMask(mask, n - 1), Written(text, mask, n - 1), WrittenMask(mask, n - 1),
        position, start);
    } else {
      start := |Rendered(text, mask, n - 1)|;
      LastIsMarker(text, mask, n, position);
      MarkerJustWritten(Rendered(text, mask, n - 1), OutputMask(mask, n - 1), position);
    }
  }

  /** A covered position among those the last step wrote is in a marker. */
  lemma LastIsMarker(text: string, mask: seq<bool>, n: nat, position: nat)
    requires 0 < n <= |text| == |mask| && |OutputMask(mask, n - 1)| <= position < |OutputMask(mask, n)|
    requires OutputMask(mask, n)[position]
    ensures Written(text, mask, n - 1) == MARKER && WrittenMask(mask, n - 1) == seq(|MARKER|, _ => true)
  {
    var k := position - |OutputMask(mask, n - 1)|;
    assert WrittenMask(mask, n - 1)[k];
  }

  lemma MarkerStaysWritten(
      output: string, written: seq<bool>, more: string, moreWritten: seq<bool>, position: nat, start: int)
    requires InWrittenMarker(output, written, position, start) && |more| == |moreWritten|
    ensures InWrittenMarker(output + more, written + moreWritten, position, start)
  {
    assert (output + more)[start..start + |MARKER|] == output[start..start + |MARKER|];
  }

  lemma MarkerJustWritten(output: string, written: seq<bool>, position: nat)
    requires |output| == |written| <= position < |output| + |MARKER|
    ensures InWrittenMarker(output + MARKER, written + seq(|MARKER|, _ => true), position, |output|)
  {
    assert (output + MARKER)[|output|..|output| + |MARKER|] == MARKER;
  }

  /** A window of the output with nothing written in it is a window of kept text. */
  ghost predicate KeptWindow(text: string, mask: seq<bool>, window: string, at: int) {
    OccursAt(text, window, at) && |mask| == |text| && forall k :: at <= k < at + |window| ==> !mask[k]
  }

  lemma KeptWindowExtends(text: string, mask: seq<bool>, window: string, at: int, n: nat)
    requires 0 < n <= |text| == |mask| && KeptWindow(text, mask, window, at) && at + |window| == n - 1 && !mask[n - 1]
    ensures KeptWindow(text, mask, window + [text[n - 1]], at)
  {
    assert text[at..n] == text[at..n - 1] + [text[n - 1]];
  }

  /** A kept output position is where the rendering of some prefix ends. */
  lemma {:induction false} KeptEnd(text: string, mask: seq<bool>, n: nat, b: nat) returns (m: nat)
    requires n <= |text| == |mask| && 0 < b <= |OutputMask(mask, n)| && !OutputMask(mask, n)[b - 1]
    ensures m <= n && |Rendered(text, mask, m)| == b
    ensures Rendered(text, mask, m) <= Rendered(text, mask, n) && OutputMask(mask, m) <= OutputMask(mask, n)
  {
    OutputLength(text, mask, n);
    OutputLength(text, mask, n - 1);
    if b <= |OutputMask(mask, n - 1)| {
      m := KeptEnd(text, mask, n - 1, b);
    } else {
      m := n;
    }
  }

  /** What follows the last written marker is the end of the kept text. */
  lemma {:induction false} KeptTail(text: string, mask: seq<bool>, m: nat, a: nat) returns (at: int)
    requires m <= |text| == |mask| && a <= |Rendered(text, mask, m)| == |OutputMask(mask, m)|
    requires forall k :: a <= k < |OutputMask(mask, m)| ==> !OutputMask(mask, m)[k]
    ensures KeptWindow(text, mask, Rendered(text, mask, m)[a..], at) && at + |Rendered(text, mask, m)| - a == m
  {
    if a == |Rendered(text, mask, m)| {
      return m;
    }
    OutputLength(text, mask, m);
    OutputLength(text, mask, m - 1);
    var before, earlier, written := Rendered(text, mask, m - 1), OutputMask(mask, m - 1), OutputMask(mask, m);
    assert !written[|written| - 1];
    assert forall k :: a <= k < |earlier| ==> earlier[k] == written[k];
    at := KeptTail(text, mask, m - 1, a);
    KeptWindowExtends(text, mask, before[a..], at, m);
    assert Rendered(text, mask, m)[a..] == before[a..] + [text[m - 1]];
  }

  lemma KeptWindows(text: string, mask: seq<bool>, n: nat, a: nat, b: nat) returns (at: int)
    requires n <= |text| == |mask| && a < b <= |Rendered(text, mask, n)| == |OutputMask(mask, n)|
    requires forall k :: a <= k < b ==> !OutputMask(mask, n)[k]
    ensures KeptWindow(text, mask, Rendered(text, mask, n)[a..b], at)
  {
    var m := KeptEnd(text, mask, n, b);
    OutputLength(text, mask, m);
    var written, part := OutputMask(mask, n), OutputMask(mask, m);
    assert forall k :: a <= k < b ==> part[k] == written[k];
    at := KeptTail(text, mask, m, a);
    assert Rendered(text, mask, n)[a..b] == Rendered(text, mask, m)[a..];
  }

  ghost predicate BracketFree(secrets: set<string>) {
    forall s :: s in secrets ==> '[' !in s && ']' !in s
  }

  /** An occurrence in the output that meets a written marker lies inside it. */
  lemma OccurrenceStaysInMarker(
      output: string, written: seq<bool>, secrets: set<string>, part: string, at: nat, position: nat, start: int)
    requires BracketFree(secrets) && IsHidden(secrets, part) && Covers(output, part, at, position)
    requires InWrittenMarker(output, written, position, start)
    ensures start <= at && at + |part| <= start + |MARKER|
  {
    OccurrenceAt(output, part, at);
    OccurrenceAt(output, MARKER, start);
    if at <= start < at + |part| {
      assert part[start - at] == '[' && part[start - at] in part;
    }
    if at <= start + |MARKER| - 1 < at + |part| {
      assert part[start + |MARKER| - 1 - at] == ']' && part[start + |MARKER| - 1 - at] in part;
    }
  }

  /** In the output, exactly the written markers are covered. */
  lemma OutputCoverage(text: string, secrets: set<string>, position: nat)
    requires BracketFree(secrets)
    requires position < |Redacted(text, secrets)|
    ensures |Redacted(text, secrets)| == |OutputMask(Mask(text, secrets), |text|)|
    ensures Covered(Redacted(text, secrets), secrets, position) <==> OutputMask(Mask(text, secrets), |text|)[position]
  {
    var mask, output := Mask(text, secrets), Redacted(text, secrets);
    var written := OutputMask(mask, |text|);
    OutputLength(text, mask, |text|);
    if written[position] {
      var start := WrittenMarkers(text, mask, |text|, position);
      assert IsHidden(secrets, MARKER) && Covers(output, MARKER, start, position);
    }
    if Covered(output, secrets, position) {
      var part, at :| IsHidden(secrets, part) && Covers(output, part, at, position);
      OccurrenceIsWritten(text, secrets, part, at, position);
    }
  }

  /** An occurrence in the output covers only written markers. */
  lemma OccurrenceIsWritten(text: string, secrets: set<string>, part: string, at: int, position: nat)
    requires BracketFree(secrets) && IsHidden(secrets, part) && Covers(Redacted(text, secrets), part, at, position)
    requires |Redacted(text, secrets)| == |OutputMask(Mask(text, secrets), |text|)|
    ensures OutputMask(Mask(text, secrets), |text|)[position]
  {
    var mask, output := Mask(text, secrets), Redacted(text, secrets);
    var written := OutputMask(mask, |text|);
    KeptOccurrence(text, secrets, part, at);
    var k :| at <= k < at + |part| && written[k];
    var start := WrittenMarkers(text, mask, |text|, k);
    OccurrenceStaysInMarker(output, written, secrets, part, at, k, start);
  }

  /** Kept text of the output holds nothing hidden. */
  lemma KeptOccurrence(text: string, secrets: set<string>, part: string, at: nat)
    requires IsHidden(secrets, part) && OccursAt(Redacted(text, secrets), part, at)
    requires |Redacted(text, secrets)| == |OutputMask(Mask(text, secrets), |text|)|
    ensures exists k :: at <= k < at + |part| && OutputMask(Mask(text, secrets), |text|)[k]
  {
    var mask := Mask(text, secrets);
    if forall k :: at <= k < at + |part| ==> !OutputMask(mask, |text|)[k] {
      var back := KeptWindows(text, mask, |text|, at, at + |part|);
      assert Rendered(text, mask, |text|)[at..at + |part|] == part && !mask[back];
      KeptTextHoldsNoSecret(text, secrets, part, back);
      assert false;
    }
  }

  /** What position `n - 1` wrote is written the same way again. */
  lemma RenderStepAgain(text: string, mask: seq<bool>, n: nat, output: string, written: seq<bool>, a: nat, b: nat)
    requires 0 < n <= |text| == |mask| && |output| == |written| && a <= b <= |output|
    requires output[a..b] == Written(text, mask, n - 1) && written[a..b] == WrittenMask(mask, n - 1)
    requires a > 0 ==> n > 1 && (written[a - 1] <==> mask[n - 2])
    requires a == 0 ==> n == 1
    ensures Rendered(output, written, b) == Rendered(output, written, a) + output[a..b]
  {
    assert forall k :: a <= k < b ==> written[k] == written[a..b][k - a];
    if !mask[n - 1] {
      KeptRun(output, written, a, b);
    } else if a < b {
      MaskedRun(output, written, a, b);
    }
  }

  /** Rendering the output by its own written markers changes nothing. */
  lemma {:induction false} RenderAgain(text: string, mask: seq<bool>, n: nat, output: string, written: seq<bool>)
    requires n <= |text| == |mask| && |output| == |written|
    requires Rendered(text, mask, n) <= output && OutputMask(mask, n) <= written
    ensures |Rendered(text, mask, n)| <= |output|
    ensures Rendered(output, written, |Rendered(text, mask, n)|) == Rendered(text, mask, n)
  {
    if n > 0 {
      RenderedPart(text, mask, n, output, written);
      RenderAgain(text, mask, n - 1, output, written);
      RenderStepAgain(text, mask, n, output, written, |Rendered(text, mask, n - 1)|, |Rendered(text, mask, n)|);
    }
  }

  /** What position `n - 1` wrote, as a part of any longer output. */
  lemma RenderedPart(text: string, mask: seq<bool>, n: nat, output: string, written: seq<bool>)
    requires 0 < n <= |text| == |mask| && |output| == |written|
    requires Rendered(text, mask, n) <= output && OutputMask(mask, n) <= written
    ensures Rendered(text, mask, n - 1) <= output && OutputMask(mask, n - 1) <= written
    ensures var a, b := |Rendered(text, mask, n - 1)|, |Rendered(text, mask, n)|;
            a <= b <= |output| && output[a..b] == Written(text, mask, n - 1)
                && written[a..b] == WrittenMask(mask, n - 1)
            && Rendered(text, mask, n) == Rendered(text, mask, n - 1) + output[a..b]
            && (if a == 0 then n == 1 else n > 1 && (written[a - 1] <==> mask[n - 2]))
  {
    OutputLength(text, mask, n);
    OutputLength(text, mask, n - 1);
    var a, b := Rendered(text, mask, n - 1), Written(text, mask, n - 1);
    var c, d := OutputMask(mask, n - 1), WrittenMask(mask, n - 1);
    assert Rendered(text, mask, n) == a + b && OutputMask(mask, n) == c + d;
    PartOfPrefix(a, b, output);
    PartOfPrefix(c, d, written);
    assert |a| > 0 ==> written[|a| - 1] == c[|c| - 1];
  }

  lemma PartOfPrefix<T>(a: seq<T>, b: seq<T>, whole: seq<T>)
    requires a + b <= whole
    ensures a <= whole && whole[|a|..|a| + |b|] == b && forall i :: 0 <= i < |a| ==> whole[i] == a[i]
  {
    assert a + b == whole[..|a| + |b|];
    assert whole[..|a|] == (a + b)[..|a|];
    assert whole[|a|..|a| + |b|] == (a + b)[|a|..];
  }

  /** When no secret contains a bracket, redacting twice equals redacting once. */
  lemma RedactingTwice(text: string, secrets: set<string>)
    requires BracketFree(secrets)
    ensures Redacted(Redacted(text, secrets), secrets) == Redacted(text, secrets)
  {
    var mask, output := Mask(text, secrets), Redacted(text, secrets);
    var written := OutputMask(mask, |text|);
    OutputLength(text, mask, |text|);
    forall i | 0 <= i < |output|
      ensures Mask(output, secrets)[i] == written[i]
    {
      OutputCoverage(text, secrets, i);
    }
    assert Mask(output, secrets) == written;
    RenderAgain(text, mask, |text|, output, written);
  }
}
