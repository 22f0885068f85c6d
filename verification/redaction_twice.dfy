/**
  What the reader of redacted text can rely on, secret by secret, and exactly when
  redacting again changes nothing (src/cli/redaction.ts).
 */
module RedactionTwice {
  import opened Options
  import opened Sequences
  import opened Redaction

  // ----- what the output holds -----

  /** Every character of every occurrence of a non-empty secret is hidden. */
  lemma SecretsAreMasked(text: string, secrets: set<string>, secret: string, at: int)
    requires secret in secrets && secret != "" && OccursAt(text, secret, at)
    ensures forall i :: at <= i < at + |secret| ==> Mask(text, secrets)[i]
  {
    KeptTextHoldsNoSecret(text, secrets, secret, at);
  }

  /** No bracket-free secret occurs in the output, unless the marker itself spells it. */
  lemma OutputHoldsNoSecret(text: string, secrets: set<string>, secret: string, at: int)
    requires BracketFree(secrets) && secret in secrets && secret != ""
    requires OccursAt(Redacted(text, secrets), secret, at)
    ensures exists k :: OccursAt(MARKER, secret, k)
  {
    var mask, output := Mask(text, secrets), Redacted(text, secrets);
    var written := OutputMask(mask, |text|);
    OutputLength(text, mask, |text|);
    assert Covers(output, secret, at, at);
    OccurrenceIsWritten(text, secrets, secret, at, at);
    var start := WrittenMarkers(text, mask, |text|, at);
    OccurrenceStaysInMarker(output, written, secrets, secret, at, at, start);
    OccurrenceAt(output, MARKER, start);
    OccurrenceAt(output, secret, at);
    var found := MARKER[at - start..at - start + |secret|];
    assert forall k :: 0 <= k < |secret| ==> found[k] == output[at + k] == secret[k];
    assert OccursAt(MARKER, secret, at - start);
  }

  /** Text that holds neither a secret nor a marker stays as it is. */
  lemma OtherTextIsKept(text: string, secrets: set<string>)
    requires forall part, at :: IsHidden(secrets, part) ==> !OccursAt(text, part, at)
    ensures Redacted(text, secrets) == text
  {
    var mask := Mask(text, secrets);
    assert forall part, at, i :: IsHidden(secrets, part) ==> !Covers(text, part, at, i);
    KeptRun(text, mask, 0, |text|);
    assert text[0..|text|] == text;
  }

  // ----- counting what is written -----

  ghost function KeptCount(mask: seq<bool>, n: nat): nat
    requires n <= |mask|
  {
    if n == 0 then 0 else KeptCount(mask, n - 1) + if mask[n - 1] then 0 else 1
  }

  /** A run of masked positions starts at `i`. */
  predicate StartsRun(mask: seq<bool>, i: nat)
    requires i < |mask|
  {
    mask[i] && (i == 0 || !mask[i - 1])
  }

  ghost function RunCount(mask: seq<bool>, n: nat): nat
    requires n <= |mask|
  {
    if n == 0 then 0 else RunCount(mask, n - 1) + if StartsRun(mask, n - 1) then 1 else 0
  }

  lemma {:induction false} RenderedLength(text: string, mask: seq<bool>, n: nat)
    requires n <= |text| == |mask|
    ensures |Rendered(text, mask, n)| == KeptCount(mask, n) + |MARKER| * RunCount(mask, n)
  {
    if n > 0 {
      RenderedLength(text, mask, n - 1);
    }
  }

  /** `more` masks whatever `mask` masks. */
  ghost predicate Extends(mask: seq<bool>, more: seq<bool>) {
    |mask| == |more| && forall i :: 0 <= i < |mask| && mask[i] ==> more[i]
  }

  lemma {:induction false} FewerAreKept(mask: seq<bool>, more: seq<bool>, n: nat)
    requires Extends(mask, more) && n <= |mask|
    ensures KeptCount(more, n) <= KeptCount(mask, n)
    ensures (exists p :: 0 <= p < n && more[p] && !mask[p]) ==> KeptCount(more, n) < KeptCount(mask, n)
  {
    if n > 0 {
      FewerAreKept(mask, more, n - 1);
      if p :| 0 <= p < n && more[p] && !mask[p] {
        assert p < n - 1 ==> KeptCount(more, n - 1) < KeptCount(mask, n - 1);
      }
    }
  }

  /** The run of `more` that ends before `n` holds nothing `mask` masks. */
  ghost predicate IsBare(mask: seq<bool>, more: seq<bool>, n: nat)
    requires n <= |mask| == |more|
  {
    exists a: nat :: IsBareFrom(mask, more, a, n)
  }

  ghost predicate IsBareFrom(mask: seq<bool>, more: seq<bool>, a: nat, n: nat)
    requires n <= |mask| == |more|
  {
    a < n && StartsRun(more, a) && forall k :: a <= k < n ==> more[k] && !mask[k]
  }

  /** Every run of `more` holds a position of `mask`: no whole run is bare. */
  ghost predicate RunsAreShared(mask: seq<bool>, more: seq<bool>)
    requires |mask| == |more|
  {
    forall n :: 0 <= n <= |mask| && (n == |mask| || !more[n]) ==> !IsBare(mask, more, n)
  }

  lemma BareNext(mask: seq<bool>, more: seq<bool>, n: nat)
    requires Extends(mask, more) && n < |mask|
    ensures StartsRun(more, n) && !mask[n] ==> IsBare(mask, more, n + 1)
    ensures IsBare(mask, more, n) && more[n] && !mask[n] ==> IsBare(mask, more, n + 1)
    ensures StartsRun(more, n) && mask[n] ==> StartsRun(mask, n)
    ensures IsBare(mask, more, n) && mask[n] ==> StartsRun(mask, n)
  {
    if StartsRun(more, n) && !mask[n] {
      assert IsBareFrom(mask, more, n, n + 1);
    }
    if IsBare(mask, more, n) && more[n] && !mask[n] {
      var a :| IsBareFrom(mask, more, a, n);
      assert IsBareFrom(mask, more, a, n + 1);
    }
  }

  /** When every run is shared, there are no more runs than before. */
  lemma {:induction false} NoMoreRuns(mask: seq<bool>, more: seq<bool>, n: nat)
    requires Extends(mask, more) && RunsAreShared(mask, more) && n <= |mask|
    ensures RunCount(more, n) <= RunCount(mask, n) + if IsBare(mask, more, n) then 1 else 0
  {
    if n > 0 {
      NoMoreRuns(mask, more, n - 1);
      BareNext(mask, more, n - 1);
      if IsBare(mask, more, n - 1) {
        assert more[n - 1];
        var a :| IsBareFrom(mask, more, a, n - 1);
        assert more[n - 2] && !StartsRun(more, n - 1);
      }
    }
  }

  // ----- redacting again -----

  /** No secret that occurs in the output reaches beyond the markers written. */
  ghost predicate NothingReachesOut(text: string, secrets: set<string>) {
    var output, written := Redacted(text, secrets), OutputMask(Mask(text, secrets), |text|);
    |written| == |output|
    && forall part, at, i :: IsHidden(secrets, part) && Covers(output, part, at, i) ==> written[i]
  }

  lemma WrittenAreCovered(text: string, secrets: set<string>)
    ensures var output, written := Redacted(text, secrets), OutputMask(Mask(text, secrets), |text|);
            Extends(written, Mask(output, secrets))
  {
    var mask, output := Mask(text, secrets), Redacted(text, secrets);
    var written := OutputMask(mask, |text|);
    OutputLength(text, mask, |text|);
    forall i | 0 <= i < |written| && written[i] ensures Mask(output, secrets)[i] {
      var start := WrittenMarkers(text, mask, |text|, i);
      assert IsHidden(secrets, MARKER) && Covers(output, MARKER, start, i);
    }
  }

  /** Whatever is covered in the output meets a written marker. */
  lemma CoveredRunsAreShared(text: string, secrets: set<string>)
    ensures var output, written := Redacted(text, secrets), OutputMask(Mask(text, secrets), |text|);
            |written| == |output| && RunsAreShared(written, Mask(output, secrets))
  {
    var output, written := Redacted(text, secrets), OutputMask(Mask(text, secrets), |text|);
    var again := Mask(output, secrets);
    OutputLength(text, Mask(text, secrets), |text|);
    forall n, a: nat | a < n <= |written| && (n == |written| || !again[n])
      ensures !IsBareFrom(written, again, a, n)
    {
      if IsRun(again, a, n) {
        RunHoldsWritten(text, secrets, a, n);
      }
    }
  }

  /** The positions from `a` to `n` are one whole run. */
  ghost predicate IsRun(mask: seq<bool>, a: nat, n: nat) {
    a < n <= |mask| && StartsRun(mask, a) && (n == |mask| || !mask[n]) && forall k :: a <= k < n ==> mask[k]
  }

  /** A whole run of covered output holds a written position. */
  lemma RunHoldsWritten(text: string, secrets: set<string>, a: nat, n: nat)
    requires IsRun(Mask(Redacted(text, secrets), secrets), a, n)
    requires |OutputMask(Mask(text, secrets), |text|)| == |Redacted(text, secrets)|
    ensures exists k :: a <= k < n && OutputMask(Mask(text, secrets), |text|)[k]
  {
    var output, written := Redacted(text, secrets), OutputMask(Mask(text, secrets), |text|);
    var again := Mask(output, secrets);
    assert again[n - 1] && Covered(output, secrets, n - 1);
    var part, at :| IsHidden(secrets, part) && Covers(output, part, at, n - 1);
    forall i | at <= i < at + |part| ensures again[i] {
      assert Covers(output, part, at, i);
    }
    KeptOccurrence(text, secrets, part, at);
    var k :| at <= k < at + |part| && written[k];
    OccurrenceInRun(again, a, n, at, |part|);
  }

  /** Masked positions next to each other lie in one run. */
  lemma OccurrenceInRun(mask: seq<bool>, a: nat, n: nat, at: nat, length: nat)
    requires a < n <= |mask| && StartsRun(mask, a) && (n == |mask| || !mask[n])
    requires at <= n - 1 < at + length <= |mask| && forall i :: at <= i < at + length ==> mask[i]
    ensures a <= at && at + length <= n
  {
  }

  /** For every text and all secrets: redacting again changes nothing exactly when no
      secret in the output reaches beyond the markers written; otherwise it shortens
      the text. */
  lemma RedactingTwiceIff(text: string, secrets: set<string>)
    ensures Redacted(Redacted(text, secrets), secrets) == Redacted(text, secrets) <==> NothingReachesOut(text, secrets)
    ensures !NothingReachesOut(text, secrets) ==>
              |Redacted(Redacted(text, secrets), secrets)| < |Redacted(text, secrets)|
  {
    var mask, output := Mask(text, secrets), Redacted(text, secrets);
    var written, again := OutputMask(mask, |text|), Mask(output, secrets);
    OutputLength(text, mask, |text|);
    RenderAgain(text, mask, |text|, output, written);
    WrittenAreCovered(text, secrets);
    if NothingReachesOut(text, secrets) {
      forall i | 0 <= i < |output| ensures again[i] == written[i] {
        if Covered(output, secrets, i) {
          var part, at :| IsHidden(secrets, part) && Covers(output, part, at, i);
        }
      }
      assert again == written;
    } else {
      var part, at, i :| IsHidden(secrets, part) && Covers(output, part, at, i) && !written[i];
      assert again[i];
      CoveredRunsAreShared(text, secrets);
      LaterIsShorter(output, written, again);
    }
  }

  lemma LaterIsShorter(output: string, written: seq<bool>, again: seq<bool>)
    requires |output| == |written| && Extends(written, again) && RunsAreShared(written, again)
    requires exists p :: 0 <= p < |written| && again[p] && !written[p]
    ensures |Rendered(output, again, |output|)| < |Rendered(output, written, |output|)|
  {
    var n := |output|;
    RenderedLength(output, written, n);
    RenderedLength(output, again, n);
    FewerAreKept(written, again, n);
    NoMoreRuns(written, again, n);
    assert !IsBare(written, again, n);
    assert |MARKER| * RunCount(again, n) <= |MARKER| * RunCount(written, n);
  }

  /** Bracket-free secrets never reach out. */
  lemma BracketFreeStaysIn(text: string, secrets: set<string>)
    requires BracketFree(secrets)
    ensures NothingReachesOut(text, secrets)
  {
    var output, written := Redacted(text, secrets), OutputMask(Mask(text, secrets), |text|);
    OutputLength(text, Mask(text, secrets), |text|);
    forall part, at, i | IsHidden(secrets, part) && Covers(output, part, at, i) ensures written[i] {
      OutputCoverage(text, secrets, i);
    }
  }

  // ----- a secret with a bracket that reaches out -----

  const SECRETS: set<string> := {"x", "]a"}

  lemma RedactedOnce()
    ensures Mask("xab", SECRETS) == [true, false, false] && Redacted("xab", SECRETS) == "[REDACTED]ab"
  {
    var text := "xab";
    assert "x" in SECRETS && OccursAt(text, "x", 0) && Covers(text, "x", 0, 0);
    forall part, at, i | IsHidden(SECRETS, part) && Covers(text, part, at, i) ensures i == 0 {
      OccurrenceAt(text, part, at);
      assert part == "x" || part == "]a" || part == MARKER;
      assert text[at] == part[0];
    }
    var mask := Mask(text, SECRETS);
    assert Rendered(text, mask, 1) == MARKER;
    assert Rendered(text, mask, 2) == MARKER + "a";
    assert Rendered(text, mask, 3) == MARKER + "a" + "b";
  }

  /** The end of the marker and the kept character behind it spell a secret, which
      only the second redaction sees. */
  lemma BracketReachesOut()
    ensures !NothingReachesOut("xab", SECRETS)
    ensures |Redacted(Redacted("xab", SECRETS), SECRETS)| < |Redacted("xab", SECRETS)|
  {
    RedactedOnce();
    var mask, output := Mask("xab", SECRETS), "[REDACTED]ab";
    assert output[9..11] == "]a";
    assert OccursAt(output, "]a", 9) && IsHidden(SECRETS, "]a") && Covers(output, "]a", 9, 10);
    var marker := seq(|MARKER|, _ => true);
    assert OutputMask(mask, 1) == marker;
    assert OutputMask(mask, 2) == marker + [false];
    assert OutputMask(mask, 3) == marker + [false] + [false];
    assert !OutputMask(mask, 3)[10];
    RedactingTwiceIff("xab", SECRETS);
  }
}
