/** Slices and concatenations, for any element type. */
module Sequences {

  function Flatten<T>(pieces: seq<seq<T>>): seq<T> {
    if pieces == [] then [] else pieces[0] + Flatten(pieces[1..])
  }

  lemma {:induction false} FlattenAppend<T>(pieces: seq<seq<T>>, piece: seq<T>)
    ensures Flatten(pieces + [piece]) == Flatten(pieces) + piece
  {
    if pieces == [] {
      assert [] + [piece] == [piece];
    } else {
      assert (pieces + [piece])[1..] == pieces[1..] + [piece];
      FlattenAppend(pieces[1..], piece);
    }
  }

  lemma PrefixNext<T>(s: seq<T>, i: nat)
    requires i < |s|
    ensures s[..i + 1] == s[..i] + [s[i]]
  {
  }

  ghost predicate All<T>(s: seq<T>, holds: T -> bool) {
    forall i :: 0 <= i < |s| ==> holds(s[i])
  }

  lemma AllNext<T>(s: seq<T>, i: nat, holds: T -> bool)
    requires i < |s|
    ensures All(s[..i + 1], holds) <==> All(s[..i], holds) && holds(s[i])
    ensures All(s, holds) ==> holds(s[i])
  {
    var next := s[..i + 1];
    if All(next, holds) {
      assert holds(next[i]);
      assert forall k :: 0 <= k < i ==> s[..i][k] == next[k];
    }
    if All(s[..i], holds) && holds(s[i]) {
      assert forall k :: 0 <= k < i ==> next[k] == s[..i][k];
    }
  }

  lemma SliceOfSlice<T>(s: seq<T>, from: nat, to: nat, a: nat, b: nat)
    requires from <= to <= |s| && a <= b <= to - from
    ensures s[from..to][a..b] == s[from + a..from + b]
  {
    forall i | 0 <= i < b - a
      ensures s[from..to][a..b][i] == s[from + a..from + b][i]
    {
    }
  }

  lemma SliceOfMiddle<T>(before: seq<T>, part: seq<T>, after: seq<T>, a: nat, b: nat)
    requires a <= b <= |part|
    ensures (before + part + after)[|before| + a..|before| + b] == part[a..b]
  {
    var whole := before + part + after;
    forall i | 0 <= i < b - a
      ensures whole[|before| + a..|before| + b][i] == part[a..b][i]
    {
    }
  }

  ghost predicate OccursAt<T>(text: seq<T>, part: seq<T>, at: int) {
    0 <= at && at + |part| <= |text| && text[at..at + |part|] == part
  }

  lemma OccurrenceAt<T>(text: seq<T>, part: seq<T>, at: int)
    requires OccursAt(text, part, at)
    ensures forall k :: at <= k < at + |part| ==> text[k] == part[k - at]
  {
    var window := text[at..at + |part|];
    assert forall k :: at <= k < at + |part| ==> text[k] == window[k - at];
  }

  /** Occurrences of a part whose first element is in it only once never overlap. */
  lemma OccurrencesApart<T>(text: seq<T>, part: seq<T>, a: int, b: int)
    requires part != [] && forall k :: 0 < k < |part| ==> part[k] != part[0]
    requires OccursAt(text, part, a) && OccursAt(text, part, b) && a < b
    ensures a + |part| <= b
  {
    OccurrenceAt(text, part, a);
    OccurrenceAt(text, part, b);
    assert text[b] == part[0];
  }
}
