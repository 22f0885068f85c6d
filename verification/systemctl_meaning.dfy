/**
  What the systemctl grammar and the capabilities derived from it mean, argument by
  argument (`parseSystemctlArguments` and the systemctl branch of
  `structuralRestartCapabilities`, src/agent/agent-resolution.service.ts).
 */
module SystemctlMeaning {
  import opened Options
  import opened Systemctl

  // ----- one option -----

  ghost predicate IsOneLine(text: string) {
    forall c :: c in text ==> !IsLineTerminator(c)
  }

  /** The text is the name, with the value behind its first `=` if it has one. */
  ghost predicate IsNamed(text: string, name: string, value: Option<string>) {
    && '=' !in name
    && text == (if value.Some? then name + "=" + value.value else name)
    && (value.Some? ==> IsOneLine(value.value))
  }

  lemma {:induction false} SplitNames(text: string, seen: string, name: string, value: Option<string>)
    ensures SplitOption(text, seen) == Some((seen + name, value)) <==> IsNamed(text, name, value)
    decreases |text|
  {
    if text == "" {
      assert seen + "" == seen;
      assert seen + name == seen ==> name == "" by {
        assert |seen + name| == |seen| + |name|;
      }
    } else if text[0] == '=' {
      SplitAtEquals(text, seen, name, value);
    } else {
      assert text == [text[0]] + text[1..];
      if name != "" {
        assert seen + name == seen + [name[0]] + name[1..];
        assert name == [name[0]] + name[1..];
        SplitNames(text[1..], seen + [text[0]], name[1..], value);
        if name[0] == text[0] {
          NamedBehindFirst(text, name, value);
        } else {
          OtherFirstLetter(text, seen, name, value);
        }
      } else {
        NameIsNotEmpty(text, seen, value);
      }
    }
  }

  lemma SplitAtEquals(text: string, seen: string, name: string, value: Option<string>)
    requires text != "" && text[0] == '='
    ensures SplitOption(text, seen) == Some((seen + name, value)) <==> IsNamed(text, name, value)
  {
    assert |seen + name| == |seen| + |name|;
    assert seen + "" == seen;
    assert text == "" + "=" + text[1..];
    if IsNamed(text, name, value) {
      assert name == "";
      assert value.Some?;
      assert text == "=" + value.value && text[1..] == value.value;
    }
  }

  lemma NamedBehindFirst(text: string, name: string, value: Option<string>)
    requires text != "" && name != "" && text[0] == name[0] && text[0] != '='
    ensures IsNamed(text, name, value) <==> IsNamed(text[1..], name[1..], value)
  {
    assert name == [name[0]] + name[1..] && text == [text[0]] + text[1..];
    var rest := if value.Some? then name[1..] + "=" + value.value else name[1..];
    assert (if value.Some? then name + "=" + value.value else name) == [name[0]] + rest;
    assert ([name[0]] + rest)[1..] == rest;
  }

  /** What has been read is the start of what is returned. */
  lemma {:induction false} SplitKeepsSeen(text: string, seen: string)
    ensures SplitOption(text, seen).Some? ==> seen <= SplitOption(text, seen).value.0
    ensures SplitOption(text, seen).Some? && text != "" && text[0] != '=' ==>
              seen + [text[0]] <= SplitOption(text, seen).value.0
    decreases |text|
  {
    if text != "" && text[0] != '=' {
      SplitKeepsSeen(text[1..], seen + [text[0]]);
    }
  }

  lemma OtherFirstLetter(text: string, seen: string, name: string, value: Option<string>)
    requires text != "" && name != "" && text[0] != '=' && text[0] != name[0]
    ensures SplitOption(text, seen) != Some((seen + name, value)) && !IsNamed(text, name, value)
  {
    SplitKeepsSeen(text, seen);
    assert (seen + name)[|seen|] == name[0] && (seen + [text[0]])[|seen|] == text[0];
  }

  lemma NameIsNotEmpty(text: string, seen: string, value: Option<string>)
    requires text != "" && text[0] != '='
    ensures SplitOption(text, seen) != Some((seen + "", value)) && !IsNamed(text, "", value)
  {
    SplitKeepsSeen(text, seen);
    assert |seen + ""| == |seen| && |seen + [text[0]]| == |seen| + 1;
  }

  /** How a long argument may be an option: alone, with its value behind `=`, or
      with its value in the next argument. */
  ghost predicate IsLong(
      p: Platform, argument: string, name: string, value: Option<string>, width: nat, hasNext: bool) {
    && IsNamed(argument, name, value)
    && if p.lower(name) in LONG_FLAGS then value.None? && width == 1
       else
         && p.lower(name) in LONG_VALUED
         && if value.Some? then value.value != "" && width == 1 else hasNext && width == 2
  }

  lemma LongOptionMeans(p: Platform, argument: string, hasNext: bool, width: nat, names: set<string>)
    ensures LongOption(p, argument, hasNext) == Some(Options(width, names))
       <==> exists name, value :: IsLong(p, argument, name, value, width, hasNext) && names == {p.lower(name)}
  {
    var split := SplitOption(argument, "");
    if split.Some? {
      assert "" + split.value.0 == split.value.0;
      SplitNames(argument, "", split.value.0, split.value.1);
    }
    forall name, value | IsNamed(argument, name, value) ensures split == Some((name, value)) {
      SplitNames(argument, "", name, value);
      assert "" + name == name;
    }
    if LongOption(p, argument, hasNext) == Some(Options(width, names)) {
      assert IsLong(p, argument, split.value.0, split.value.1, width, hasNext);
    }
  }

  /** A cluster: flags, and perhaps one letter with a value, which is the rest of the
      cluster or the next argument. `k` flags come first. */
  ghost predicate IsCluster(letters: string, k: nat, width: nat, hasNext: bool) {
    && k <= |letters| && (forall i :: 0 <= i < k ==> letters[i] in SHORT_FLAGS)
    && if k == |letters| then width == 1
       else
         && letters[k] !in SHORT_FLAGS && letters[k] in SHORT_VALUED
         && if k + 1 < |letters| then width == 1 else hasNext && width == 2
  }

  lemma {:induction false} ClusterMeans(letters: string, hasNext: bool, names: set<string>) returns (k: nat)
    ensures k <= |letters| && (forall i :: 0 <= i < k ==> letters[i] in SHORT_FLAGS)
    ensures k < |letters| ==> letters[k] !in SHORT_FLAGS
    ensures var item := Cluster(letters, hasNext, names);
            (item.Some? <==> exists width :: IsCluster(letters, k, width, hasNext))
            && (item.Some? ==> item.value.Options? && IsCluster(letters, k, item.value.width, hasNext)
                               && item.value.names == names + NamesUpTo(letters, k))
  {
    k := 0;
    if letters != "" {
      if letters[0] in SHORT_FLAGS {
        var rest := ClusterMeans(letters[1..], hasNext, names + {['-', letters[0]]});
        k := rest + 1;
        NamesUpToNext(letters, rest);
        forall width ensures IsCluster(letters, k, width, hasNext) <==> IsCluster(letters[1..], rest, width, hasNext) {
          ClusterBehindFlag(letters, rest, width, hasNext);
        }
        assert names + {['-', letters[0]]} + NamesUpTo(letters[1..], rest) == names + NamesUpTo(letters, k);
      } else {
        assert NamesUpTo(letters, 0) == {['-', letters[0]]};
        if letters[0] in SHORT_VALUED && (|letters| > 1 || hasNext) {
          assert IsCluster(letters, 0, if |letters| > 1 then 1 else 2, hasNext);
        }
      }
    } else {
      assert NamesUpTo(letters, 0) == {} && IsCluster(letters, 0, 1, hasNext);
      assert names + {} == names;
    }
  }

  /** The letters that are options: the flags and the one with a value. */
  ghost function NamesUpTo(letters: string, k: nat): set<string>
    requires k <= |letters|
  {
    set i | 0 <= i <= k && i < |letters| :: ['-', letters[i]]
  }

  lemma NamesUpToNext(letters: string, k: nat)
    requires letters != "" && k <= |letters[1..]|
    ensures NamesUpTo(letters, k + 1) == {['-', letters[0]]} + NamesUpTo(letters[1..], k)
  {
    var rest := letters[1..];
    forall name | name in NamesUpTo(letters, k + 1) ensures name in {['-', letters[0]]} + NamesUpTo(rest, k) {
      var i :| 0 <= i <= k + 1 && i < |letters| && name == ['-', letters[i]];
      if i > 0 {
        assert letters[i] == rest[i - 1];
      }
    }
    forall name | name in NamesUpTo(rest, k) ensures name in NamesUpTo(letters, k + 1) {
      var i :| 0 <= i <= k && i < |rest| && name == ['-', rest[i]];
      assert rest[i] == letters[i + 1];
    }
    assert ['-', letters[0]] in NamesUpTo(letters, k + 1);
  }

  lemma ClusterBehindFlag(letters: string, k: nat, width: nat, hasNext: bool)
    requires letters != "" && letters[0] in SHORT_FLAGS && k <= |letters[1..]|
    ensures IsCluster(letters, k + 1, width, hasNext) <==> IsCluster(letters[1..], k, width, hasNext)
  {
    var rest := letters[1..];
    assert forall i :: 0 <= i < |rest| ==> rest[i] == letters[i + 1];
    if IsCluster(letters, k + 1, width, hasNext) {
      assert forall i :: 0 <= i < k ==> rest[i] == letters[i + 1];
    }
    if IsCluster(rest, k, width, hasNext) {
      assert forall i :: 0 < i < k + 1 ==> letters[i] == rest[i - 1];
    }
  }

  ghost predicate IsLongOption(p: Platform, argument: string, hasNext: bool, width: nat, names: set<string>) {
    "--" <= argument && argument != "--"
    && exists name, value :: IsLong(p, argument, name, value, width, hasNext) && names == {p.lower(name)}
  }

  ghost predicate IsShortOptions(argument: string, hasNext: bool, width: nat, names: set<string>) {
    && |argument| >= 2 && argument[0] == '-' && argument[1] != '-'
    && exists k: nat :: IsCluster(argument[1..], k, width, hasNext) && names == NamesUpTo(argument[1..], k)
  }

  lemma OneCluster(letters: string, j: nat, k: nat, v: nat, w: nat, hasNext: bool)
    requires IsCluster(letters, j, v, hasNext) && IsCluster(letters, k, w, hasNext)
    ensures j == k && v == w
  {
  }

  lemma ShortOptionsMean(argument: string, hasNext: bool, width: nat, names: set<string>)
    requires |argument| >= 2 && argument[0] == '-' && argument[1] != '-'
    ensures Cluster(argument[1..], hasNext, {}) == Some(Options(width, names))
       <==> IsShortOptions(argument, hasNext, width, names)
  {
    var letters := argument[1..];
    var item := Cluster(letters, hasNext, {});
    var k := ClusterMeans(letters, hasNext, {});
    assert {} + NamesUpTo(letters, k) == NamesUpTo(letters, k);
    if j: nat :| IsCluster(letters, j, width, hasNext) && names == NamesUpTo(letters, j) {
      FlagsEndOnce(letters, j, k, width, hasNext);
      OneCluster(letters, j, k, width, item.value.width, hasNext);
    }
  }

  lemma FlagsEndOnce(letters: string, j: nat, k: nat, width: nat, hasNext: bool)
    requires IsCluster(letters, j, width, hasNext)
    requires k <= |letters| && (forall i :: 0 <= i < k ==> letters[i] in SHORT_FLAGS)
    requires k < |letters| ==> letters[k] !in SHORT_FLAGS
    ensures j == k
  {
  }

  lemma TwoDashes(argument: string)
    requires |argument| >= 2
    ensures "--" <= argument <==> argument[0] == '-' && argument[1] == '-'
  {
    assert argument[..2] == [argument[0], argument[1]];
  }

  /** What one argument is where an item starts. */
  lemma ArgumentMeans(p: Platform, argument: string, hasNext: bool, width: nat, names: set<string>)
    ensures Classify(p, argument, hasNext) == Some(Separator) <==> argument == "--"
    ensures Classify(p, argument, hasNext) == Some(Positional)
       <==> argument == "" || argument == "-" || argument[0] != '-'
    ensures Classify(p, argument, hasNext) == Some(Options(width, names))
       <==> IsLongOption(p, argument, hasNext, width, names) || IsShortOptions(argument, hasNext, width, names)
  {
    if "--" <= argument {
      LongOptionMeans(p, argument, hasNext, width, names);
      assert |argument| >= 2 && argument[1] == '-';
    } else if "-" <= argument && argument != "-" {
      assert argument[0] == '-' && |argument| >= 2;
      TwoDashes(argument);
      ClusterWidth(argument[1..], hasNext, {});
      ShortOptionsMean(argument, hasNext, width, names);
    }
  }

  // ----- the capabilities, over the roles -----

  /** The first positional argument: the verb. */
  ghost predicate IsVerbAt(roles: seq<Role>, i: nat) {
    i < |roles| && roles[i].AsPositional? && forall j :: 0 <= j < i ==> !roles[j].AsPositional?
  }

  /** Some argument behind the verb names a power-state target. */
  ghost predicate NamesPowerState(p: Platform, arguments: seq<string>, roles: seq<Role>, i: nat)
    requires |arguments| == |roles|
  {
    exists j :: i < j < |roles| && roles[j].AsPositional? && p.normalize(arguments[j]) in POWER_STATE_TARGETS
  }

  /** `--now` is among the options. */
  ghost predicate GivesNow(p: Platform, arguments: seq<string>, roles: seq<Role>)
    requires |arguments| == |roles|
  {
    exists k :: 0 <= k < |roles| && roles[k].AsOption? && "--now" in NamesOf(p, arguments[k], k + 1 < |arguments|)
  }

  ghost predicate Reboots(p: Platform, arguments: seq<string>, roles: seq<Role>, i: nat)
    requires |arguments| == |roles| && i < |roles|
  {
    var verb := p.normalize(arguments[i]);
    verb in POWER_STATE_VERBS
    || (NamesPowerState(p, arguments, roles, i)
        && (verb in UNIT_OPERATIONS || (verb in ENABLE_OPERATIONS && GivesNow(p, arguments, roles))))
  }

  lemma {:induction false} NoVerb(p: Platform, arguments: seq<string>, roles: seq<Role>, index: nat)
    requires |arguments| == |roles| && forall i :: 0 <= i < |roles| ==> !roles[i].AsPositional?
    ensures PositionalsOf(p, arguments, roles, index) == []
  {
    if arguments != [] {
      NoVerb(p, arguments[1..], roles[1..], index + 1);
    }
  }

  lemma {:induction false} VerbIsFirst(p: Platform, arguments: seq<string>, roles: seq<Role>, index: nat, i: nat)
    requires |arguments| == |roles| && IsVerbAt(roles, i)
    ensures PositionalsOf(p, arguments, roles, index)
         == [(p.normalize(arguments[i]), index + i)]
            + PositionalsOf(p, arguments[i + 1..], roles[i + 1..], index + i + 1)
  {
    if i > 0 {
      assert !roles[0].AsPositional?;
      assert IsVerbAt(roles[1..], i - 1);
      VerbIsFirst(p, arguments[1..], roles[1..], index + 1, i - 1);
      assert arguments[1..][i..] == arguments[i + 1..] && roles[1..][i..] == roles[i + 1..];
    }
  }

  lemma {:induction false} PositionalMembers(
      p: Platform, arguments: seq<string>, roles: seq<Role>, index: nat, x: (string, nat))
    requires |arguments| == |roles|
    ensures x in PositionalsOf(p, arguments, roles, index)
       <==> exists j :: 0 <= j < |roles| && roles[j].AsPositional? && x == (p.normalize(arguments[j]), index + j)
  {
    if arguments != [] {
      PositionalMembers(p, arguments[1..], roles[1..], index + 1, x);
      if j :| 0 <= j < |roles| && roles[j].AsPositional? && x == (p.normalize(arguments[j]), index + j) {
        assert j > 0 ==> roles[1..][j - 1] == roles[j] && arguments[1..][j - 1] == arguments[j];
      }
      if j :| 0 <= j < |roles[1..]| && roles[1..][j].AsPositional?
              && x == (p.normalize(arguments[1..][j]), index + 1 + j) {
        assert roles[j + 1] == roles[1..][j] && arguments[j + 1] == arguments[1..][j];
      }
    }
  }

  lemma {:induction false} OptionMembers(p: Platform, arguments: seq<string>, roles: seq<Role>, name: string)
    requires |arguments| == |roles|
    ensures name in OptionsOf(p, arguments, roles)
       <==> exists k :: 0 <= k < |roles| && roles[k].AsOption? && name in NamesOf(p, arguments[k], k + 1 < |arguments|)
  {
    if arguments != [] {
      OptionMembers(p, arguments[1..], roles[1..], name);
      if k :| 0 <= k < |roles| && roles[k].AsOption? && name in NamesOf(p, arguments[k], k + 1 < |arguments|) {
        assert k > 0 ==> roles[1..][k - 1] == roles[k] && arguments[1..][k - 1] == arguments[k];
      }
      if k :| 0 <= k < |roles[1..]| && roles[1..][k].AsOption?
              && name in NamesOf(p, arguments[1..][k], k + 1 < |arguments[1..]|) {
        assert roles[k + 1] == roles[1..][k] && arguments[k + 1] == arguments[1..][k];
      }
    }
  }

  /** Some unit behind the verb is a power-state target, told from its own argument. */
  lemma UnitsBehindVerb(p: Platform, arguments: seq<string>, roles: seq<Role>, i: nat)
    requires |arguments| == |roles| && IsVerbAt(roles, i)
    ensures var units := PositionalsOf(p, arguments[i + 1..], roles[i + 1..], i + 1);
            (exists unit :: unit in units && NormalizedArgument(p, arguments, unit.1) in POWER_STATE_TARGETS)
            <==> NamesPowerState(p, arguments, roles, i)
  {
    var behind, behindRoles := arguments[i + 1..], roles[i + 1..];
    var units := PositionalsOf(p, behind, behindRoles, i + 1);
    if unit :| unit in units && NormalizedArgument(p, arguments, unit.1) in POWER_STATE_TARGETS {
      PositionalMembers(p, behind, behindRoles, i + 1, unit);
      var j :| 0 <= j < |behindRoles| && behindRoles[j].AsPositional? && unit == (p.normalize(behind[j]), i + 1 + j);
      assert roles[i + 1 + j] == behindRoles[j] && arguments[i + 1 + j] == behind[j];
    }
    if j :| i < j < |roles| && roles[j].AsPositional? && p.normalize(arguments[j]) in POWER_STATE_TARGETS {
      var unit := (p.normalize(arguments[j]), j);
      assert behindRoles[j - i - 1] == roles[j] && behind[j - i - 1] == arguments[j];
      PositionalMembers(p, behind, behindRoles, i + 1, unit);
      assert NormalizedArgument(p, arguments, unit.1) in POWER_STATE_TARGETS;
    }
  }

  lemma AcceptedExplained(p: Platform, arguments: seq<string>, roles: seq<Role>)
    requires FollowRules(p, arguments, roles, false)
    ensures Parse(p, arguments, 0)
         == Some(Parsed(PositionalsOf(p, arguments, roles, 0), OptionsOf(p, arguments, roles)))
  {
    RolesAreDetermined(p, arguments, roles, false);
    EachIndexIsConsumedOnce(p, arguments, 0);
  }

  /** An argument list the grammar does not explain is taken to do the worst. */
  lemma UnknownIsUnsafe(p: Platform, arguments: seq<string>)
    requires forall roles :: !FollowRules(p, arguments, roles, false)
    ensures Capabilities(p, arguments) == {Restart, Reboot}
  {
    AcceptedIffRolesFollow(p, arguments);
  }

  /** One that names no verb does nothing. */
  lemma NoVerbDoesNothing(p: Platform, arguments: seq<string>, roles: seq<Role>)
    requires FollowRules(p, arguments, roles, false) && forall i :: 0 <= i < |roles| ==> !roles[i].AsPositional?
    ensures Capabilities(p, arguments) == {}
  {
    AcceptedExplained(p, arguments, roles);
    NoVerb(p, arguments, roles, 0);
  }

  /** One that names a verb may reboot exactly when the verb changes the power state, or
      starts or, with `--now`, enables a unit that does; otherwise only `restart` restarts. */
  lemma VerbDecides(p: Platform, arguments: seq<string>, roles: seq<Role>, i: nat)
    requires FollowRules(p, arguments, roles, false) && IsVerbAt(roles, i)
    ensures Capabilities(p, arguments)
         == if Reboots(p, arguments, roles, i) then {Reboot}
            else if p.normalize(arguments[i]) == "restart" then {Restart}
            else {}
  {
    AcceptedExplained(p, arguments, roles);
    VerbIsFirst(p, arguments, roles, 0, i);
    UnitsBehindVerb(p, arguments, roles, i);
    OptionMembers(p, arguments, roles, "--now");
    var units := PositionalsOf(p, arguments[i + 1..], roles[i + 1..], i + 1);
    assert Parse(p, arguments, 0).value.positionals[1..] == units;
  }

  /** `--now` is given exactly where an option argument spells it, in any case, without a value. */
  lemma NowIsSpelled(p: Platform, argument: string, hasNext: bool)
    requires "--" <= argument && argument != "--"
    ensures "--now" in NamesOf(p, argument, hasNext) <==> '=' !in argument && p.lower(argument) == "--now"
  {
    var item := LongOption(p, argument, hasNext);
    if item.Some? {
      LongOptionMeans(p, argument, hasNext, item.value.width, item.value.names);
    }
    if '=' !in argument && p.lower(argument) == "--now" {
      assert IsLong(p, argument, argument, None, 1, hasNext);
      LongOptionMeans(p, argument, hasNext, 1, {"--now"});
    }
    if item.Some? && "--now" in item.value.names {
      var name, value :|
        IsLong(p, argument, name, value, item.value.width, hasNext) && item.value.names == {p.lower(name)};
      assert name == argument;
    }
  }
}
