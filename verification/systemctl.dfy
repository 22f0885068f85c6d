/**
  The systemctl argument grammar and the restart and reboot capabilities derived
  from it (`parseSystemctlArguments` and the systemctl branch of
  `structuralRestartCapabilities`, src/agent/agent-resolution.service.ts).

  Command normalization and lower-casing are uninterpreted: the grammar's
  properties hold for any of them.
 */
module Systemctl {
  import opened Options

  datatype Platform = Platform(normalize: string -> string, lower: string -> string)

  // ----- the option table -----

  const LONG_FLAGS: set<string> := {
    "--all", "--dry-run", "--failed", "--firmware-setup", "--force", "--full", "--global", "--help", "--marked",
    "--mkdir", "--no-ask-password", "--no-block", "--no-legend", "--no-pager", "--no-reload", "--no-warn", "--no-wall",
    "--now", "--plain", "--quiet", "--read-only", "--recursive", "--reverse", "--runtime", "--show-transaction",
    "--show-types", "--system", "--user",
    "--value", "--version", "--wait", "--with-dependencies"}

  const LONG_VALUED: set<string> := {
    "--boot-loader-entry", "--boot-loader-menu", "--check-inhibitors", "--host", "--job-mode", "--kill-value",
    "--kill-whom",
    "--legend", "--machine", "--output", "--preset-mode", "--property", "--root", "--signal", "--state",
    "--timestamp", "--type", "--what"}

  const SHORT_FLAGS: set<char> := {'T', 'a', 'f', 'h', 'i', 'l', 'q', 'r'}

  const SHORT_VALUED: set<char> := {'H', 'M', 'P', 'n', 'o', 'p', 's', 't'}

  // ----- what one argument is -----

  /** Before `--`, an argument is a positional, the separator, or an option that
      consumes itself alone or the next argument too. */
  datatype Item = Positional | Separator | Options(width: nat, names: set<string>)

  predicate IsLineTerminator(c: char) {
    c == '\n' || c == '\r' || c as int == 0x2028 || c as int == 0x2029
  }

  /** The name and inline value of a long option; a value never spans lines. */
  function SplitOption(argument: string, seen: string): Option<(string, Option<string>)> {
    if argument == "" then Some((seen, None))
    else if argument[0] == '=' then
      if exists c | c in argument[1..] :: IsLineTerminator(c) then None else Some((seen, Some(argument[1..])))
    else SplitOption(argument[1..], seen + [argument[0]])
  }

  function LongOption(p: Platform, argument: string, hasNext: bool): (item: Option<Item>)
    ensures item.Some? ==> item.value.Options? && (item.value.width == 1 || (item.value.width == 2 && hasNext))
  {
    var split := SplitOption(argument, "");
    if split.None? then None
    else
      var (name, inlineValue) := split.value;
      var option := p.lower(name);
      if option in LONG_FLAGS then (if inlineValue.Some? then None else Some(Options(1, {option})))
      else if option in LONG_VALUED then
        if inlineValue.Some? && |inlineValue.value| > 0 then Some(Options(1, {option}))
        else if inlineValue.Some? || !hasNext then None
        else Some(Options(2, {option}))
      else None
  }

  /** A cluster of short options; the first that takes a value takes the rest of
      the cluster, or the next argument when nothing is left. */
  function Cluster(letters: string, hasNext: bool, names: set<string>): Option<Item> {
    if letters == "" then Some(Options(1, names))
    else
      var option := ['-', letters[0]];
      if letters[0] in SHORT_FLAGS then Cluster(letters[1..], hasNext, names + {option})
      else if letters[0] in SHORT_VALUED then
        if |letters| > 1 then Some(Options(1, names + {option}))
        else if hasNext then Some(Options(2, names + {option})) else None
      else None
  }

  function Classify(p: Platform, argument: string, hasNext: bool): (item: Option<Item>)
    ensures item.Some? && item.value.Options? ==> item.value.width == 1 || (item.value.width == 2 && hasNext)
  {
    if argument == "--" then Some(Separator)
    else if !("-" <= argument) || argument == "-" then Some(Positional)
    else if "--" <= argument then LongOption(p, argument, hasNext)
    else
      ClusterWidth(argument[1..], hasNext, {});
      Cluster(argument[1..], hasNext, {})
  }

  lemma {:induction false} ClusterWidth(letters: string, hasNext: bool, names: set<string>)
    ensures var item := Cluster(letters, hasNext, names);
              item.Some? ==> item.value.Options? && (item.value.width == 1 || (item.value.width == 2 && hasNext))
  {
    if letters != "" {
      ClusterWidth(letters[1..], hasNext, names + {['-', letters[0]]});
    }
  }

  // ----- what a whole argument list is -----

  datatype Parsed = Parsed(positionals: seq<(string, nat)>, options: set<string>)

  /** Every argument from a `--` on is a positional. */
  function AllPositional(p: Platform, arguments: seq<string>, index: nat): seq<(string, nat)> {
    if arguments == [] then [] else [(p.normalize(arguments[0]), index)] + AllPositional(p, arguments[1..], index + 1)
  }

  /** Read `arguments`, the first of which has position `index`. */
  function Parse(p: Platform, arguments: seq<string>, index: nat): Option<Parsed>
    decreases |arguments|
  {
    if arguments == [] then Some(Parsed([], {}))
    else
      var item := Classify(p, arguments[0], |arguments| > 1);
      if item.None? then None
      else if item.value.Separator? then Some(Parsed(AllPositional(p, arguments[1..], index + 1), {}))
      else if item.value.Positional? then
        var rest := Parse(p, arguments[1..], index + 1);
        if rest.None? then None else Some(rest.value.(positionals := [(p.normalize(arguments[0]), index)]
            + rest.value.positionals))
      else
        var rest := Parse(p, arguments[item.value.width..], index + item.value.width);
        if rest.None? then None else Some(rest.value.(options := item.value.names + rest.value.options))
  }

  // ----- the program's loop -----

  ghost function Joined(head: Parsed, rest: Option<Parsed>): Option<Parsed> {
    if rest.None? then None
    else Some(Parsed(head.positionals + rest.value.positionals, head.options + rest.value.options))
  }

  /** The inner loop over a short cluster: the names it adds and whether the next
      argument is its value. */
  method ReadCluster(letters: string, hasNext: bool) returns (item: Option<Item>)
    ensures item == Cluster(letters, hasNext, {})
  {
    var names: set<string>, k := {}, 0;
    while k < |letters|
      invariant 0 <= k <= |letters| && Cluster(letters, hasNext, {}) == Cluster(letters[k..], hasNext, names)
    {
      var option := ['-', letters[k]];
      if letters[k] !in SHORT_FLAGS && letters[k] !in SHORT_VALUED {
        return None;
      }
      if letters[k] in SHORT_FLAGS {
        names := names + {option};
        k := k + 1;
      } else {
        var remainder := letters[k + 1..];
        if remainder != "" {
          return Some(Options(1, names + {option}));
        }
        return if hasNext then Some(Options(2, names + {option})) else None;
      }
    }
    return Some(Options(1, names));
  }

  method ParseSystemctlArguments(p: Platform, arguments: seq<string>) returns (parsed: Option<Parsed>)
    ensures parsed == Parse(p, arguments, 0)
  {
    var positionals: seq<(string, nat)>, options: set<string>, index: nat, endOfOptions := [], {}, 0, false;
    assert arguments[0..] == arguments;
    JoinedEmpty(Parse(p, arguments, 0));
    while index < |arguments|
      invariant 0 <= index <= |arguments|
      invariant !endOfOptions ==>
                  Parse(p, arguments, 0) == Joined(Parsed(positionals, options), Parse(p, arguments[index..], index))
      invariant endOfOptions ==>
                  Parse(p, arguments, 0)
                      == Some(Parsed(positionals + AllPositional(p, arguments[index..], index), options))
    {
      var argument := arguments[index];
      assert arguments[index..][1..] == arguments[index + 1..];
      if endOfOptions {
        assert positionals + ([(p.normalize(argument), index)] + AllPositional(p, arguments[index + 1..], index + 1))
            == positionals + [(p.normalize(argument), index)] + AllPositional(p, arguments[index + 1..], index + 1);
        positionals := positionals + [(p.normalize(argument), index)];
        index := index + 1;
      } else if argument == "--" {
        endOfOptions := true;
        index := index + 1;
      } else if !("-" <= argument) || argument == "-" {
        ghost var rest := Parse(p, arguments[index + 1..], index + 1);
        if rest.Some? {
          JoinedPositional(Parsed(positionals, options), (p.normalize(argument), index), rest);
        }
        positionals := positionals + [(p.normalize(argument), index)];
        index := index + 1;
      } else {
        var item: Option<Item>;
        if "--" <= argument {
          item := LongOption(p, argument, index + 1 < |arguments|);
        } else {
          item := ReadCluster(argument[1..], index + 1 < |arguments|);
          ClusterWidth(argument[1..], index + 1 < |arguments|, {});
        }
        assert item == Classify(p, argument, index + 1 < |arguments|);
        if item.None? {
          return None;
        }
        assert arguments[index..][item.value.width..] == arguments[index + item.value.width..];
        ghost var rest := Parse(p, arguments[index + item.value.width..], index + item.value.width);
        if rest.Some? {
          JoinedOptions(Parsed(positionals, options), item.value.names, rest);
        }
        options := options + item.value.names;
        index := index + item.value.width;
      }
    }
    assert positionals + [] == positionals && options + {} == options;
    return Some(Parsed(positionals, options));
  }

  lemma JoinedEmpty(rest: Option<Parsed>)
    ensures Joined(Parsed([], {}), rest) == rest
  {
    if rest.Some? {
      assert [] + rest.value.positionals == rest.value.positionals && {} + rest.value.options == rest.value.options;
    }
  }

  lemma JoinedPositional(head: Parsed, positional: (string, nat), rest: Option<Parsed>)
    requires rest.Some?
    ensures Joined(head, Some(rest.value.(positionals := [positional] + rest.value.positionals)))
         == Joined(head.(positionals := head.positionals + [positional]), rest)
  {
    assert head.positionals + ([positional] + rest.value.positionals)
        == head.positionals + [positional] + rest.value.positionals;
  }

  lemma JoinedOptions(head: Parsed, names: set<string>, rest: Option<Parsed>)
    requires rest.Some?
    ensures Joined(head, Some(rest.value.(options := names + rest.value.options)))
         == Joined(head.(options := head.options + names), rest)
  {
    assert head.options + (names + rest.value.options) == head.options + names + rest.value.options;
  }

  // ----- each index is consumed once -----

  datatype Role = AsPositional | AsSeparator | AsOption | AsValue

  /** The role each argument of an accepted list plays. */
  function Roles(p: Platform, arguments: seq<string>, ended: bool): (roles: seq<Role>)
    requires ended || Parse(p, arguments, 0).Some?
    ensures |roles| == |arguments|
    decreases |arguments|
  {
    if arguments == [] then []
    else if ended then [AsPositional] + Roles(p, arguments[1..], true)
    else
      var item := Classify(p, arguments[0], |arguments| > 1).value;
      if item.Separator? then [AsSeparator] + Roles(p, arguments[1..], true)
      else if item.Positional? then
        ParseIgnoresIndex(p, arguments[1..], 1, 0);
        [AsPositional] + Roles(p, arguments[1..], false)
      else
        ParseIgnoresIndex(p, arguments[item.width..], item.width, 0);
        (if item.width == 1 then [AsOption] else [AsOption, AsValue]) + Roles(p, arguments[item.width..], false)
  }

  function Commands(positionals: seq<(string, nat)>): seq<string> {
    if positionals == [] then [] else [positionals[0].0] + Commands(positionals[1..])
  }

  /** Positions move with the index; commands and options do not. */
  lemma {:induction false} ParseIgnoresIndex(p: Platform, arguments: seq<string>, a: nat, b: nat)
    ensures Parse(p, arguments, a).Some? <==> Parse(p, arguments, b).Some?
    ensures Parse(p, arguments, a).Some? ==>
              Commands(Parse(p, arguments, a).value.positionals) == Commands(Parse(p, arguments, b).value.positionals)
              && Parse(p, arguments, a).value.options == Parse(p, arguments, b).value.options
    decreases |arguments|
  {
    if arguments != [] {
      var item := Classify(p, arguments[0], |arguments| > 1);
      if item.Some? {
        if item.value.Separator? {
          AllPositionalIgnoresIndex(p, arguments[1..], a + 1, b + 1);
        } else if item.value.Positional? {
          ParseIgnoresIndex(p, arguments[1..], a + 1, b + 1);
        } else {
          ParseIgnoresIndex(p, arguments[item.value.width..], a + item.value.width, b + item.value.width);
        }
      }
    }
  }

  lemma {:induction false} AllPositionalIgnoresIndex(p: Platform, arguments: seq<string>, a: nat, b: nat)
    ensures Commands(AllPositional(p, arguments, a)) == Commands(AllPositional(p, arguments, b))
  {
    if arguments != [] {
      AllPositionalIgnoresIndex(p, arguments[1..], a + 1, b + 1);
    }
  }

  /** The positionals that a role for every argument implies, in order. */
  function PositionalsOf(p: Platform, arguments: seq<string>, roles: seq<Role>, index: nat): seq<(string, nat)>
    requires |arguments| == |roles|
  {
    if arguments == [] then []
    else
      (if roles[0].AsPositional? then [(p.normalize(arguments[0]), index)] else [])
      + PositionalsOf(p, arguments[1..], roles[1..], index + 1)
  }

  /** The names an option argument stands for. */
  function NamesOf(p: Platform, argument: string, hasNext: bool): set<string> {
    var item := Classify(p, argument, hasNext);
    if item.Some? && item.value.Options? then item.value.names else {}
  }

  /** All names of the arguments that play the role of an option. */
  function OptionsOf(p: Platform, arguments: seq<string>, roles: seq<Role>): set<string>
    requires |arguments| == |roles|
  {
    if arguments == [] then {}
    else
      (if roles[0].AsOption? then NamesOf(p, arguments[0], |arguments| > 1) else {})
          + OptionsOf(p, arguments[1..], roles[1..])
  }

  /** A `--` came before index `j`. */
  predicate HasEnded(roles: seq<Role>, j: nat, ended: bool)
    requires j <= |roles|
  {
    ended || AsSeparator in roles[..j]
  }

  /** What one argument is where an item starts, when none has ended the options. */
  function ItemAt(p: Platform, arguments: seq<string>, j: nat): Option<Item>
    requires j < |arguments|
  {
    Classify(p, arguments[j], j + 1 < |arguments|)
  }

  predicate IsOptionOf(item: Option<Item>, width: nat) {
    item.Some? && item.value.Options? && item.value.width == width
  }

  /** The rule of each role: only the first `--` in item position separates, and
      everything after it is positional; before it a positional and an option are
      classified as such, and a value stands exactly after an option of two. */
  predicate RuleAt(p: Platform, arguments: seq<string>, roles: seq<Role>, j: nat, ended: bool)
    requires j < |arguments| == |roles|
  {
    match roles[j]
    case AsSeparator => !HasEnded(roles, j, ended) && ItemAt(p, arguments, j) == Some(Separator)
    case AsPositional => HasEnded(roles, j, ended) || ItemAt(p, arguments, j) == Some(Positional)
    case AsOption =>
      && !HasEnded(roles, j, ended)
      && IsOptionOf(ItemAt(p, arguments, j), if j + 1 < |roles| && roles[j + 1].AsValue? then 2 else 1)
    case AsValue =>
      !HasEnded(roles, j, ended) && j > 0 && roles[j - 1].AsOption? && IsOptionOf(ItemAt(p, arguments, j - 1), 2)
  }

  ghost predicate FollowRules(p: Platform, arguments: seq<string>, roles: seq<Role>, ended: bool) {
    |arguments| == |roles| && forall j :: 0 <= j < |roles| ==> RuleAt(p, arguments, roles, j, ended)
  }

  /** The roles follow the rules, and the reported positionals and options are
      exactly those the roles imply. */
  ghost predicate RolesExplain(p: Platform, arguments: seq<string>, index: nat, roles: seq<Role>) {
    && FollowRules(p, arguments, roles, false) && Parse(p, arguments, index).Some?
    && Parse(p, arguments, index).value.positionals == PositionalsOf(p, arguments, roles, index)
    && Parse(p, arguments, index).value.options == OptionsOf(p, arguments, roles)
  }

  /** Rules are local: behind a whole item they read as at the start of the rest. */
  lemma RuleBehind(
      p: Platform, first: seq<string>, own: seq<Role>, rest: seq<string>, roles: seq<Role>, j: nat, ended: bool)
    requires |first| == |own| > 0 && j < |rest| == |roles| && (j > 0 || !roles[0].AsValue?)
    requires !roles[0].AsValue?
    ensures RuleAt(p, first + rest, own + roles, |first| + j, ended)
       <==> RuleAt(p, rest, roles, j, ended || AsSeparator in own)
  {
    var all, at := own + roles, |first| + j;
    assert all[..at] == own + roles[..j];
    assert HasEnded(all, at, ended) <==> HasEnded(roles, j, ended || AsSeparator in own);
    assert all[at] == roles[j] && ItemAt(p, first + rest, at) == ItemAt(p, rest, j);
    assert j > 0 ==> all[at - 1] == roles[j - 1] && ItemAt(p, first + rest, at - 1) == ItemAt(p, rest, j - 1);
    assert j + 1 < |roles| ==> all[at + 1] == roles[j + 1];
  }

  /** Rules hold of a list exactly when they hold of its first item and of the rest. */
  lemma FollowBehind(p: Platform, first: seq<string>, own: seq<Role>, rest: seq<string>, roles: seq<Role>, ended: bool)
    requires |first| == |own| > 0 && |rest| == |roles| && (roles != [] ==> !roles[0].AsValue?)
    ensures FollowRules(p, first + rest, own + roles, ended)
       <==> FollowRules(p, rest, roles, ended || AsSeparator in own) && FollowFirst(p, first, own, rest, roles, ended)
  {
    var arguments, all, later := first + rest, own + roles, ended || AsSeparator in own;
    forall k | |first| <= k < |all|
      ensures RuleAt(p, arguments, all, k, ended) <==> RuleAt(p, rest, roles, k - |first|, later)
    {
      RuleBehind(p, first, own, rest, roles, k - |first|, ended);
    }
    if FollowRules(p, arguments, all, ended) {
      forall j | 0 <= j < |roles|
        ensures RuleAt(p, rest, roles, j, later)
      {
        assert RuleAt(p, arguments, all, |first| + j, ended);
      }
    }
  }

  ghost predicate FollowFirst(
      p: Platform, first: seq<string>, own: seq<Role>, rest: seq<string>, roles: seq<Role>, ended: bool)
    requires |first| == |own| && |rest| == |roles|
  {
    forall k :: 0 <= k < |first| ==> RuleAt(p, first + rest, own + roles, k, ended)
  }

  /** Adding an item in front adds what its roles imply. */
  lemma ImpliedBehind(p: Platform, first: string, own: Role, rest: seq<string>, roles: seq<Role>, index: nat)
    requires |rest| == |roles|
    ensures PositionalsOf(p, [first] + rest, [own] + roles, index)
         == (if own.AsPositional? then [(p.normalize(first), index)] else []) + PositionalsOf(p, rest, roles, index + 1)
    ensures OptionsOf(p, [first] + rest, [own] + roles)
         == (if own.AsOption? then NamesOf(p, first, rest != []) else {}) + OptionsOf(p, rest, roles)
  {
    assert ([first] + rest)[1..] == rest && ([own] + roles)[1..] == roles;
  }

  lemma {:induction false} NothingStartsAsValue(p: Platform, arguments: seq<string>, roles: seq<Role>, ended: bool)
    requires FollowRules(p, arguments, roles, ended)
    ensures roles != [] ==> !roles[0].AsValue?
  {
    if roles != [] {
      assert RuleAt(p, arguments, roles, 0, ended);
    }
  }

  lemma PositionalExplained(p: Platform, first: string, rest: seq<string>, index: nat, roles: seq<Role>)
    requires Classify(p, first, rest != []) == Some(Positional) && RolesExplain(p, rest, index + 1, roles)
    ensures RolesExplain(p, [first] + rest, index, [AsPositional] + roles)
  {
    NothingStartsAsValue(p, rest, roles, false);
    FollowBehind(p, [first], [AsPositional], rest, roles, false);
    ImpliedBehind(p, first, AsPositional, rest, roles, index);
    assert ([first] + rest)[1..] == rest;
  }

  lemma FlagExplained(p: Platform, first: string, rest: seq<string>, index: nat, roles: seq<Role>, names: set<string>)
    requires Classify(p, first, rest != []) == Some(Options(1, names)) && RolesExplain(p, rest, index + 1, roles)
    ensures RolesExplain(p, [first] + rest, index, [AsOption] + roles)
  {
    NothingStartsAsValue(p, rest, roles, false);
    FollowBehind(p, [first], [AsOption], rest, roles, false);
    ImpliedBehind(p, first, AsOption, rest, roles, index);
    assert ([first] + rest)[1..] == rest;
  }

  lemma ValuedExplained(
      p: Platform, first: string, value: string, rest: seq<string>, index: nat, roles: seq<Role>, names: set<string>)
    requires Classify(p, first, true) == Some(Options(2, names)) && RolesExplain(p, rest, index + 2, roles)
    ensures RolesExplain(p, [first, value] + rest, index, [AsOption, AsValue] + roles)
  {
    NothingStartsAsValue(p, rest, roles, false);
    FollowBehind(p, [first, value], [AsOption, AsValue], rest, roles, false);
    ImpliedBehindTwo(p, first, value, rest, roles, index);
    assert ([first, value] + rest)[2..] == rest;
  }

  lemma ImpliedBehindTwo(p: Platform, first: string, value: string, rest: seq<string>, roles: seq<Role>, index: nat)
    requires |rest| == |roles|
    ensures PositionalsOf(p, [first, value] + rest, [AsOption, AsValue] + roles, index)
         == PositionalsOf(p, rest, roles, index + 2)
    ensures OptionsOf(p, [first, value] + rest, [AsOption, AsValue] + roles)
         == NamesOf(p, first, true) + OptionsOf(p, rest, roles)
  {
    ImpliedBehind(p, value, AsValue, rest, roles, index + 1);
    ImpliedBehind(p, first, AsOption, [value] + rest, [AsValue] + roles, index);
    assert [first, value] + rest == [first] + ([value] + rest);
    assert [AsOption, AsValue] + roles == [AsOption] + ([AsValue] + roles);
  }

  lemma SeparatorExplained(p: Platform, first: string, rest: seq<string>, index: nat)
    requires Classify(p, first, rest != []) == Some(Separator)
    ensures RolesExplain(p, [first] + rest, index, [AsSeparator] + Roles(p, rest, true))
  {
    var roles := Roles(p, rest, true);
    EndedIsPositional(p, rest, index + 1);
    FollowBehind(p, [first], [AsSeparator], rest, roles, false);
    ImpliedBehind(p, first, AsSeparator, rest, roles, index);
    assert ([first] + rest)[1..] == rest;
  }

  lemma {:induction false} EndedIsPositional(p: Platform, arguments: seq<string>, index: nat)
    ensures var roles := Roles(p, arguments, true);
            (forall j :: 0 <= j < |arguments| ==> roles[j].AsPositional?) && FollowRules(p, arguments, roles, true)
            && AllPositional(p, arguments, index) == PositionalsOf(p, arguments, roles, index)
            && OptionsOf(p, arguments, roles) == {}
  {
    if arguments != [] {
      EndedIsPositional(p, arguments[1..], index + 1);
      assert Roles(p, arguments, true)[1..] == Roles(p, arguments[1..], true);
    }
  }

  /** The list after its first item is accepted too. */
  lemma RestIsAccepted(p: Platform, arguments: seq<string>, width: nat)
    requires Parse(p, arguments, 0).Some? && arguments != [] && 1 <= width <= |arguments|
    requires ItemAt(p, arguments, 0) == Some(Positional) ==> width == 1
    requires ItemAt(p, arguments, 0).value.Options? ==> width == ItemAt(p, arguments, 0).value.width
    requires !ItemAt(p, arguments, 0).value.Separator?
    ensures Parse(p, arguments[width..], 0).Some?
  {
    ParseIgnoresIndex(p, arguments[width..], width, 0);
  }

  /** Each index of an accepted list is consumed once, in a role its rule allows,
      and the roles give exactly the reported positionals and options. */
  lemma {:induction false} EachIndexIsConsumedOnce(p: Platform, arguments: seq<string>, index: nat)
    requires Parse(p, arguments, 0).Some?
    ensures RolesExplain(p, arguments, index, Roles(p, arguments, false))
    decreases |arguments|
  {
    if arguments != [] {
      var item, first := ItemAt(p, arguments, 0).value, arguments[0];
      assert arguments == [first] + arguments[1..];
      if item.Separator? {
        SeparatorExplained(p, first, arguments[1..], index);
      } else {
        var width := if item.Positional? then 1 else item.width;
        var rest := arguments[width..];
        RestIsAccepted(p, arguments, width);
        EachIndexIsConsumedOnce(p, rest, index + width);
        if item.Positional? {
          PositionalExplained(p, first, rest, index, Roles(p, rest, false));
        } else if width == 1 {
          FlagExplained(p, first, rest, index, Roles(p, rest, false), item.names);
        } else {
          assert arguments == [first, arguments[1]] + rest;
          ValuedExplained(p, first, arguments[1], rest, index, Roles(p, rest, false), item.names);
        }
      }
    }
  }

  /** The rules leave no choice: they allow exactly one role for every index, and
      only of an accepted list. */
  lemma {:induction false} RolesAreDetermined(p: Platform, arguments: seq<string>, roles: seq<Role>, ended: bool)
    requires FollowRules(p, arguments, roles, ended)
    ensures ended || Parse(p, arguments, 0).Some?
    ensures roles == Roles(p, arguments, ended)
    decreases |arguments|
  {
    if arguments != [] {
      assert RuleAt(p, arguments, roles, 0, ended);
      assert HasEnded(roles, 0, ended) <==> ended;
      var width := if roles[0].AsOption? && |roles| > 1 && roles[1].AsValue? then 2 else 1;
      RestFollows(p, arguments, roles, width, ended);
      RolesAreDetermined(p, arguments[width..], roles[width..], ended || roles[0].AsSeparator?);
      ParseIgnoresIndex(p, arguments[width..], width, 0);
      assert roles == roles[..width] + roles[width..];
    }
  }

  lemma RestFollows(p: Platform, arguments: seq<string>, roles: seq<Role>, width: nat, ended: bool)
    requires FollowRules(p, arguments, roles, ended) && arguments != []
    requires width == if roles[0].AsOption? && |roles| > 1 && roles[1].AsValue? then 2 else 1
    ensures FollowRules(p, arguments[width..], roles[width..], ended || roles[0].AsSeparator?)
  {
    var own, rest := roles[..width], roles[width..];
    assert roles == own + rest && arguments == arguments[..width] + arguments[width..];
    assert rest != [] ==> RuleAt(p, arguments, roles, width, ended);
    assert AsSeparator in own <==> roles[0].AsSeparator?;
    FollowBehind(p, arguments[..width], own, arguments[width..], rest, ended);
  }

  /** A list is accepted exactly when the rules give each of its indices a role. */
  lemma AcceptedIffRolesFollow(p: Platform, arguments: seq<string>)
    ensures Parse(p, arguments, 0).Some? <==> exists roles :: FollowRules(p, arguments, roles, false)
  {
    if Parse(p, arguments, 0).Some? {
      EachIndexIsConsumedOnce(p, arguments, 0);
    }
    if roles :| FollowRules(p, arguments, roles, false) {
      RolesAreDetermined(p, arguments, roles, false);
    }
  }

  // ----- the capabilities -----

  datatype Capability = Restart | Reboot

  const POWER_STATE_VERBS: set<string> := {"emergency", "halt", "kexec", "poweroff", "reboot", "rescue", "soft-reboot"}

  const POWER_STATE_TARGETS: set<string> := {
    "ctrl-alt-del.target", "emergency.target", "halt.target", "kexec.target", "poweroff.target", "reboot.target",
    "rescue.target",
    "soft-reboot.target", "runlevel0.target", "runlevel1.target", "runlevel6.target", "shutdown.target",
    "sigpwr.target"}

  const UNIT_OPERATIONS: set<string> := {
    "isolate", "reload-or-restart", "restart", "start", "try-reload-or-restart", "try-restart"}

  const ENABLE_OPERATIONS: set<string> := {"enable", "preset", "reenable"}

  /** The systemctl branch. A unit is normalized again from its own argument,
      which gives the command already recorded for it. */
  function Capabilities(p: Platform, arguments: seq<string>): set<Capability> {
    var parsed := Parse(p, arguments, 0);
    if parsed.None? then {Restart, Reboot}
    else
      var positionals, options := parsed.value.positionals, parsed.value.options;
      if positionals == [] then {}
      else
        var subcommand := positionals[0].0;
        var namesPowerState := exists unit | unit in positionals[1..] ::
            NormalizedArgument(p, arguments, unit.1) in POWER_STATE_TARGETS;
        if subcommand in POWER_STATE_VERBS then {Reboot}
        else if subcommand in UNIT_OPERATIONS && namesPowerState then {Reboot}
        else if subcommand in ENABLE_OPERATIONS && "--now" in options && namesPowerState then {Reboot}
        else if subcommand == "restart" then {Restart}
        else {}
  }

  function NormalizedArgument(p: Platform, arguments: seq<string>, index: nat): string {
    if index < |arguments| then p.normalize(arguments[index]) else ""
  }

  /** Each positional records the normalized command of its own argument. */
  lemma {:induction false} PositionalsNameTheirArguments(
      p: Platform, arguments: seq<string>, roles: seq<Role>, index: nat, unit: (string, nat))
    requires |arguments| == |roles| && unit in PositionalsOf(p, arguments, roles, index)
    ensures index <= unit.1 < index + |arguments| && unit.0 == p.normalize(arguments[unit.1 - index])
  {
    if arguments != [] && unit in PositionalsOf(p, arguments[1..], roles[1..], index + 1) {
      PositionalsNameTheirArguments(p, arguments[1..], roles[1..], index + 1, unit);
    }
  }

  lemma {:induction false} CommandsMembers(positionals: seq<(string, nat)>)
    ensures |Commands(positionals)| == |positionals|
    ensures forall i :: 0 <= i < |positionals| ==> Commands(positionals)[i] == positionals[i].0
  {
    if positionals != [] {
      CommandsMembers(positionals[1..]);
    }
  }

  /** The capabilities depend only on the positional commands and on `--now`. */
  ghost function CapabilitiesOf(commands: seq<string>, now: bool): set<Capability> {
    if commands == [] then {}
    else
      var namesPowerState := exists k :: 1 <= k < |commands| && commands[k] in POWER_STATE_TARGETS;
      if commands[0] in POWER_STATE_VERBS then {Reboot}
      else if commands[0] in UNIT_OPERATIONS && namesPowerState then {Reboot}
      else if commands[0] in ENABLE_OPERATIONS && now && namesPowerState then {Reboot}
      else if commands[0] == "restart" then {Restart}
      else {}
  }

  lemma PositionalsAreArguments(p: Platform, arguments: seq<string>)
    requires Parse(p, arguments, 0).Some?
    ensures var positionals := Parse(p, arguments, 0).value.positionals;
            forall k :: 0 <= k < |positionals| ==>
                NormalizedArgument(p, arguments, positionals[k].1) == positionals[k].0
  {
    var positionals := Parse(p, arguments, 0).value.positionals;
    EachIndexIsConsumedOnce(p, arguments, 0);
    forall k | 0 <= k < |positionals|
      ensures NormalizedArgument(p, arguments, positionals[k].1) == positionals[k].0
    {
      PositionalsNameTheirArguments(p, arguments, Roles(p, arguments, false), 0, positionals[k]);
    }
  }

  lemma CapabilitiesReadCommands(p: Platform, arguments: seq<string>)
    requires Parse(p, arguments, 0).Some?
    ensures var parsed := Parse(p, arguments, 0).value;
            Capabilities(p, arguments) == CapabilitiesOf(Commands(parsed.positionals), "--now" in parsed.options)
  {
    var positionals := Parse(p, arguments, 0).value.positionals;
    PositionalsAreArguments(p, arguments);
    CommandsMembers(positionals);
    if positionals != [] {
      UnitsAreCommands(p, arguments, positionals, POWER_STATE_TARGETS);
    }
  }

  /** Testing each unit's own argument is testing the command recorded for it. */
  lemma UnitsAreCommands(p: Platform, arguments: seq<string>, positionals: seq<(string, nat)>, targets: set<string>)
    requires positionals != []
    requires forall k :: 1 <= k < |positionals| ==>
               NormalizedArgument(p, arguments, positionals[k].1) == positionals[k].0
    ensures (exists unit :: unit in positionals[1..] && NormalizedArgument(p, arguments, unit.1) in targets)
       <==> exists k :: 1 <= k < |positionals| && positionals[k].0 in targets
  {
    var units := positionals[1..];
    assert forall k :: 1 <= k < |positionals| ==> positionals[k] == units[k - 1];
    if k :| 1 <= k < |positionals| && positionals[k].0 in targets {
      assert units[k - 1] in units;
    }
    if unit :| unit in units && NormalizedArgument(p, arguments, unit.1) in targets {
      var i :| 0 <= i < |units| && units[i] == unit;
      assert positionals[i + 1] == unit;
    }
  }

  // ----- inserting an option -----

  /** `at` is where the next item starts, with no `--` before it. */
  predicate IsBoundary(p: Platform, arguments: seq<string>, at: nat)
    decreases |arguments|
  {
    at == 0
    || (arguments != [] && at <= |arguments|
        && var item := Classify(p, arguments[0], |arguments| > 1);
           item.Some? && !item.value.Separator?
           && var width := if item.value.Positional? then 1 else item.value.width;
              width <= at && IsBoundary(p, arguments[width..], at - width))
  }

  /** A well-formed known option, with its separate value when it takes one. */
  predicate IsOption(p: Platform, inserted: seq<string>, names: set<string>) {
    inserted != [] && Classify(p, inserted[0], |inserted| > 1) == Some(Options(|inserted|, names))
  }

  /** What is accepted as the last argument is accepted, the same, before others. */
  lemma {:induction false} ClusterBeforeMore(letters: string, names: set<string>)
    requires Cluster(letters, false, names).Some?
    ensures Cluster(letters, true, names) == Cluster(letters, false, names)
  {
    if letters != "" && letters[0] in SHORT_FLAGS {
      ClusterBeforeMore(letters[1..], names + {['-', letters[0]]});
    }
  }

  lemma ClassifyBeforeMore(p: Platform, argument: string)
    requires Classify(p, argument, false).Some?
    ensures Classify(p, argument, true) == Classify(p, argument, false)
  {
    if argument != "--" && "-" <= argument && argument != "-" && !("--" <= argument) {
      ClusterBeforeMore(argument[1..], {});
    }
  }

  /** `longer` parses to the same commands as `arguments`, with `names` more options. */
  ghost predicate AddsOptions(
      p: Platform, arguments: seq<string>, longer: seq<string>, names: set<string>, index: nat) {
    var before, after := Parse(p, arguments, index), Parse(p, longer, index);
    && before.Some? && after.Some?
    && Commands(after.value.positionals) == Commands(before.value.positionals)
    && after.value.options == before.value.options + names
  }

  lemma InsertedFirst(p: Platform, arguments: seq<string>, inserted: seq<string>, names: set<string>, index: nat)
    requires Parse(p, arguments, index).Some? && IsOption(p, inserted, names)
    ensures AddsOptions(p, arguments, inserted + arguments, names, index)
  {
    var longer := inserted + arguments;
    assert longer[|inserted|..] == arguments && longer[0] == inserted[0];
    if |inserted| == 1 && arguments != [] {
      ClassifyBeforeMore(p, inserted[0]);
    }
    ParseIgnoresIndex(p, arguments, index, index + |inserted|);
  }

  lemma InsertedAfterPositional(
      p: Platform, first: string, tail: seq<string>, longer: seq<string>, names: set<string>, index: nat)
    requires Classify(p, first, tail != []) == Some(Positional) && Classify(p, first, longer != []) == Some(Positional)
    requires AddsOptions(p, tail, longer, names, index + 1)
    ensures AddsOptions(p, [first] + tail, [first] + longer, names, index)
  {
    assert ([first] + tail)[1..] == tail && ([first] + longer)[1..] == longer;
    var a, b := Parse(p, tail, index + 1).value.positionals, Parse(p, longer, index + 1).value.positionals;
    var head := (p.normalize(first), index);
    assert ([head] + a)[1..] == a && ([head] + b)[1..] == b;
  }

  lemma InsertedAfterOption(
      p: Platform, first: seq<string>, own: set<string>, tail: seq<string>, longer: seq<string>, names: set<string>,
      index: nat)
    requires first != [] && Classify(p, first[0], |first + tail| > 1) == Some(Options(|first|, own))
    requires Classify(p, first[0], |first + longer| > 1) == Some(Options(|first|, own))
    requires AddsOptions(p, tail, longer, names, index + |first|)
    ensures AddsOptions(p, first + tail, first + longer, names, index)
  {
    assert (first + tail)[|first|..] == tail && (first + longer)[|first|..] == longer;
    assert (first + tail)[0] == first[0] && (first + longer)[0] == first[0];
  }

  /** What stands before a boundary: one item, and a shorter list with the boundary in it. */
  lemma NextItem(p: Platform, arguments: seq<string>, at: nat, index: nat) returns (item: Item, width: nat)
    requires Parse(p, arguments, index).Some? && at > 0 && IsBoundary(p, arguments, at)
    ensures arguments != [] && Classify(p, arguments[0], |arguments| > 1) == Some(item)
    ensures 1 <= width <= at <= |arguments|
    ensures ((item == Positional && width == 1) || (item.Options? && item.width == width))
    ensures Parse(p, arguments[width..], index + width).Some? && IsBoundary(p, arguments[width..], at - width)
  {
    item := Classify(p, arguments[0], |arguments| > 1).value;
    width := if item.Positional? then 1 else item.width;
  }

  lemma SplitAfter(first: seq<string>, rest: seq<string>, inserted: seq<string>, after: seq<string>)
    ensures first + rest + after == first + (rest + after)
    ensures first + rest + inserted + after == first + (rest + inserted + after)
  {
  }

  lemma InsertedAtStart(p: Platform, inserted: seq<string>, after: seq<string>, names: set<string>, index: nat)
    requires Parse(p, [] + after, index).Some? && IsOption(p, inserted, names)
    ensures AddsOptions(p, [] + after, [] + inserted + after, names, index)
  {
    assert [] + after == after && [] + inserted == inserted;
    InsertedFirst(p, after, inserted, names, index);
  }

  /** `arguments` is accepted and its next item may start at `at`. */
  ghost predicate HasBoundary(p: Platform, arguments: seq<string>, at: nat, index: nat) {
    Parse(p, arguments, index).Some? && IsBoundary(p, arguments, at)
  }

  lemma NextOfTwo(p: Platform, before: seq<string>, after: seq<string>, index: nat) returns (item: Item, width: nat)
    requires before != [] && HasBoundary(p, before + after, |before|, index)
    ensures 1 <= width <= |before| && Classify(p, before[0], |before + after| > 1) == Some(item)
    ensures (item == Positional && width == 1) || (item.Options? && item.width == width)
    ensures HasBoundary(p, before[width..] + after, |before[width..]|, index + width)
  {
    item, width := NextItem(p, before + after, |before|, index);
    assert (before + after)[width..] == before[width..] + after;
  }

  lemma {:induction false} InsertedOptionChangesNothingElse(
      p: Platform, before: seq<string>, inserted: seq<string>, after: seq<string>, names: set<string>, index: nat)
    requires HasBoundary(p, before + after, |before|, index) && IsOption(p, inserted, names)
    ensures AddsOptions(p, before + after, before + inserted + after, names, index)
    decreases |before|
  {
    if before == [] {
      InsertedAtStart(p, inserted, after, names, index);
    } else {
      var item, width := NextOfTwo(p, before, after, index);
      InsertedOptionChangesNothingElse(p, before[width..], inserted, after, names, index + width);
      InsertedStep(p, before, inserted, after, names, index, item, width);
    }
  }

  lemma InsertedStep(
      p: Platform, before: seq<string>, inserted: seq<string>, after: seq<string>, names: set<string>, index: nat,
      item: Item, width: nat)
    requires 1 <= width <= |before| && Classify(p, before[0], |before + after| > 1) == Some(item)
    requires (item == Positional && width == 1) || (item.Options? && item.width == width)
    requires AddsOptions(p, before[width..] + after, before[width..] + inserted + after, names, index + width)
    ensures AddsOptions(p, before + after, before + inserted + after, names, index)
  {
    var first, rest := before[..width], before[width..];
    assert before == first + rest;
    SplitAfter(first, rest, inserted, after);
    InsertedLater(p, first, rest + after, rest + inserted + after, item, names, index);
  }

  lemma InsertedLater(
      p: Platform, first: seq<string>, tail: seq<string>, longer: seq<string>, item: Item, names: set<string>,
      index: nat)
    requires first != [] && |tail| <= |longer| && Classify(p, first[0], |first + tail| > 1) == Some(item)
    requires (item == Positional && |first| == 1) || (item.Options? && item.width == |first|)
    requires AddsOptions(p, tail, longer, names, index + |first|)
    ensures AddsOptions(p, first + tail, first + longer, names, index)
  {
    if |first + tail| == 1 {
      ClassifyBeforeMore(p, first[0]);
    }
    if item.Positional? {
      assert first == [first[0]];
      InsertedAfterPositional(p, first[0], tail, longer, names, index);
    } else {
      InsertedAfterOption(p, first, item.names, tail, longer, names, index);
    }
  }

  /** Inserting any well-formed known option other than `--now` at an argument
      boundary before `--` leaves the positional commands and the derived
      capabilities unchanged. */
  lemma InsertedOptionKeepsCapabilities(
      p: Platform, arguments: seq<string>, at: nat, inserted: seq<string>, names: set<string>)
    requires Parse(p, arguments, 0).Some? && IsBoundary(p, arguments, at) && at <= |arguments|
    requires IsOption(p, inserted, names) && "--now" !in names
    ensures var longer := arguments[..at] + inserted + arguments[at..];
              Parse(p, longer, 0).Some?
              && Commands(Parse(p, longer, 0).value.positionals) == Commands(Parse(p, arguments, 0).value.positionals)
              && Capabilities(p, longer) == Capabilities(p, arguments)
  {
    assert arguments[..at] + arguments[at..] == arguments;
    InsertedOptionChangesNothingElse(p, arguments[..at], inserted, arguments[at..], names, 0);
    CapabilitiesReadCommands(p, arguments);
    CapabilitiesReadCommands(p, arguments[..at] + inserted + arguments[at..]);
  }
}
