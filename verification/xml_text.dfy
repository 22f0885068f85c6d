/**
  XML character entities in the launchd and Task Scheduler definitions: the
  writer `xml` of src/machine/macos.layer.ts and the reader `decodeXmlText` of
  src/machine/installed-scheduler-command.ts. Both work by successive whole-text
  replacements; the model proves the order they use reads and writes each
  character exactly once.
 */
module XmlText {
  import opened Options
  import opened Strings

  /** The five entities, in the order the reader replaces them. */
  datatype Entity = Quot | Apos | Lt | Gt | Amp

  function Name(e: Entity): string {
    match e
    case Quot => "&quot;"
    case Apos => "&apos;"
    case Lt => "&lt;"
    case Gt => "&gt;"
    case Amp => "&amp;"
  }

  function Literal(e: Entity): char {
    match e
    case Quot => '"'
    case Apos => '\''
    case Lt => '<'
    case Gt => '>'
    case Amp => '&'
  }

  function ReplaceEntity(s: string, e: Entity): string {
    ReplaceAll(s, Name(e), [Literal(e)])
  }

  /** The entity a text starts with. */
  function Leading(s: string): Option<Entity> {
    if Name(Quot) <= s then Some(Quot)
    else if Name(Apos) <= s then Some(Apos)
    else if Name(Lt) <= s then Some(Lt)
    else if Name(Gt) <= s then Some(Gt)
    else if Name(Amp) <= s then Some(Amp)
    else None
  }

  /** Every `&` starts one of the five entities. */
  predicate OnlyKnownEntities(s: string) {
    forall i :: 0 <= i < |s| && s[i] == '&' ==> Leading(s[i..]).Some?
  }

  function DecodeXmlText(s: string): Option<string> {
    if !OnlyKnownEntities(s) then None
    else Some(ReplaceEntity(ReplaceEntity(ReplaceEntity(ReplaceEntity(ReplaceEntity(s, Quot), Apos), Lt), Gt), Amp))
  }

  /** `xml`: the ampersand first, so that no written entity is escaped again. */
  function EscapeXml(s: string): string {
    EscapeEntity(EscapeEntity(EscapeEntity(EscapeEntity(EscapeEntity(s, Amp), Lt), Gt), Quot), Apos)
  }

  function EscapeEntity(s: string, e: Entity): string {
    ReplaceAll(s, [Literal(e)], Name(e))
  }

  // ----- texts as tokens -----

  datatype Token = Plain(c: char) | Named(e: Entity)

  function Spell(tokens: seq<Token>): string {
    if tokens == [] then ""
    else (if tokens[0].Plain? then [tokens[0].c] else Name(tokens[0].e)) + Spell(tokens[1..])
  }

  /** Replace one entity by its character, or the character by the entity. */
  function Resolve(tokens: seq<Token>, e: Entity): seq<Token> {
    if tokens == [] then []
    else [if tokens[0] == Named(e) then Plain(Literal(e)) else tokens[0]] + Resolve(tokens[1..], e)
  }

  function Introduce(tokens: seq<Token>, e: Entity): seq<Token> {
    if tokens == [] then []
    else [if tokens[0] == Plain(Literal(e)) then Named(e) else tokens[0]] + Introduce(tokens[1..], e)
  }

  predicate NoBareAmpersand(tokens: seq<Token>) {
    forall i :: 0 <= i < |tokens| ==> tokens[i] != Plain('&')
  }

  /** No entity's name starts another's. */
  lemma NamesDiffer(a: Entity, b: Entity, rest: string)
    requires a != b
    ensures !(Name(a) <= Name(b) + rest)
  {
    var text := Name(b) + rest;
    assert text[1] == Name(b)[1] && text[2] == Name(b)[2];
    assert Name(a)[1] != Name(b)[1] || Name(a)[2] != Name(b)[2];
  }

  /** Text without the pattern's first character is copied. */
  lemma {:induction false} SkipText(text: string, rest: string, pattern: string, with: string)
    requires pattern != "" && pattern[0] !in text
    ensures ReplaceAll(text + rest, pattern, with) == text + ReplaceAll(rest, pattern, with)
  {
    if text == "" {
      assert text + rest == rest && "" + ReplaceAll(rest, pattern, with) == ReplaceAll(rest, pattern, with);
    } else {
      assert text[0] in text && (text + rest)[0] == text[0] && (text + rest)[1..] == text[1..] + rest;
      assert !(pattern <= text + rest);
      SkipText(text[1..], rest, pattern, with);
    }
  }

  lemma NameShape(e: Entity)
    ensures Name(e) == "&" + Name(e)[1..] && '&' !in Name(e)[1..]
    ensures forall f: Entity :: f != Amp ==> Literal(f) !in Name(e)
  {
    var n := Name(e);
    assert forall i :: 0 < i < |n| ==> n[i] != '&';
    assert forall f: Entity, i :: f != Amp && 0 <= i < |n| ==> n[i] != Literal(f);
  }

  lemma CopyFirst(s: string, pattern: string, with: string)
    requires pattern != "" && s != "" && !(pattern <= s)
    ensures ReplaceAll(s, pattern, with) == [s[0]] + ReplaceAll(s[1..], pattern, with)
  {
  }

  /** Replacing one entity copies the others. */
  lemma OtherNameCopied(name: string, rest: string, pattern: string, with: string)
    requires pattern != "" && pattern[0] == '&' && !(pattern <= name + rest)
    requires name != "" && '&' !in name[1..]
    ensures ReplaceAll(name + rest, pattern, with) == name + ReplaceAll(rest, pattern, with)
  {
    CopyFirst(name + rest, pattern, with);
    FirstAndRest(name, rest);
    SkipText(name[1..], rest, pattern, with);
    FirstAndRest(name, ReplaceAll(rest, pattern, with));
  }

  lemma FirstAndRest(name: string, rest: string)
    requires name != ""
    ensures (name + rest)[0] == name[0] && (name + rest)[1..] == name[1..] + rest
    ensures [name[0]] + (name[1..] + rest) == name + rest
  {
  }

  lemma {:induction false} ResolveSpelled(tokens: seq<Token>, e: Entity)
    requires NoBareAmpersand(tokens)
    ensures ReplaceEntity(Spell(tokens), e) == Spell(Resolve(tokens, e))
    ensures e != Amp ==> NoBareAmpersand(Resolve(tokens, e))
  {
    if tokens != [] {
      var rest := Spell(tokens[1..]);
      ResolveSpelled(tokens[1..], e);
      if tokens[0].Plain? {
        SkipText([tokens[0].c], rest, Name(e), [Literal(e)]);
      } else if tokens[0].e == e {
        assert (Name(e) + rest)[|Name(e)|..] == rest;
      } else {
        NamesDiffer(e, tokens[0].e, rest);
        NameShape(tokens[0].e);
        OtherNameCopied(Name(tokens[0].e), rest, Name(e), [Literal(e)]);
      }
    }
  }

  lemma {:induction false} IntroduceSpelled(tokens: seq<Token>, e: Entity)
    requires e == Amp ==> forall i :: 0 <= i < |tokens| ==> tokens[i].Plain?
    ensures EscapeEntity(Spell(tokens), e) == Spell(Introduce(tokens, e))
  {
    if tokens != [] {
      var rest := Spell(tokens[1..]);
      IntroduceSpelled(tokens[1..], e);
      if tokens[0] == Plain(Literal(e)) {
        assert ([Literal(e)] + rest)[1..] == rest;
      } else if tokens[0].Plain? {
        SkipText([tokens[0].c], rest, [Literal(e)], Name(e));
      } else {
        NameShape(tokens[0].e);
        SkipText(Name(tokens[0].e), rest, [Literal(e)], Name(e));
      }
    }
  }

  // ----- one token per character -----

  function Tokens(s: string): (tokens: seq<Token>)
    ensures forall i :: 0 <= i < |tokens| ==> tokens[i].Plain?
  {
    if s == "" then [] else [Plain(s[0])] + Tokens(s[1..])
  }

  /** The tokens `xml` writes: each special character as its entity. */
  function Escaped(s: string): (tokens: seq<Token>)
    ensures NoBareAmpersand(tokens)
  {
    if s == "" then [] else [EscapedChar(s[0])] + Escaped(s[1..])
  }

  function EscapedChar(c: char): Token {
    if c == '&' then Named(Amp) else if c == '<' then Named(Lt) else if c == '>' then Named(Gt)
    else if c == '"' then Named(Quot) else if c == '\'' then Named(Apos) else Plain(c)
  }

  lemma {:induction false} TokensSpell(s: string)
    ensures Spell(Tokens(s)) == s
    ensures Introduce(Introduce(Introduce(Introduce(Introduce(Tokens(s), Amp), Lt), Gt), Quot), Apos) == Escaped(s)
  {
    if s != "" {
      TokensSpell(s[1..]);
      assert s == [s[0]] + s[1..];
      IntroduceCons(Plain(s[0]), Tokens(s[1..]));
    }
  }

  lemma IntroduceCons(t: Token, rest: seq<Token>)
    ensures Introduce(Introduce(Introduce(Introduce(Introduce([t] + rest, Amp), Lt), Gt), Quot), Apos)
         == (if t.Plain? then [EscapedChar(t.c)] else [t])
            + Introduce(Introduce(Introduce(Introduce(Introduce(rest, Amp), Lt), Gt), Quot), Apos)
  {
    IntroduceHead(t, rest, Amp);
    var t1, r1 := if t == Plain(Literal(Amp)) then Named(Amp) else t, Introduce(rest, Amp);
    IntroduceHead(t1, r1, Lt);
    var t2, r2 := if t1 == Plain(Literal(Lt)) then Named(Lt) else t1, Introduce(r1, Lt);
    IntroduceHead(t2, r2, Gt);
    var t3, r3 := if t2 == Plain(Literal(Gt)) then Named(Gt) else t2, Introduce(r2, Gt);
    IntroduceHead(t3, r3, Quot);
    var t4, r4 := if t3 == Plain(Literal(Quot)) then Named(Quot) else t3, Introduce(r3, Quot);
    IntroduceHead(t4, r4, Apos);
  }

  lemma IntroduceHead(t: Token, rest: seq<Token>, e: Entity)
    ensures Introduce([t] + rest, e) == [if t == Plain(Literal(e)) then Named(e) else t] + Introduce(rest, e)
  {
    assert ([t] + rest)[1..] == rest;
  }

  // ----- the reader decodes each entity once -----

  /** The text of a token sequence with every entity read as its character. */
  function Meaning(tokens: seq<Token>): string {
    if tokens == [] then ""
    else [if tokens[0].Plain? then tokens[0].c else Literal(tokens[0].e)] + Meaning(tokens[1..])
  }

  lemma ResolveHead(t: Token, rest: seq<Token>, e: Entity)
    ensures Resolve([t] + rest, e) == [if t == Named(e) then Plain(Literal(e)) else t] + Resolve(rest, e)
  {
    assert ([t] + rest)[1..] == rest;
  }

  function ResolveAll(tokens: seq<Token>): seq<Token> {
    Resolve(Resolve(Resolve(Resolve(Resolve(tokens, Quot), Apos), Lt), Gt), Amp)
  }

  lemma ResolveAllHead(t: Token, rest: seq<Token>)
    ensures ResolveAll([t] + rest) == [if t.Named? then Plain(Literal(t.e)) else t] + ResolveAll(rest)
  {
    var e1 := Resolve(rest, Quot);
    var e2 := Resolve(e1, Apos);
    var e3 := Resolve(e2, Lt);
    var e4 := Resolve(e3, Gt);
    var t1 := if t == Named(Quot) then Plain('"') else t;
    var t2 := if t1 == Named(Apos) then Plain('\'') else t1;
    var t3 := if t2 == Named(Lt) then Plain('<') else t2;
    var t4 := if t3 == Named(Gt) then Plain('>') else t3;
    ResolveHead(t, rest, Quot);
    ResolveHead(t1, e1, Apos);
    ResolveHead(t2, e2, Lt);
    ResolveHead(t3, e3, Gt);
    ResolveHead(t4, e4, Amp);
  }

  lemma {:induction false} ResolveAllMeans(tokens: seq<Token>)
    ensures Spell(ResolveAll(tokens)) == Meaning(tokens)
  {
    if tokens != [] {
      ResolveAllMeans(tokens[1..]);
      assert tokens == [tokens[0]] + tokens[1..];
      ResolveAllHead(tokens[0], tokens[1..]);
      var rest := ResolveAll(tokens[1..]);
      var head := if tokens[0].Named? then Plain(Literal(tokens[0].e)) else tokens[0];
      assert ([head] + rest)[1..] == rest;
    }
  }

  /** Five successive replacements read every entity as its character, once. */
  lemma ReplacementsMean(tokens: seq<Token>)
    requires NoBareAmpersand(tokens)
    ensures ReplaceEntity(ReplaceEntity(ReplaceEntity(ReplaceEntity(ReplaceEntity(Spell(tokens), Quot), Apos), Lt),
        Gt), Amp)
         == Meaning(tokens)
  {
    ResolveSpelled(tokens, Quot);
    var t1 := Resolve(tokens, Quot);
    ResolveSpelled(t1, Apos);
    var t2 := Resolve(t1, Apos);
    ResolveSpelled(t2, Lt);
    var t3 := Resolve(t2, Lt);
    ResolveSpelled(t3, Gt);
    ResolveSpelled(Resolve(t3, Gt), Amp);
    ResolveAllMeans(tokens);
  }

  /** Only its first character makes a token start an entity. */
  lemma HeadEntity(t: Token, rest: string, i: nat)
    requires t != Plain('&')
    ensures var head := if t.Plain? then [t.c] else Name(t.e);
              i < |head| && head[i] == '&' ==> i == 0 && Leading(head + rest).Some?
  {
    if t.Named? {
      NameShape(t.e);
      var n := Name(t.e);
      assert forall k :: 0 < k < |n| ==> n[k] == n[1..][k - 1];
      assert n <= n + rest;
    }
  }

  lemma {:induction false} SpelledEntitiesAreKnown(tokens: seq<Token>)
    requires NoBareAmpersand(tokens)
    ensures OnlyKnownEntities(Spell(tokens))
  {
    if tokens != [] {
      var rest, s := Spell(tokens[1..]), Spell(tokens);
      SpelledEntitiesAreKnown(tokens[1..]);
      var head := if tokens[0].Plain? then [tokens[0].c] else Name(tokens[0].e);
      forall i | 0 <= i < |s| && s[i] == '&'
        ensures Leading(s[i..]).Some?
      {
        if i >= |head| {
          assert s[i..] == rest[i - |head|..];
        } else {
          HeadEntity(tokens[0], rest, i);
          assert s[0..] == s;
        }
      }
    }
  }

  function Written(token: Token): string {
    if token.Plain? then [token.c] else Name(token.e)
  }

  function FirstToken(s: string): (token: Token)
    requires s != ""
    ensures 0 < |Written(token)| <= |s| && Written(token) == s[..|Written(token)|]
  {
    var entity := Leading(s);
    if entity.Some? then Named(entity.value) else Plain(s[0])
  }

  /** The tokens of a text whose entities are all known. */
  function Tokenize(s: string): seq<Token>
    decreases |s|
  {
    if s == "" then []
    else
      var token := FirstToken(s);
      [token] + Tokenize(s[|Written(token)|..])
  }

  lemma {:induction false} TokenizeSpells(s: string)
    requires OnlyKnownEntities(s)
    ensures Spell(Tokenize(s)) == s && NoBareAmpersand(Tokenize(s))
    decreases |s|
  {
    if s != "" {
      var token := FirstToken(s);
      var n := |Written(token)|;
      KnownInRest(s, n);
      TokenizeSpells(s[n..]);
      SpellFirst(token, Tokenize(s[n..]));
      PrefixAndRest(s, n);
    }
  }

  lemma PrefixAndRest(s: string, n: nat)
    requires n <= |s|
    ensures s[..n] + s[n..] == s
  {
  }

  /** What follows in a text of known entities is one too, and a lone ampersand begins none. */
  lemma KnownInRest(s: string, n: nat)
    requires OnlyKnownEntities(s) && 0 < n <= |s|
    ensures OnlyKnownEntities(s[n..]) && FirstToken(s) != Plain('&')
  {
    assert s[0..] == s;
    forall i | 0 <= i < |s[n..]| && s[n..][i] == '&'
      ensures Leading(s[n..][i..]).Some?
    {
      assert s[n..][i..] == s[n + i..];
    }
  }

  lemma SpellFirst(token: Token, rest: seq<Token>)
    requires token != Plain('&') && NoBareAmpersand(rest)
    ensures Spell([token] + rest) == Written(token) + Spell(rest) && NoBareAmpersand([token] + rest)
  {
    assert ([token] + rest)[1..] == rest;
  }

  /** Reading text with known entities yields each entity's character in place;
      `&amp;lt;` reads as `&lt;`, never as `<`. */
  lemma DecodeReadsEachEntityOnce(s: string)
    ensures DecodeXmlText(s) == if OnlyKnownEntities(s) then Some(Meaning(Tokenize(s))) else None
  {
    if OnlyKnownEntities(s) {
      TokenizeSpells(s);
      ReplacementsMean(Tokenize(s));
    }
  }

  lemma {:induction false} EscapedMeans(s: string)
    ensures Meaning(Escaped(s)) == s
  {
    if s != "" {
      EscapedMeans(s[1..]);
      assert s == [s[0]] + s[1..];
    }
  }

  lemma EscapeSpellsTokens(s: string)
    ensures EscapeXml(s) == Spell(Escaped(s))
  {
    TokensSpell(s);
    var t0 := Tokens(s);
    IntroduceSpelled(t0, Amp);
    var t1 := Introduce(t0, Amp);
    IntroduceSpelled(t1, Lt);
    var t2 := Introduce(t1, Lt);
    IntroduceSpelled(t2, Gt);
    var t3 := Introduce(t2, Gt);
    IntroduceSpelled(t3, Quot);
    IntroduceSpelled(Introduce(t3, Quot), Apos);
  }

  /** Whatever is escaped reads back exactly. */
  lemma XmlRoundTrip(s: string)
    ensures DecodeXmlText(EscapeXml(s)) == Some(s)
  {
    EscapeSpellsTokens(s);
    SpelledEntitiesAreKnown(Escaped(s));
    ReplacementsMean(Escaped(s));
    EscapedMeans(s);
  }

  /** The names and what they stand for. */
  ghost predicate IsEntity(name: string, c: char) {
    || (name == "&quot;" && c == '"') || (name == "&apos;" && c == '\'') || (name == "&lt;" && c == '<')
    || (name == "&gt;" && c == '>') || (name == "&amp;" && c == '&')
  }

  /** The text is one piece after another: an entity and its character, or a character
      other than `&` standing for itself. */
  ghost predicate IsReadAs(s: string, meaning: string)
    decreases |meaning|
  {
    if meaning == "" then s == "" else exists piece, rest :: IsPiece(s, piece, rest, meaning)
  }

  ghost predicate IsPiece(s: string, piece: string, rest: string, meaning: string)
    requires meaning != ""
    decreases |meaning|, 0
  {
    && s == piece + rest && (IsEntity(piece, meaning[0]) || (piece == [meaning[0]] && meaning[0] != '&'))
    && IsReadAs(rest, meaning[1..])
  }

  lemma {:induction false} TokensAreRead(tokens: seq<Token>)
    requires NoBareAmpersand(tokens)
    ensures IsReadAs(Spell(tokens), Meaning(tokens))
  {
    if tokens != [] {
      var rest := tokens[1..];
      TokensAreRead(rest);
      var piece := if tokens[0].Plain? then [tokens[0].c] else Name(tokens[0].e);
      var meaning := Meaning(tokens);
      assert meaning[1..] == Meaning(rest) && Spell(tokens) == piece + Spell(rest);
      assert tokens[0].Named? ==> IsEntity(piece, meaning[0]);
      assert IsPiece(Spell(tokens), piece, Spell(rest), meaning);
    }
  }

  lemma {:induction false} ReadIsTokens(s: string, meaning: string) returns (tokens: seq<Token>)
    requires IsReadAs(s, meaning)
    ensures NoBareAmpersand(tokens) && Spell(tokens) == s && Meaning(tokens) == meaning
    decreases |meaning|
  {
    tokens := [];
    if meaning != "" {
      var piece, rest :| IsPiece(s, piece, rest, meaning);
      var others := ReadIsTokens(rest, meaning[1..]);
      var first := PieceToken(piece, meaning[0]);
      tokens := [first] + others;
      assert tokens[1..] == others && meaning == [meaning[0]] + meaning[1..];
    }
  }

  lemma PieceToken(piece: string, c: char) returns (token: Token)
    requires IsEntity(piece, c) || (piece == [c] && c != '&')
    ensures token != Plain('&') && Written(token) == piece
    ensures (if token.Plain? then token.c else Literal(token.e)) == c
  {
    if IsEntity(piece, c) {
      token := Named(if c == '"' then Quot else if c == '\'' then Apos else if c == '<' then Lt
                     else if c == '>' then Gt else Amp);
    } else {
      token := Plain(c);
    }
  }

  /** Text is decoded exactly when every `&` in it starts one of the five entities, and
      then to what its pieces stand for. */
  lemma DecodedIffRead(s: string, meaning: string)
    ensures DecodeXmlText(s) == Some(meaning) <==> IsReadAs(s, meaning)
  {
    if DecodeXmlText(s) == Some(meaning) {
      TokenizeSpells(s);
      ReplacementsMean(Tokenize(s));
      TokensAreRead(Tokenize(s));
    }
    if IsReadAs(s, meaning) {
      var tokens := ReadIsTokens(s, meaning);
      SpelledEntitiesAreKnown(tokens);
      ReplacementsMean(tokens);
    }
  }
}
