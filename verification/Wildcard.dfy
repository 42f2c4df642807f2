/**
 * IAM wildcard matching by way of a regular expression (wildcardMatch in
 * apps/server/src/s3/policy.ts). The expression's text is built as the source builds
 * it and then read back, so that what a pattern means to the regular expression
 * engine is proved to be what the policy language says. A text is any sequence of
 * UTF-16 code units, which is what both sides count.
 */
module Wildcard {
  import opened Bytes

  type Unit = u: int | 0 <= u < 0x1_0000
  type Text = seq<Unit>

  const STAR: Unit := 0x2A
  const MARK: Unit := 0x3F
  const OPEN: Unit := 0x5B
  const BACKSLASH: Unit := 0x5C

  /** A string's code units: characters beyond the sixteen-bit range take two. */
  function Units(s: string): Text {
    if s == "" then []
    else
      var c := s[0] as int;
      (if c < 0x1_0000 then [c] else [0xD800 + (c - 0x1_0000) / 0x400, 0xDC00 + (c - 0x1_0000) % 0x400]) + Units(s[1..])
  }

  /** The characters of the syntax. */
  lemma SyntaxCharacters(c: Unit)
    ensures STAR == '*' as int && MARK == '?' as int && BACKSLASH == '\\' as int && OPEN == '[' as int
    ensures ANY == Units("[\\s\\S]")
    ensures Escaped(c) <==> exists i :: 0 <= i < 12 && ".+^${}()|[]\\"[i] as int == c
  {
    var special := ".+^${}()|[]\\";
    var codes := [0x2E, 0x2B, 0x5E, 0x24, 0x7B, 0x7D, 0x28, 0x29, 0x7C, 0x5B, 0x5D, 0x5C];
    assert forall i :: 0 <= i < 12 ==> special[i] as int == codes[i];
    var any := "[\\s\\S]";
    UnitsCons('[', any[1..]);
    UnitsCons('\\', any[2..]);
    UnitsCons('s', any[3..]);
    UnitsCons('\\', any[4..]);
    UnitsCons('S', any[5..]);
    UnitsCons(']', "");
    assert any == ['['] + any[1..] && any[1..] == ['\\'] + any[2..] && any[2..] == ['s'] + any[3..];
    assert any[3..] == ['\\'] + any[4..] && any[4..] == ['S'] + any[5..] && any[5..] == [']'] + "";
  }

  /** A character is one unit or, past the sixteen bits, a high and a low surrogate, which tell it. */
  lemma UnitsCons(c: char, rest: string)
    ensures c as int < 65_536 ==> Units([c] + rest) == [c as int] + Units(rest)
    ensures c as int >= 65_536 ==>
              exists high: Unit, low: Unit ::
                && 0xD800 <= high <= 0xDBFF && 0xDC00 <= low <= 0xDFFF
                && c as int == 65_536 + (high - 0xD800) * 1024 + (low - 0xDC00)
                && Units([c] + rest) == [high, low] + Units(rest)
    ensures Units("") == []
  {
    assert ([c] + rest)[1..] == rest;
    if c as int >= 65_536 {
      var high: Unit := 0xD800 + (c as int - 65_536) / 1024;
      var low: Unit := 0xDC00 + (c as int - 65_536) % 1024;
      assert Units([c] + rest) == [high, low] + Units(rest);
    }
  }

  // ---- The meaning of a pattern

  /** What one code unit of a pattern may stand for. */
  predicate Fills(c: Unit, piece: Text) {
    c == STAR || (if c == MARK then |piece| == 1 else piece == [c])
  }

  /** A value is a pattern with every code unit replaced by something it stands for. */
  ghost predicate Instance(pattern: Text, pieces: seq<Text>, value: Text) {
    && |pieces| == |pattern| && Flatten(pieces) == value
    && forall i :: 0 <= i < |pattern| ==> Fills(pattern[i], pieces[i])
  }

  // ---- Regular expressions

  datatype Class = AnyUnit | Is(c: Unit)

  predicate In(cls: Class, c: Unit) { cls.AnyUnit? || cls.c == c }

  datatype Token = One(cls: Class) | Star(cls: Class)

  /** Whether a whole value matches a sequence of tokens. */
  predicate RegexMatches(tokens: seq<Token>, value: Text)
    decreases |tokens| + |value|
  {
    if tokens == [] then value == []
    else if tokens[0].One? then
      value != [] && In(tokens[0].cls, value[0]) && RegexMatches(tokens[1..], value[1..])
    else
      RegexMatches(tokens[1..], value)
      || (value != [] && In(tokens[0].cls, value[0]) && RegexMatches(tokens, value[1..]))
  }

  /** The characters with a meaning in a regular expression that the source escapes. */
  predicate Escaped(c: Unit) {
    c in [0x2E, 0x2B, 0x5E, 0x24, 0x7B, 0x7D, 0x28, 0x29, 0x7C, 0x5B, 0x5D, 0x5C]
  }

  /** The class of all characters: an open bracket, backslash s, backslash S, a closing one. */
  const ANY: Text := [0x5B, 0x5C, 0x73, 0x5C, 0x53, 0x5D]

  predicate StartsWith(text: Text, prefix: Text) { prefix <= text }

  /**
   * The first token of an expression's text and its length, for the part of the
   * syntax that has a meaning here: the class of all characters, escapes, literals,
   * and a star after any of them. Other special characters are not understood.
   */
  function NextToken(text: Text): (r: Option<(Token, nat)>)
    requires text != []
    ensures r.Some? ==> 0 < r.value.1 <= |text|
  {
    var size :=
      if StartsWith(text, ANY) then |ANY|
      else if text[0] == BACKSLASH && |text| > 1 && Escaped(text[1]) then 2 else 1;
    if size == 1 && (Escaped(text[0]) || text[0] == STAR || text[0] == MARK) then None
    else
      var cls := if size == |ANY| then AnyUnit else Is(text[size - 1]);
      if |text| > size && text[size] == STAR then Some((Star(cls), size + 1)) else Some((One(cls), size))
  }

  function Lexed(text: Text): Option<seq<Token>>
    decreases |text|
  {
    if text == [] then Some([])
    else match NextToken(text)
      case None => None
      case Some((token, size)) =>
        var rest := Lexed(text[size..]);
        if rest.None? then None else Some([token] + rest.value)
  }

  /** What one pattern character becomes in the expression's text. */
  function CompiledUnit(c: Unit): Text {
    if c == STAR then ANY + [STAR] else if c == MARK then ANY else if Escaped(c) then [BACKSLASH, c] else [c]
  }

  function Compiled(pattern: Text): Text {
    if pattern == [] then [] else CompiledUnit(pattern[0]) + Compiled(pattern[1..])
  }

  predicate WildcardMatch(pattern: Text, value: Text) {
    pattern == [STAR] || match Lexed(Compiled(pattern))
      case Some(tokens) => RegexMatches(tokens, value)
      case None => false
  }

  // ---- No injection

  function TokenOf(c: Unit): Token {
    if c == STAR then Star(AnyUnit) else if c == MARK then One(AnyUnit) else One(Is(c))
  }

  function TokensOf(pattern: Text): seq<Token> {
    if pattern == [] then [] else [TokenOf(pattern[0])] + TokensOf(pattern[1..])
  }

  lemma CompiledStart(pattern: Text)
    ensures Compiled(pattern) != [] ==> Compiled(pattern)[0] != STAR
  {
  }

  /** One compiled character is read back as its own token, whatever follows it. */
  lemma NextIsUnit(c: Unit, rest: Text)
    requires rest != [] ==> rest[0] != STAR
    ensures CompiledUnit(c) != []
    ensures NextToken(CompiledUnit(c) + rest) == Some((TokenOf(c), |CompiledUnit(c)|))
  {
    var text := CompiledUnit(c) + rest;
    if c == STAR || c == MARK {
      assert StartsWith(text, ANY);
    } else {
      assert text[0] != OPEN;
    }
  }

  lemma LexUnit(c: Unit, rest: Text)
    requires rest != [] ==> rest[0] != STAR
    ensures Lexed(CompiledUnit(c) + rest)
         == match Lexed(rest) case Some(tokens) => Some([TokenOf(c)] + tokens) case None => None
  {
    hide NextToken, CompiledUnit, TokenOf;
    NextIsUnit(c, rest);
    assert (CompiledUnit(c) + rest)[|CompiledUnit(c)|..] == rest;
  }

  /** The text is understood as exactly the pattern's tokens: no pattern can smuggle in an expression. */
  lemma {:induction false} LexedIsPattern(pattern: Text)
    ensures Lexed(Compiled(pattern)) == Some(TokensOf(pattern))
  {
    hide CompiledUnit, TokenOf;
    if pattern == [] {
      assert Lexed([]) == Some([]);
    } else {
      LexedIsPattern(pattern[1..]);
      CompiledStart(pattern[1..]);
      LexUnit(pattern[0], Compiled(pattern[1..]));
    }
  }

  // ---- Matching is being an instance

  lemma InstanceCons(pattern: Text, pieces: seq<Text>, value: Text)
    requires Instance(pattern, pieces, value) && pattern != []
    ensures pieces != [] && |pieces[0]| <= |value| && value == pieces[0] + value[|pieces[0]|..]
    ensures Instance(pattern[1..], pieces[1..], value[|pieces[0]|..]) && Fills(pattern[0], pieces[0])
  {
    assert value == pieces[0] + Flatten(pieces[1..]);
    assert forall i :: 0 <= i < |pattern| - 1 ==> pattern[1..][i] == pattern[i + 1] && pieces[1..][i] == pieces[i + 1];
  }

  lemma InstanceBack(pattern: Text, piece: Text, pieces: seq<Text>, value: Text)
    requires pattern != [] && Fills(pattern[0], piece) && Instance(pattern[1..], pieces, value)
    ensures Instance(pattern, [piece] + pieces, piece + value)
  {
    var all := [piece] + pieces;
    assert all[1..] == pieces;
    forall i | 0 <= i < |pattern| ensures Fills(pattern[i], all[i]) {
      if i > 0 {
        assert pattern[1..][i - 1] == pattern[i] && pieces[i - 1] == all[i];
      }
    }
  }

  /** A star at the front may take any number of code units. */
  lemma {:induction false} StarTakes(tokens: seq<Token>, value: Text, k: nat)
    requires tokens != [] && tokens[0] == Star(AnyUnit) && k <= |value| && RegexMatches(tokens[1..], value[k..])
    ensures RegexMatches(tokens, value)
    decreases k
  {
    if k > 0 {
      assert value[1..][k - 1..] == value[k..];
      StarTakes(tokens, value[1..], k - 1);
    } else {
      assert value[0..] == value;
    }
  }

  lemma {:induction false} StarTook(tokens: seq<Token>, value: Text) returns (k: nat)
    requires tokens != [] && tokens[0] == Star(AnyUnit) && RegexMatches(tokens, value)
    ensures k <= |value| && RegexMatches(tokens[1..], value[k..])
    decreases |value|
  {
    if RegexMatches(tokens[1..], value) {
      k := 0;
      assert value[0..] == value;
    } else {
      k := StarTook(tokens, value[1..]);
      assert value[1..][k..] == value[k + 1..];
      k := k + 1;
    }
  }

  lemma {:induction false} InstanceMatches(pattern: Text, pieces: seq<Text>, value: Text)
    requires Instance(pattern, pieces, value)
    ensures RegexMatches(TokensOf(pattern), value)
    decreases |pattern|
  {
    hide Instance;
    if pattern == [] {
      InstanceEmpty(pieces, value);
    } else {
      InstanceCons(pattern, pieces, value);
      InstanceMatches(pattern[1..], pieces[1..], value[|pieces[0]|..]);
      var tokens := TokensOf(pattern);
      assert tokens[1..] == TokensOf(pattern[1..]);
      if pattern[0] == STAR {
        StarTakes(tokens, value, |pieces[0]|);
      }
    }
  }

  lemma InstanceEmpty(pieces: seq<Text>, value: Text)
    ensures Instance([], pieces, value) <==> pieces == [] && value == []
  {
  }

  lemma {:induction false} MatchIsInstance(pattern: Text, value: Text) returns (pieces: seq<Text>)
    requires RegexMatches(TokensOf(pattern), value)
    ensures Instance(pattern, pieces, value)
    decreases |pattern|
  {
    hide Instance;
    if pattern == [] {
      pieces := [];
      InstanceEmpty(pieces, value);
    } else {
      var tokens := TokensOf(pattern);
      assert tokens[1..] == TokensOf(pattern[1..]);
      var k := 1;
      if pattern[0] == STAR {
        k := StarTook(tokens, value);
      }
      var rest := MatchIsInstance(pattern[1..], value[k..]);
      InstanceBack(pattern, value[..k], rest, value[k..]);
      pieces := [value[..k]] + rest;
      assert value[..k] + value[k..] == value;
    }
  }

  lemma AnythingIsInstance(value: Text)
    ensures Instance([STAR], [value], value)
  {
    assert Flatten([value]) == value + Flatten([value][1..]);
  }

  /** A star spans any run of code units, a question mark exactly one, and every other unit is itself. */
  lemma MatchesExactly(pattern: Text, value: Text)
    ensures WildcardMatch(pattern, value) <==> exists pieces :: Instance(pattern, pieces, value)
  {
    hide Instance, RegexMatches, Lexed, Compiled, TokensOf;
    LexedIsPattern(pattern);
    if pattern == [STAR] {
      AnythingIsInstance(value);
    } else if RegexMatches(TokensOf(pattern), value) {
      var pieces := MatchIsInstance(pattern, value);
    }
    if pieces :| Instance(pattern, pieces, value) {
      InstanceMatches(pattern, pieces, value);
    }
  }
}
