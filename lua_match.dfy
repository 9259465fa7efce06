/** The `lua-match?` query predicate: a Lua pattern is rewritten into a Java
    regular expression, and the match is kept when that expression is found
    in every captured text. */
module LuaMatch {
  import opened PredicateCommon

  datatype Option<T> = None | Some(value: T)

  /** The letters that name a Lua character class after `%`. */
  const ClassLetters: string := "aAcCdDlLpPsSuUwWxX"

  /** The lower-case class letters; each upper-case one is its complement. */
  const LowerClassLetters: string := "acdlpsuwx"

  /** The Java regex for the Lua class `%c`, or None when `c` names no class. */
  function ClassToRegex(c: char): (r: Option<string>)
    ensures r.Some? <==> c in ClassLetters
    ensures r.Some? ==> |r.value| >= 2 && r.value[0] == '\\'
  {
    match c
    case 'a' => Some("\\p{Alpha}")
    case 'A' => Some("\\P{Alpha}")
    case 'c' => Some("\\p{Cntrl}")
    case 'C' => Some("\\P{Cntrl}")
    case 'd' => Some("\\d")
    case 'D' => Some("\\D")
    case 'l' => Some("\\p{Ll}")
    case 'L' => Some("\\P{Ll}")
    case 'p' => Some("\\p{Punct}")
    case 'P' => Some("\\P{Punct}")
    case 's' => Some("\\s")
    case 'S' => Some("\\S")
    case 'u' => Some("\\p{Lu}")
    case 'U' => Some("\\P{Lu}")
    case 'w' => Some("\\p{Alnum}")
    case 'W' => Some("\\P{Alnum}")
    case 'x' => Some("\\p{XDigit}")
    case 'X' => Some("\\P{XDigit}")
    case _ => None
  }

  function Upper(c: char): char
    requires 'a' <= c <= 'z'
  {
    (c as int - 32) as char
  }

  /** Lua's convention "upper-case class letter = complement" survives the
      translation: `%C` gives the regex of `%c` with its second character
      (`p` or the escape letter) upper-cased, which is Java's negated form. */
  lemma UpperClassIsComplement(c: char)
    requires c in LowerClassLetters
    ensures 'a' <= c <= 'z' && ClassToRegex(c).Some? && ClassToRegex(Upper(c)).Some?
    ensures IsNegation(ClassToRegex(c).value, ClassToRegex(Upper(c)).value)
  {
    if c == 'a' || c == 'c' || c == 'd' {
      ComplementOfFirstThree(c);
    } else if c == 'l' || c == 'p' || c == 's' {
      ComplementOfMiddleThree(c);
    } else {
      ComplementOfLastThree(c);
    }
  }

  lemma ComplementOfFirstThree(c: char)
    requires c == 'a' || c == 'c' || c == 'd'
    ensures 'a' <= c <= 'z' && ClassToRegex(c).Some? && ClassToRegex(Upper(c)).Some?
    ensures IsNegation(ClassToRegex(c).value, ClassToRegex(Upper(c)).value)
  {
    match c
    case 'a' => assert IsNegation("\\p{Alpha}", "\\P{Alpha}");
    case 'c' => assert IsNegation("\\p{Cntrl}", "\\P{Cntrl}");
    case 'd' => assert IsNegation("\\d", "\\D");
  }

  lemma ComplementOfMiddleThree(c: char)
    requires c == 'l' || c == 'p' || c == 's'
    ensures 'a' <= c <= 'z' && ClassToRegex(c).Some? && ClassToRegex(Upper(c)).Some?
    ensures IsNegation(ClassToRegex(c).value, ClassToRegex(Upper(c)).value)
  {
    match c
    case 'l' => assert IsNegation("\\p{Ll}", "\\P{Ll}");
    case 'p' => assert IsNegation("\\p{Punct}", "\\P{Punct}");
    case 's' => assert IsNegation("\\s", "\\S");
  }

  lemma ComplementOfLastThree(c: char)
    requires c == 'u' || c == 'w' || c == 'x'
    ensures 'a' <= c <= 'z' && ClassToRegex(c).Some? && ClassToRegex(Upper(c)).Some?
    ensures IsNegation(ClassToRegex(c).value, ClassToRegex(Upper(c)).value)
  {
    match c
    case 'u' => assert IsNegation("\\p{Lu}", "\\P{Lu}");
    case 'w' => assert IsNegation("\\p{Alnum}", "\\P{Alnum}");
    case 'x' => assert IsNegation("\\p{XDigit}", "\\P{XDigit}");
  }

  /** `up` is `lo` with its second character, a lower-case letter, upper-cased. */
  predicate IsNegation(lo: string, up: string)
  {
    |lo| == |up| && |lo| >= 2 && 'a' <= lo[1] <= 'z' && up[1] == Upper(lo[1]) &&
    up[0] == lo[0] && up[2..] == lo[2..]
  }

  /** What the escape `%c` becomes: a class from the table, `%%` a single
      `%`, anything else the backslash escape `\c`. */
  function EscapeText(c: char): string
  {
    match ClassToRegex(c)
    case Some(r) => r
    case None => if c == '%' then "%" else ['\\', c]
  }

  /** The translation, as the left-to-right scan performs it. */
  function Translate(p: string): string
    decreases |p|
  {
    if p == [] then ""
    else if p[0] != '%' then [p[0]] + Translate(p[1..])
    else if |p| == 1 then "%"
    else EscapeText(p[1]) + Translate(p[2..])
  }

  /** The scan rewritten as a loop over an index, appending to a buffer. The
      fast path returns a pattern without `%` unchanged. */
  method LuaPatternToJavaRegex(pattern: string) returns (out: string)
    ensures out == Translate(pattern)
  {
    if '%' !in pattern {
      NoPercentIsIdentity(pattern);
      return pattern;
    }
    out := "";
    var i := 0;
    while i < |pattern|
      invariant 0 <= i <= |pattern|
      invariant out + Translate(pattern[i..]) == Translate(pattern)
      decreases |pattern| - i
    {
      var piece, step := ScanStep(pattern, i);
      ghost var rest := Translate(pattern[i + step..]);
      assert (out + piece) + rest == out + (piece + rest);
      out := out + piece;
      i := i + step;
    }
    assert pattern[i..] == [];
  }

  /** One round of the scan at index `i`: the text appended and how many
      pattern characters it consumes. */
  method ScanStep(pattern: string, i: nat) returns (piece: string, step: nat)
    requires i < |pattern|
    ensures 1 <= step <= 2 && i + step <= |pattern|
    ensures piece + Translate(pattern[i + step..]) == Translate(pattern[i..])
  {
    var ch := pattern[i];
    TranslateAt(pattern, i);
    if ch != '%' {
      return [ch], 1;
    }
    if i + 1 >= |pattern| {
      return "%", 1;
    }
    var next := pattern[i + 1];
    var replacement := ClassToRegex(next);
    if replacement.Some? {
      piece := replacement.value;
    } else if next == '%' {
      piece := "%";
    } else {
      piece := ['\\', next];
    }
    step := 2;
  }

  /** One step of the scan at index `i`. */
  lemma TranslateAt(p: string, i: nat)
    requires i < |p|
    ensures p[i] != '%' ==> Translate(p[i..]) == [p[i]] + Translate(p[i + 1..])
    ensures p[i] == '%' && i + 1 == |p| ==> Translate(p[i..]) == "%"
    ensures p[i] == '%' && i + 1 < |p| ==>
      Translate(p[i..]) == EscapeText(p[i + 1]) + Translate(p[i + 2..])
  {
    var q := p[i..];
    assert q[0] == p[i] && q[1..] == p[i + 1..];
    if i + 1 < |p| {
      assert q[1] == p[i + 1] && q[2..] == p[i + 2..];
    }
  }

  /** A pattern without `%` translates to itself. */
  lemma {:induction false} NoPercentIsIdentity(p: string)
    requires '%' !in p
    ensures Translate(p) == p
    decreases |p|
  {
    if p != [] {
      assert p[0] != '%';
      assert '%' !in p[1..] by {
        forall k | 0 <= k < |p[1..]| ensures p[1..][k] != '%' {
          assert p[1..][k] == p[k + 1];
        }
      }
      NoPercentIsIdentity(p[1..]);
      assert p == [p[0]] + p[1..];
    }
  }

  // ---------------------------------------------------------------------
  // An independent view of the scan: the pattern is cut into tokens, and
  // each token is rendered on its own.

  /** A plain character, a `%` left over at the very end, or an escape `%c`. */
  datatype Token = Literal(c: char) | LonePercent | Escape(c: char)

  function Tokenize(p: string): (ts: seq<Token>)
    decreases |p|
  {
    if p == [] then []
    else if p[0] != '%' then [Literal(p[0])] + Tokenize(p[1..])
    else if |p| == 1 then [LonePercent]
    else [Escape(p[1])] + Tokenize(p[2..])
  }

  /** The pattern text a token was cut from. */
  function Source(t: Token): string
  {
    match t
    case Literal(c) => [c]
    case LonePercent => "%"
    case Escape(c) => ['%', c]
  }

  function Untokenize(ts: seq<Token>): string
    decreases |ts|
  {
    if ts == [] then "" else Source(ts[0]) + Untokenize(ts[1..])
  }

  /** The regex text a token stands for. */
  function Render(t: Token): string
  {
    match t
    case Literal(c) => [c]
    case LonePercent => "%"
    case Escape(c) => EscapeText(c)
  }

  function RenderAll(ts: seq<Token>): string
    decreases |ts|
  {
    if ts == [] then "" else Render(ts[0]) + RenderAll(ts[1..])
  }

  /** Token lists the scan can produce: literals are never `%`, and a lone
      `%` can only be the last token. */
  predicate WellFormed(ts: seq<Token>)
  {
    (forall i :: 0 <= i < |ts| && ts[i].Literal? ==> ts[i].c != '%') &&
    (forall i :: 0 <= i < |ts| - 1 ==> !ts[i].LonePercent?)
  }

  /** Every token the scan produces is well formed. */
  lemma {:induction false} TokenizeWellFormed(p: string)
    ensures WellFormed(Tokenize(p))
    decreases |p|
  {
    if p != [] && p[0] != '%' {
      TokenizeWellFormed(p[1..]);
    } else if |p| > 1 {
      TokenizeWellFormed(p[2..]);
    }
  }

  /** The scan reads every character exactly once: gluing the tokens' source
      texts back together gives the pattern. */
  lemma {:induction false} UntokenizeTokenize(p: string)
    ensures Untokenize(Tokenize(p)) == p
    decreases |p|
  {
    if p == [] {
    } else if p[0] != '%' {
      var ts := Tokenize(p);
      assert ts[1..] == Tokenize(p[1..]);
      UntokenizeTokenize(p[1..]);
      assert p == [p[0]] + p[1..];
    } else if |p| == 1 {
      assert Tokenize(p)[1..] == [];
    } else {
      var ts := Tokenize(p);
      assert ts[1..] == Tokenize(p[2..]);
      UntokenizeTokenize(p[2..]);
      assert p == ['%', p[1]] + p[2..];
    }
  }

  /** The converse: a well-formed token list is recovered from its text. */
  lemma {:induction false} TokenizeUntokenize(ts: seq<Token>)
    requires WellFormed(ts)
    ensures Tokenize(Untokenize(ts)) == ts
    decreases |ts|
  {
    if ts != [] {
      var rest := ts[1..];
      assert WellFormed(rest) by {
        forall i | 0 <= i < |rest| && rest[i].Literal? ensures rest[i].c != '%' {
          assert rest[i] == ts[i + 1];
        }
        forall i | 0 <= i < |rest| - 1 ensures !rest[i].LonePercent? {
          assert rest[i] == ts[i + 1];
        }
      }
      TokenizeUntokenize(rest);
      var p := Untokenize(ts);
      assert p == Source(ts[0]) + Untokenize(rest);
      match ts[0]
      case Literal(c) =>
        assert p[0] == c && p[1..] == Untokenize(rest);
      case LonePercent =>
        assert |ts| == 1;
        assert rest == [];
        assert p == "%";
      case Escape(c) =>
        assert p[0] == '%' && p[1] == c && p[2..] == Untokenize(rest);
    }
  }

  /** The scan and the token view agree on every pattern. */
  lemma {:induction false} TranslateIsRenderedTokens(p: string)
    ensures Translate(p) == RenderAll(Tokenize(p))
    decreases |p|
  {
    if p == [] {
    } else if p[0] != '%' {
      assert Tokenize(p)[1..] == Tokenize(p[1..]);
      TranslateIsRenderedTokens(p[1..]);
    } else if |p| == 1 {
      assert Tokenize(p)[1..] == [];
    } else {
      assert Tokenize(p)[1..] == Tokenize(p[2..]);
      TranslateIsRenderedTokens(p[2..]);
    }
  }

  // ---------------------------------------------------------------------
  // Compositional facts: what each kind of character becomes, in context.

  /** A prefix is closed when its last `%`, if any, is already paired, so
      that nothing after it can change how it is scanned. */
  predicate Closed(a: string)
  {
    LonePercent !in Tokenize(a)
  }

  /** Translating a closed prefix and the rest separately gives the same
      text as translating them together. */
  lemma {:induction false} TranslateAppend(a: string, b: string)
    requires Closed(a)
    ensures Translate(a + b) == Translate(a) + Translate(b)
    decreases |a|
  {
    if a == [] {
      assert a + b == b;
    } else if a[0] != '%' {
      assert Tokenize(a) == [Literal(a[0])] + Tokenize(a[1..]);
      assert Closed(a[1..]);
      assert (a + b)[0] == a[0] && (a + b)[1..] == a[1..] + b;
      TranslateAppend(a[1..], b);
    } else {
      assert Tokenize(a)[0] == if |a| == 1 then LonePercent else Escape(a[1]);
      assert Tokenize(a) == [Escape(a[1])] + Tokenize(a[2..]);
      assert Closed(a[2..]);
      assert (a + b)[0] == '%' && (a + b)[1] == a[1] && (a + b)[2..] == a[2..] + b;
      TranslateAppend(a[2..], b);
    }
  }

  /** A character other than `%` after a closed prefix is copied verbatim
      and in place. */
  lemma LiteralIsCopied(a: string, c: char, b: string)
    requires Closed(a) && c != '%'
    ensures Translate(a + [c] + b) == Translate(a) + [c] + Translate(b)
  {
    assert a + [c] + b == a + ([c] + b);
    TranslateAppend(a, [c] + b);
    assert ([c] + b)[1..] == b;
  }

  /** A `%` that ends the pattern is emitted as a literal `%`. */
  lemma TrailingPercentIsLiteral(a: string)
    requires Closed(a)
    ensures Translate(a + "%") == Translate(a) + "%"
  {
    TranslateAppend(a, "%");
  }

  /** The escape `%c` after a closed prefix becomes the class from the table,
      a single `%` for `%%`, and `\c` for every other character. */
  lemma EscapeIsRewritten(a: string, c: char, b: string)
    requires Closed(a)
    ensures c in ClassLetters ==>
      Translate(a + ['%', c] + b) == Translate(a) + ClassToRegex(c).value + Translate(b)
    ensures c == '%' ==>
      Translate(a + ['%', c] + b) == Translate(a) + "%" + Translate(b)
    ensures c !in ClassLetters && c != '%' ==>
      Translate(a + ['%', c] + b) == Translate(a) + ['\\', c] + Translate(b)
  {
    var e := ['%', c] + b;
    assert a + ['%', c] + b == a + e;
    TranslateAppend(a, e);
    assert e[0] == '%' && e[1] == c && e[2..] == b;
    assert Translate(e) == EscapeText(c) + Translate(b);
    assert Translate(a) + (EscapeText(c) + Translate(b)) == Translate(a) + EscapeText(c) + Translate(b);
    EscapeTextCases(c);
  }

  lemma EscapeTextCases(c: char)
    ensures c in ClassLetters ==> EscapeText(c) == ClassToRegex(c).value
    ensures c == '%' ==> EscapeText(c) == "%"
    ensures c !in ClassLetters && c != '%' ==> EscapeText(c) == ['\\', c]
  {
  }

  // ---------------------------------------------------------------------
  // The predicate itself.

  /** The predicate owns the call: shape String, Capture, String, Done and
      the name `lua-match?` or `lua_match?`. */
  predicate Owns(steps: seq<Step>)
  {
    IsTwoArgCall(steps) && (steps[0].content == "lua-match?" || steps[0].content == "lua_match?")
  }

  /** `compiles(r)` says whether the regex engine accepts `r`; `finds(r, v)`
      whether `r` is found somewhere in `v`. `captured` holds the texts of
      the capture named by step 1. */
  method DoPredicate(steps: seq<Step>, captured: seq<string>,
                     compiles: string -> bool, finds: (string, string) -> bool)
    returns (r: PredicateResult)
    ensures r == Unhandled <==> !Owns(steps) || !compiles(Translate(steps[2].content))
    ensures r == Accept <==>
      Owns(steps) && compiles(Translate(steps[2].content)) &&
      forall i :: 0 <= i < |captured| ==> finds(Translate(steps[2].content), captured[i])
    ensures r == Reject <==>
      Owns(steps) && compiles(Translate(steps[2].content)) &&
      exists i :: 0 <= i < |captured| && !finds(Translate(steps[2].content), captured[i])
  {
    if !IsTwoArgCall(steps) {
      return Unhandled;
    }
    var name := steps[0].content;
    if name != "lua-match?" && name != "lua_match?" {
      return Unhandled;
    }
    var regex := LuaPatternToJavaRegex(steps[2].content);
    if !compiles(regex) {
      return Unhandled;
    }
    var i := 0;
    while i < |captured|
      invariant 0 <= i <= |captured|
      invariant forall j :: 0 <= j < i ==> finds(regex, captured[j])
    {
      if !finds(regex, captured[i]) {
        return Reject;
      }
      i := i + 1;
    }
    return Accept;
  }
}
