/** Substring search through PostgreSQL's ILIKE operator.

    Both listing routes turn the user's search text into an ILIKE pattern `%text%` after
    putting a backslash (LIKE's default escape character) before every `%` and `_`
    (app/api/conversation/intents/route.ts:25, app/api/studio/route.ts:4-9). The matcher below
    is a reference reading of ILIKE as section 9.7.1 of the PostgreSQL manual describes it;
    it runs in the store, not in the program, and is here only to state what the escaping
    achieves. The pattern reaches the database through PostgREST, whose `like` and `ilike`
    operators read every `*` of their operand as `%`. */
module Like {
  import opened Base

  /** `s.replaceAll(c, with)` for a one-character search string. */
  function ReplaceChar(s: string, c: char, with: string): (r: string)
  {
    if s == [] then []
    else (if s[0] == c then with else [s[0]]) + ReplaceChar(s[1..], c, with)
  }

  /** `replaceAll` leaves a text without the searched character as it is. */
  lemma {:induction false} ReplaceCharAbsent(s: string, c: char, with: string)
    requires c !in s
    ensures ReplaceChar(s, c, with) == s
  {
    if s != [] {
      assert s == [s[0]] + s[1..];
      ReplaceCharAbsent(s[1..], c, with);
    }
  }

  /** `v.replaceAll("%", "\\%").replaceAll("_", "\\_")`: a text without either wildcard
      is sent as it is (EscapeCons states the general case). */
  function Escape(v: string): (r: string)
    ensures '%' !in v && '_' !in v ==> r == v
  {
    PlainTextUnescaped(v);
    ReplaceChar(ReplaceChar(v, '%', "\\%"), '_', "\\_")
  }

  lemma PlainTextUnescaped(v: string)
    ensures '%' !in v && '_' !in v ==> ReplaceChar(ReplaceChar(v, '%', "\\%"), '_', "\\_") == v
  {
    if '%' !in v && '_' !in v {
      ReplaceCharAbsent(v, '%', "\\%");
      ReplaceCharAbsent(v, '_', "\\_");
    }
  }

  /** Escaping adds only backslashes: a character other than the backslash that the text
      lacks, the escaped text lacks too. */
  lemma {:induction false} EscapeKeepsOut(v: string, c: char)
    requires c !in v && c != '\\'
    ensures c !in Escape(v)
  {
    if v != [] {
      assert v == [v[0]] + v[1..];
      EscapeCons(v[0], v[1..]);
      EscapeKeepsOut(v[1..], c);
    }
  }

  /** The pattern both routes send: the escaped text between two `%` wildcards. */
  function LikePattern(v: string): (p: string)
    ensures |p| >= 2 && p[0] == '%' && p[|p| - 1] == '%'
  {
    "%" + Escape(v) + "%"
  }

  /** The escaped form of one character. */
  function EscapeChar(c: char): string {
    if c == '%' || c == '_' then ['\\', c] else [c]
  }

  lemma {:induction false} ReplaceCharAppend(a: string, b: string, c: char, with: string)
    ensures ReplaceChar(a + b, c, with) == ReplaceChar(a, c, with) + ReplaceChar(b, c, with)
  {
    if a != [] {
      var x, rest := a[0], a[1..];
      assert a == [x] + rest;
      assert a + b == [x] + (rest + b);
      ReplaceCharAppend(rest, b, c, with);
      ReplaceCharCons(x, rest + b, c, with);
      ReplaceCharCons(x, rest, c, with);
    } else {
      assert a + b == b;
    }
  }

  lemma ReplaceCharCons(x: char, s: string, c: char, with: string)
    ensures ReplaceChar([x] + s, c, with) == (if x == c then with else [x]) + ReplaceChar(s, c, with)
  {
    assert ([x] + s)[1..] == s;
  }

  /** The two passes of `replaceAll` escape the text one character at a time: the
      backslashes the first pass inserts are never touched by the second. */
  lemma {:induction false} EscapeCons(c: char, v: string)
    ensures Escape([c] + v) == EscapeChar(c) + Escape(v)
  {
    assert ([c] + v)[1..] == v;
    var once := ReplaceChar([c] + v, '%', "\\%");
    assert once == (if c == '%' then "\\%" else [c]) + ReplaceChar(v, '%', "\\%");
    ReplaceCharAppend(if c == '%' then "\\%" else [c], ReplaceChar(v, '%', "\\%"), '_', "\\_");
    if c == '%' {
      assert ReplaceChar("\\%", '_', "\\_") == "\\%" by {
        assert "\\%"[1..] == "%";
      }
    }
  }

  /** Undoes the escaping: a backslash makes the character after it literal. */
  function Unescape(p: string): string {
    if p == [] then []
    else if p[0] == '\\' && |p| >= 2 then [p[1]] + Unescape(p[2..])
    else [p[0]] + Unescape(p[1..])
  }

  /** Escaping is undone by unescaping whenever the text holds no backslash. */
  lemma {:induction false} UnescapeEscape(v: string)
    requires '\\' !in v
    ensures Unescape(Escape(v)) == v
  {
    if v != [] {
      assert v == [v[0]] + v[1..];
      EscapeCons(v[0], v[1..]);
      UnescapeEscape(v[1..]);
      var e := EscapeChar(v[0]) + Escape(v[1..]);
      if v[0] == '%' || v[0] == '_' {
        assert e[2..] == Escape(v[1..]);
      } else {
        assert e[1..] == Escape(v[1..]);
      }
    }
  }

  /** `ilikeSafe` of the studio route: no pattern for blank text, otherwise the pattern for
      the trimmed text. */
  function IlikeSafe(q: string): (r: Option<string>)
    ensures r.None? <==> Trim(q) == ""
    ensures r.Some? ==> r.value == LikePattern(Trim(q))
  {
    var v := Trim(q);
    if v == "" then None else Some(LikePattern(v))
  }

  /** For text without a backslash, stripping the two outer `%` of `ilikeSafe`'s pattern and
      unescaping gives back the trimmed text. */
  lemma IlikeSafeRoundTrip(q: string)
    requires '\\' !in Trim(q)
    requires Trim(q) != ""
    ensures IlikeSafe(q).Some?
    ensures var p := IlikeSafe(q).value; Unescape(p[1..|p| - 1]) == Trim(q)
  {
    var p := IlikeSafe(q).value;
    assert p[1..|p| - 1] == Escape(Trim(q));
    UnescapeEscape(Trim(q));
  }

  // ---- A reference reading of LIKE / ILIKE ----

  /** A pattern element: `%`, `_`, or a character matched literally. */
  datatype Token = AnyRun | AnyChar | Literal(c: char)

  /** Splits a LIKE pattern with `\` as escape character into its elements. A backslash at
      the very end, which PostgreSQL rejects, is read as a literal backslash. */
  function Tokens(p: string): seq<Token> {
    if p == [] then []
    else if p[0] == '\\' && |p| >= 2 then [Literal(p[1])] + Tokens(p[2..])
    else if p[0] == '%' then [AnyRun] + Tokens(p[1..])
    else if p[0] == '_' then [AnyChar] + Tokens(p[1..])
    else [Literal(p[0])] + Tokens(p[1..])
  }

  /** Case-insensitive matching of a whole string against pattern elements. */
  predicate Matches(t: seq<Token>, s: string)
    decreases |t|, |s|
  {
    if t == [] then s == []
    else match t[0]
      case AnyRun => exists k :: 0 <= k <= |s| && Matches(t[1..], s[k..])
      case AnyChar => |s| > 0 && Matches(t[1..], s[1..])
      case Literal(c) => |s| > 0 && LowerChar(s[0]) == LowerChar(c) && Matches(t[1..], s[1..])
  }

  /** `s ILIKE p`. */
  predicate ILike(s: string, p: string) {
    Matches(Tokens(p), s)
  }

  /** The operand PostgREST hands to the database for `like`/`ilike`: every `*` becomes `%`. */
  function RestOperand(p: string): string {
    ReplaceChar(p, '*', "%")
  }

  /** A row's column passes an `ilike` filter with operand `p` sent through PostgREST. */
  predicate RestILike(s: string, p: string) {
    ILike(s, RestOperand(p))
  }

  /** `v` occurs in `s` when case is ignored. */
  predicate ContainsIgnoringCase(s: string, v: string) {
    Contains(Lower(s), Lower(v))
  }

  /** The elements matching the characters of `v` literally. */
  function Literals(v: string): (t: seq<Token>)
    ensures |t| == |v|
    ensures forall i :: 0 <= i < |v| ==> t[i] == Literal(v[i])
  {
    if v == [] then [] else [Literal(v[0])] + Literals(v[1..])
  }

  lemma {:induction false} TokensOfEscaped(v: string, rest: string)
    requires '\\' !in v
    ensures Tokens(Escape(v) + rest) == Literals(v) + Tokens(rest)
  {
    if v != [] {
      var c, w := v[0], v[1..];
      var tail := Escape(w) + rest;
      EscapeSplit(v, rest);
      assert '\\' !in w;
      TokensOfEscaped(w, rest);
      TokensOfEscapedChar(c, tail);
      calc {
        Tokens(Escape(v) + rest);
        Tokens(EscapeChar(c) + tail);
        [Literal(c)] + Tokens(tail);
        [Literal(c)] + (Literals(w) + Tokens(rest));
        ([Literal(c)] + Literals(w)) + Tokens(rest);
      }
    } else {
      assert Escape(v) + rest == rest;
    }
  }

  lemma EscapeSplit(v: string, rest: string)
    requires v != []
    ensures Escape(v) + rest == EscapeChar(v[0]) + (Escape(v[1..]) + rest)
  {
    assert v == [v[0]] + v[1..];
    EscapeCons(v[0], v[1..]);
  }

  /** An escaped character, other than a backslash, is read back as that character. */
  lemma TokensOfEscapedChar(c: char, tail: string)
    requires c != '\\'
    ensures Tokens(EscapeChar(c) + tail) == [Literal(c)] + Tokens(tail)
  {
    var e := EscapeChar(c) + tail;
    if c == '%' || c == '_' {
      assert e == ['\\', c] + tail;
      assert e[2..] == tail;
    } else {
      assert e == [c] + tail;
      assert e[1..] == tail;
    }
  }

  lemma {:induction false} MatchesLiterals(v: string, t: seq<Token>, s: string)
    ensures Matches(Literals(v) + t, s)
            <==> |v| <= |s| && Lower(s[..|v|]) == Lower(v) && Matches(t, s[|v|..])
  {
    if v != [] {
      assert Literals(v) + t == [Literal(v[0])] + (Literals(v[1..]) + t);
      MatchesLiteral(v[0], Literals(v[1..]) + t, s);
      if |s| > 0 {
        MatchesLiterals(v[1..], t, s[1..]);
        if |v| <= |s| {
          assert s[1..][|v| - 1..] == s[|v|..];
          assert s[1..][..|v| - 1] == s[..|v|][1..];
          LowerCons(s[..|v|], v);
        }
      }
    } else {
      assert Literals(v) + t == t;
      assert s[..0] == [] && s[0..] == s;
    }
  }

  lemma MatchesLiteral(c: char, rest: seq<Token>, s: string)
    ensures Matches([Literal(c)] + rest, s)
            <==> |s| > 0 && LowerChar(s[0]) == LowerChar(c) && Matches(rest, s[1..])
  {
    assert ([Literal(c)] + rest)[1..] == rest;
  }

  /** Two texts of one length agree ignoring case exactly when their first characters and
      their tails do. */
  lemma LowerCons(a: string, b: string)
    requires |a| == |b| > 0
    ensures Lower(a) == Lower(b)
            <==> LowerChar(a[0]) == LowerChar(b[0]) && Lower(a[1..]) == Lower(b[1..])
  {
    if LowerChar(a[0]) == LowerChar(b[0]) && Lower(a[1..]) == Lower(b[1..]) {
      forall i | 0 <= i < |a| ensures Lower(a)[i] == Lower(b)[i] {
        if i > 0 {
          assert Lower(a[1..])[i - 1] == Lower(b[1..])[i - 1];
        }
      }
    }
    if Lower(a) == Lower(b) {
      assert Lower(a)[0] == Lower(b)[0];
      forall i | 0 <= i < |a| - 1 ensures Lower(a[1..])[i] == Lower(b[1..])[i] {
        assert Lower(a)[i + 1] == Lower(b)[i + 1];
      }
    }
  }

  /** A leading `%` lets the rest of the pattern match any suffix. */
  lemma LeadingAnyRun(t: seq<Token>, s: string, k: int)
    requires 0 <= k <= |s| && Matches(t, s[k..])
    ensures Matches([AnyRun] + t, s)
  {
    assert ([AnyRun] + t)[1..] == t;
  }

  /** A trailing `%` matches whatever is left. */
  lemma TrailingAnyRun(s: string)
    ensures Matches([AnyRun], s)
  {
    assert s[|s|..] == [];
  }

  lemma MatchedPatternContains(s: string, v: string)
    requires Matches([AnyRun] + (Literals(v) + [AnyRun]), s)
    ensures ContainsIgnoringCase(s, v)
  {
    var t := Literals(v) + [AnyRun];
    assert ([AnyRun] + t)[1..] == t;
    var k :| 0 <= k <= |s| && Matches(t, s[k..]);
    MatchesLiterals(v, [AnyRun], s[k..]);
    assert s[k..][..|v|] == s[k..k + |v|];
    assert Lower(s)[k..k + |v|] == Lower(s[k..k + |v|]);
    assert OccursAt(Lower(s), Lower(v), k);
  }

  lemma ContainedMatchesPattern(s: string, v: string)
    requires ContainsIgnoringCase(s, v)
    ensures Matches([AnyRun] + (Literals(v) + [AnyRun]), s)
  {
    var k :| 0 <= k <= |Lower(s)| && OccursAt(Lower(s), Lower(v), k);
    assert Lower(s)[k..k + |v|] == Lower(s[k..k + |v|]);
    assert s[k..][..|v|] == s[k..k + |v|];
    TrailingAnyRun(s[k..][|v|..]);
    MatchesLiterals(v, [AnyRun], s[k..]);
    LeadingAnyRun(Literals(v) + [AnyRun], s, k);
  }

  /** The `ilike` filter with the routes' pattern means "contains this text" when the text
      holds no backslash and no `*`: escaped `%` and `_` match only themselves. */
  lemma PatternMeansSubstring(s: string, v: string)
    requires '\\' !in v && '*' !in v
    ensures RestILike(s, LikePattern(v)) <==> ContainsIgnoringCase(s, v)
  {
    EscapeKeepsOut(v, '*');
    assert '*' !in LikePattern(v);
    ReplaceCharAbsent(LikePattern(v), '*', "%");
    TokensOfEscaped(v, "%");
    assert LikePattern(v) == "%" + (Escape(v) + "%");
    assert Tokens(LikePattern(v)) == [AnyRun] + (Literals(v) + [AnyRun]);
    if ILike(s, LikePattern(v)) {
      MatchedPatternContains(s, v);
    }
    if ContainsIgnoringCase(s, v) {
      ContainedMatchesPattern(s, v);
    }
  }

  /** The source leaves the backslash itself unescaped: a search for `a\` turns its backslash
      into an escape of the closing wildcard, and the text `a\` no longer matches itself. */
  lemma BackslashDefeatsSubstringSearch()
    ensures ContainsIgnoringCase("a\\", "a\\")
    ensures !RestILike("a\\", LikePattern("a\\"))
  {
    ContainsItself("a\\");
    BackslashPattern();
    BackslashPatternFails();
  }

  lemma ContainsItself(v: string)
    ensures ContainsIgnoringCase(v, v)
  {
    assert Lower(v)[0..|v|] == Lower(v);
    assert OccursAt(Lower(v), Lower(v), 0);
  }

  lemma BackslashPattern()
    ensures RestOperand(LikePattern("a\\")) == "%a\\%"
  {
    assert Escape("a\\") == "a\\";
    assert LikePattern("a\\") == "%a\\%";
    ReplaceCharAbsent("%a\\%", '*', "%");
  }

  lemma BackslashPatternFails()
    ensures !ILike("a\\", "%a\\%")
  {
    var t := [Literal('a'), Literal('%')];
    assert Tokens("%a\\%") == [AnyRun] + t by {
      assert "%a\\%"[1..] == "a\\%";
      assert "a\\%"[1..] == "\\%";
      assert Tokens("\\%") == [Literal('%')] by { assert "\\%"[2..] == ""; }
    }
    forall k | 0 <= k <= 2 ensures !Matches(t, "a\\"[k..]) {
      assert t[1..] == [Literal('%')];
    }
  }

  /** PostgREST reads the `*` of a search as `%`, which neither route escapes: a search for
      `a*b` finds the text `axb`, which does not contain `a*b`. */
  lemma StarIsAWildcard()
    ensures RestILike("axb", LikePattern("a*b"))
    ensures !ContainsIgnoringCase("axb", "a*b")
  {
    StarPattern();
    StarPatternMatches();
    AxbLacksStar();
  }

  lemma AxbLacksStar()
    ensures !ContainsIgnoringCase("axb", "a*b")
  {
    assert Lower("axb")[1] == 'x' && Lower("a*b")[1] == '*';
    assert |Lower("axb")| == 3 && |Lower("a*b")| == 3;
    assert !OccursAt(Lower("axb"), Lower("a*b"), 0);
  }

  lemma StarPattern()
    ensures RestOperand(LikePattern("a*b")) == "%a%b%"
  {
    assert Escape("a*b") == "a*b";
    assert LikePattern("a*b") == "%a*b%";
    StarReplaced();
  }

  lemma StarReplaced()
    ensures ReplaceChar("%a*b%", '*', "%") == "%a%b%"
  {
    ReplaceCharCons('%', "a*b%", '*', "%");
    ReplaceCharCons('a', "*b%", '*', "%");
    ReplaceCharCons('*', "b%", '*', "%");
    ReplaceCharAbsent("b%", '*', "%");
    assert "%a*b%" == ['%'] + "a*b%" && "a*b%" == ['a'] + "*b%" && "*b%" == ['*'] + "b%";
  }

  lemma StarPatternMatches()
    ensures ILike("axb", "%a%b%")
  {
    var t := [AnyRun, Literal('a'), AnyRun, Literal('b'), AnyRun];
    StarPatternTokens();
    assert Matches(t[4..], "") by {
      assert t[4..][1..] == [];
      assert ""[0..] == "";
    }
    assert Matches(t[3..], "b") by { assert "b"[1..] == ""; assert t[3..][1..] == t[4..]; }
    assert Matches(t[2..], "xb") by { assert "xb"[1..] == "b"; assert t[2..][1..] == t[3..]; }
    assert Matches(t[1..], "axb") by { assert "axb"[1..] == "xb"; assert t[1..][1..] == t[2..]; }
    assert "axb"[0..] == "axb";
  }

  lemma StarPatternTokens()
    ensures Tokens("%a%b%") == [AnyRun, Literal('a'), AnyRun, Literal('b'), AnyRun]
  {
    var t := [AnyRun, Literal('a'), AnyRun, Literal('b'), AnyRun];
    assert Tokens("%") == [AnyRun] by { assert "%"[1..] == ""; }
    assert Tokens("b%") == t[3..] by { assert "b%"[1..] == "%"; }
    assert Tokens("%b%") == t[2..] by { assert "%b%"[1..] == "b%"; }
    assert Tokens("a%b%") == t[1..] by { assert "a%b%"[1..] == "%b%"; }
    assert "%a%b%"[1..] == "a%b%";
  }
}
