// The glob compiler of internal/bridge/route.go: a pattern with '*' or '?' becomes the text of an
// anchored regular expression, every other pattern is searched for as a substring.

module Glob {
  import opened GoText

  predicate HasWildcard(p: string) {
    '*' in p || '?' in p
  }

  // ---------------------------------------------------------------- emitting the expression's text

  predicate Escaped(c: char) {
    c in ".+()[]{}|^$\\"
  }

  function EmitChar(c: char): string {
    if c == '*' then ".*"
    else if c == '?' then "."
    else if Escaped(c) then ['\\', c]
    else [c]
  }

  function Emit(p: string): string {
    if p == "" then "" else EmitChar(p[0]) + Emit(p[1..])
  }

  function RegexText(p: string): string {
    "^" + Emit(p) + "$"
  }

  lemma {:induction false} EmitAppend(p: string, c: char)
    ensures Emit(p + [c]) == Emit(p) + EmitChar(c)
  {
    if p == "" {
      assert ("" + [c])[1..] == "";
      assert Emit([c]) == EmitChar(c) + Emit("");
    } else {
      assert (p + [c])[1..] == p[1..] + [c];
      EmitAppend(p[1..], c);
    }
  }

  method GlobToRegexText(pattern: string) returns (sb: string)
    ensures sb == RegexText(pattern)
  {
    sb := "^";
    for i := 0 to |pattern|
      invariant sb == "^" + Emit(pattern[..i])
    {
      var r := pattern[i];
      assert pattern[..i + 1] == pattern[..i] + [r];
      EmitAppend(pattern[..i], r);
      match r {
        case '*' => sb := sb + ".*";
        case '?' => sb := sb + ".";
        case _ =>
          if Escaped(r) {
            sb := sb + "\\";
            sb := sb + [r];
          } else {
            sb := sb + [r];
          }
      }
    }
    assert pattern[..|pattern|] == pattern;
    sb := sb + "$";
  }

  // ---------------------------------------------------------------- regular expressions

  // The fragment of Go's syntax that matters: a sequence of atoms, each possibly starred.
  datatype Re = Lit(c: char) | AnyButNewline | Star(r: Re)

  // The language of one node, and of a sequence of nodes anchored at both ends of the text.
  predicate InNode(r: Re, s: string)
    decreases r, |s|
  {
    match r
    case Lit(c) => s == [c]
    case AnyButNewline => |s| == 1 && s[0] != '\n'
    case Star(body) => s == "" || exists i :: 0 < i <= |s| && InNode(body, s[..i]) && InNode(r, s[i..])
  }

  predicate Matches(rs: seq<Re>, s: string) {
    if rs == [] then s == ""
    else exists i :: 0 <= i <= |s| && InNode(rs[0], s[..i]) && Matches(rs[1..], s[i..])
  }

  // Go's parser on this fragment. A bare metacharacter, a stacked quantifier and anything between or
  // after the anchors that is not a sequence of atoms is refused.
  predicate Meta(c: char) {
    c in ".+*?()[]{}|^$\\"
  }

  predicate Quantifier(c: char) {
    c in "*+?{"
  }

  function ParseItems(t: string): Option<seq<Re>>
    decreases |t|, 0
  {
    if t == "" then None
    else if t == "$" then Some([])
    else if t[0] == '\\' then
      if |t| >= 2 && Meta(t[1]) then ParseStar(Lit(t[1]), t[2..]) else None
    else if t[0] == '.' then ParseStar(AnyButNewline, t[1..])
    else if Meta(t[0]) then None
    else ParseStar(Lit(t[0]), t[1..])
  }

  function ParseStar(atom: Re, rest: string): Option<seq<Re>>
    decreases |rest|, 1
  {
    if rest != "" && rest[0] == '*' then
      if |rest| >= 2 && Quantifier(rest[1]) then None
      else Prepend(Star(atom), ParseItems(rest[1..]))
    else if rest != "" && Quantifier(rest[0]) then None
    else Prepend(atom, ParseItems(rest))
  }

  function Prepend(r: Re, tail: Option<seq<Re>>): Option<seq<Re>> {
    match tail
    case None => None
    case Some(rs) => Some([r] + rs)
  }

  function ParseAnchored(t: string): Option<seq<Re>> {
    if t != "" && t[0] == '^' then ParseItems(t[1..]) else None
  }

  // What the pattern is meant to become.
  function Node(c: char): Re {
    if c == '*' then Star(AnyButNewline) else if c == '?' then AnyButNewline else Lit(c)
  }

  function Nodes(p: string): (rs: seq<Re>)
    ensures |rs| == |p|
  {
    if p == "" then [] else [Node(p[0])] + Nodes(p[1..])
  }

  lemma EmitNeverStartsWithQuantifier(p: string)
    ensures var t := Emit(p) + "$"; t != "" && !Quantifier(t[0])
  {
  }

  lemma EmittedCharParses(c: char, tail: string, rest: seq<Re>)
    requires tail != "" && !Quantifier(tail[0]) && ParseItems(tail) == Some(rest)
    ensures ParseItems(EmitChar(c) + tail) == Some([Node(c)] + rest)
  {
    var t := EmitChar(c) + tail;
    if c == '*' {
      assert t[1..] == ['*'] + tail;
      assert t[1..][1..] == tail;
    } else if c != '?' && Escaped(c) {
      assert t[2..] == tail;
    } else {
      assert t[1..] == tail;
      assert |t| >= 2;
    }
  }

  lemma {:induction false} EmittedItemsParse(p: string)
    ensures ParseItems(Emit(p) + "$") == Some(Nodes(p))
  {
    if p == "" {
      assert Emit("") + "$" == "$";
    } else {
      var tail := Emit(p[1..]) + "$";
      assert Emit(p) + "$" == EmitChar(p[0]) + tail;
      EmittedItemsParse(p[1..]);
      EmitNeverStartsWithQuantifier(p[1..]);
      EmittedCharParses(p[0], tail, Nodes(p[1..]));
    }
  }

  // The emitted text is always a well-formed anchored expression, whatever metacharacters the
  // pattern holds, and it means one node per pattern character.
  lemma EmittedTextParses(p: string)
    ensures ParseAnchored(RegexText(p)) == Some(Nodes(p))
  {
    assert RegexText(p)[1..] == Emit(p) + "$";
    EmittedItemsParse(p);
  }

  // ---------------------------------------------------------------- direct wildcard matching

  // '*' stands for any characters, '?' for exactly one, everything else for itself.
  predicate WildMatch(p: string, u: string)
    decreases |p| + |u|
  {
    if p == "" then u == ""
    else if p[0] == '*' then WildMatch(p[1..], u) || (u != "" && WildMatch(p, u[1..]))
    else u != "" && (p[0] == '?' || p[0] == u[0]) && WildMatch(p[1..], u[1..])
  }

  // The same, with wildcards that refuse to stand for a newline.
  predicate LineMatch(p: string, u: string)
    decreases |p| + |u|
  {
    if p == "" then u == ""
    else if p[0] == '*' then LineMatch(p[1..], u) || (u != "" && u[0] != '\n' && LineMatch(p, u[1..]))
    else u != "" && (if p[0] == '?' then u[0] != '\n' else p[0] == u[0]) && LineMatch(p[1..], u[1..])
  }

  lemma {:induction false} StarSplits(rs: seq<Re>, s: string)
    requires rs != [] && rs[0] == Star(AnyButNewline)
    ensures Matches(rs, s) <==> Matches(rs[1..], s) || (s != "" && s[0] != '\n' && Matches(rs, s[1..]))
  {
    var star := rs[0];
    if Matches(rs[1..], s) {
      assert s[..0] == "" && s[0..] == s;
      assert InNode(star, s[..0]) && Matches(rs[1..], s[0..]);
    }
    if s != "" && s[0] != '\n' && Matches(rs, s[1..]) {
      var i :| 0 <= i <= |s[1..]| && InNode(star, s[1..][..i]) && Matches(rs[1..], s[1..][i..]);
      var whole := s[..i + 1];
      assert whole[..1] == [s[0]] && whole[1..] == s[1..][..i];
      assert InNode(AnyButNewline, whole[..1]) && InNode(star, whole[1..]);
      assert s[i + 1..] == s[1..][i..];
      assert InNode(star, s[..i + 1]) && Matches(rs[1..], s[i + 1..]);
    }
    if Matches(rs, s) {
      var i :| 0 <= i <= |s| && InNode(star, s[..i]) && Matches(rs[1..], s[i..]);
      if i == 0 {
        assert s[0..] == s;
      } else {
        var k :| 0 < k <= i && InNode(AnyButNewline, s[..i][..k]) && InNode(star, s[..i][k..]);
        assert k == 1 && s[..i][..1] == [s[0]];
        assert s[..i][1..] == s[1..][..i - 1] && s[i..] == s[1..][i - 1..];
        assert InNode(star, s[1..][..i - 1]) && Matches(rs[1..], s[1..][i - 1..]);
      }
    }
  }

  lemma SingleSplits(rs: seq<Re>, s: string)
    requires rs != [] && !rs[0].Star?
    ensures Matches(rs, s) <==> s != "" && InNode(rs[0], [s[0]]) && Matches(rs[1..], s[1..])
  {
  }

  // The language of the compiled expression over every text, newlines included.
  lemma {:induction false} LanguageIsLineMatch(p: string, u: string)
    ensures Matches(Nodes(p), u) <==> LineMatch(p, u)
    decreases |p| + |u|
  {
    if p != "" {
      var rs := Nodes(p);
      assert rs[1..] == Nodes(p[1..]);
      if p[0] == '*' {
        StarSplits(rs, u);
        LanguageIsLineMatch(p[1..], u);
        if u != "" {
          LanguageIsLineMatch(p, u[1..]);
        }
      } else {
        SingleSplits(rs, u);
        if u != "" {
          LanguageIsLineMatch(p[1..], u[1..]);
        }
      }
    }
  }

  lemma {:induction false} NewlineFreeAgree(p: string, u: string)
    requires '\n' !in u
    ensures LineMatch(p, u) <==> WildMatch(p, u)
    decreases |p| + |u|
  {
    if p != "" {
      if p[0] == '*' {
        NewlineFreeAgree(p[1..], u);
        if u != "" {
          NewlineFreeAgree(p, u[1..]);
        }
      } else if u != "" {
        NewlineFreeAgree(p[1..], u[1..]);
      }
    }
  }

  lemma {:induction false} LoneStar(u: string)
    ensures WildMatch("*", u)
    ensures LineMatch("*", u) <==> '\n' !in u
  {
    assert "*"[1..] == "";
    if u != "" {
      LoneStar(u[1..]);
    }
  }

  // Compiling preserves the meaning of every pattern on a URL exactly when the URL has no newline.
  lemma CompilationPreservesMeaning(u: string)
    ensures '\n' !in u <==> forall p: string :: Matches(Nodes(p), u) <==> WildMatch(p, u)
  {
    if '\n' !in u {
      forall p: string ensures Matches(Nodes(p), u) <==> WildMatch(p, u) {
        LanguageIsLineMatch(p, u);
        NewlineFreeAgree(p, u);
      }
    } else {
      LoneStar(u);
      LanguageIsLineMatch("*", u);
      assert Matches(Nodes("*"), u) != WildMatch("*", u);
    }
  }

  // ---------------------------------------------------------------- rules

  // compileRulePattern: no expression for a substring pattern.
  function CompileRulePattern(p: string): Option<seq<Re>> {
    if p == "" || !HasWildcard(p) then None else ParseAnchored(RegexText(p))
  }

  predicate GlobMatch(p: string, url: string) {
    if p == "" then false
    else if !HasWildcard(p) then Contains(url, p)
    else match ParseAnchored(RegexText(p))
         case None => false
         case Some(rs) => Matches(rs, url)
  }

  predicate RuleMatchesURL(p: string, compiled: Option<seq<Re>>, url: string) {
    if p == "" then false
    else if compiled.Some? then Matches(compiled.value, url)
    else if HasWildcard(p) then GlobMatch(p, url)
    else Contains(url, p)
  }

  // What a stored rule matches on any URL, on one without newlines, and that the uncompiled fallback
  // decides the same.
  lemma RuleMeaning(p: string, url: string)
    ensures RuleMatchesURL(p, CompileRulePattern(p), url)
      <==> p != "" && if '*' in p || '?' in p then LineMatch(p, url) else Contains(url, p)
    ensures '\n' !in url ==>
              (RuleMatchesURL(p, CompileRulePattern(p), url)
               <==> p != "" && if '*' in p || '?' in p then WildMatch(p, url) else Contains(url, p))
    ensures RuleMatchesURL(p, None, url) == RuleMatchesURL(p, CompileRulePattern(p), url) == GlobMatch(p, url)
    ensures p != "" && HasWildcard(p) ==> CompileRulePattern(p).Some?
  {
    EmittedTextParses(p);
    LanguageIsLineMatch(p, url);
    if '\n' !in url {
      NewlineFreeAgree(p, url);
    }
  }

  // ---------------------------------------------------------------- substring patterns as globs

  lemma {:induction false} LiteralThenStar(p: string, u: string)
    requires !HasWildcard(p)
    ensures WildMatch(p + "*", u) <==> p <= u
  {
    if p == "" {
      assert "" + "*" == "*";
      LoneStar(u);
    } else {
      assert (p + "*")[1..] == p[1..] + "*";
      if u != "" {
        LiteralThenStar(p[1..], u[1..]);
        assert p == [p[0]] + p[1..] && u == [u[0]] + u[1..];
      }
    }
  }

  lemma {:induction false} StarThenRest(q: string, u: string)
    ensures WildMatch("*" + q, u) <==> exists i :: 0 <= i <= |u| && WildMatch(q, u[i..])
  {
    assert ("*" + q)[1..] == q;
    if WildMatch(q, u) {
      assert u[0..] == u;
    }
    if u != "" {
      StarThenRest(q, u[1..]);
      if exists i :: 0 <= i <= |u[1..]| && WildMatch(q, u[1..][i..]) {
        var i :| 0 <= i <= |u[1..]| && WildMatch(q, u[1..][i..]);
        assert u[i + 1..] == u[1..][i..];
      }
      if exists i :: 0 < i <= |u| && WildMatch(q, u[i..]) {
        var i :| 0 < i <= |u| && WildMatch(q, u[i..]);
        assert u[1..][i - 1..] == u[i..];
        assert 0 <= i - 1 <= |u[1..]| && WildMatch(q, u[1..][i - 1..]);
      }
    }
    if exists i :: 0 <= i <= |u| && WildMatch(q, u[i..]) {
      var i :| 0 <= i <= |u| && WildMatch(q, u[i..]);
      if i == 0 { assert u[0..] == u; }
    }
  }

  lemma ContainsIsWrappedWildMatch(p: string, url: string)
    requires !HasWildcard(p)
    ensures Contains(url, p) <==> WildMatch("*" + (p + "*"), url)
  {
    StarThenRest(p + "*", url);
    if Contains(url, p) {
      var i :| 0 <= i <= |url| && OccursAt(url, p, i);
      LiteralThenStar(p, url[i..]);
      assert p <= url[i..];
    }
    if i :| 0 <= i <= |url| && WildMatch(p + "*", url[i..]) {
      LiteralThenStar(p, url[i..]);
      assert url[i..i + |p|] == p;
      assert OccursAt(url, p, i);
    }
  }

  // A bare pattern matches a URL exactly when the pattern wrapped in stars does.
  lemma SubstringIsWrappedGlob(p: string, url: string)
    requires p != "" && !HasWildcard(p) && '\n' !in url
    ensures RuleMatchesURL(p, CompileRulePattern(p), url)
      <==> RuleMatchesURL("*" + p + "*", CompileRulePattern("*" + p + "*"), url)
  {
    var wrapped := "*" + (p + "*");
    assert "*" + p + "*" == wrapped;
    assert wrapped[0] == '*';
    RuleMeaning(p, url);
    RuleMeaning(wrapped, url);
    ContainsIsWrappedWildMatch(p, url);
  }
}
