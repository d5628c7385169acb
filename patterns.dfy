/**
 * `to_regex` and the regular expressions it builds, with Ruby's matching
 * semantics written out. A non-blank wildcard pattern `g` compiles to
 * `^` followed by `g` with every character taken literally except `*`,
 * which becomes `.*`. In Ruby `^` matches at the start of the subject and
 * after every newline that is not the subject's last character, and `.`
 * does not match a newline.
 */
module Patterns {
  import opened RubyText

  /** The text of the unanchored regular expression `to_regex` returns for a blank pattern. */
  const SentinelText: string := "should-not-match-anything-123456789"

  /**
   * A compiled pattern. Ruby hashes key on a regular expression's source
   * text, and the source texts of these three kinds never coincide, so
   * equality of `Pattern` values is equality of hash keys.
   */
  datatype Pattern =
    | CatchAll            // the parser's initial agent, `/.*/`
    | Sentinel            // what a blank pattern compiles to
    | Glob(source: string) // `^` + the escaped source, each `*` turned into `.*`

  /** `to_regex`. */
  function ToRegex(pattern: string): Pattern {
    if Strip(pattern) == [] then Sentinel else Glob(pattern)
  }

  /** A position where Ruby's `^` matches. */
  predicate IsLineStart(s: string, i: int) {
    i == 0 || (0 < i < |s| && s[i - 1] == '\n')
  }

  /**
   * The escaped glob matches at the start of `s`: every `*` matches a run
   * of non-newline characters (`.*`), every other character itself.
   */
  predicate GlobPrefix(g: string, s: string)
    decreases |g|, |s|
  {
    if g == [] then true
    else if g[0] == '*' then
      GlobPrefix(g[1..], s) || (s != [] && s[0] != '\n' && GlobPrefix(g, s[1..]))
    else s != [] && s[0] == g[0] && GlobPrefix(g[1..], s[1..])
  }

  predicate OccursAt(s: string, t: string, i: nat) {
    i + |t| <= |s| && s[i..i + |t|] == t
  }

  predicate ContainsText(s: string, t: string) {
    exists i: nat | i <= |s| :: OccursAt(s, t, i)
  }

  /** `subject =~ pattern` is truthy. */
  predicate Matches(p: Pattern, subject: string) {
    match p
    case CatchAll => true
    case Sentinel => ContainsText(subject, SentinelText)
    case Glob(g) => exists i | 0 <= i <= |subject| :: IsLineStart(subject, i) && GlobPrefix(g, subject[i..])
  }

  predicate NoNewline(s: string) {
    forall k :: 0 <= k < |s| ==> s[k] != '\n'
  }

  // ---------------------------------------------------------------------
  // An independent reading of a wildcard pattern: the strings obtained by
  // substituting a string for each `*`.

  function StarCount(g: string): nat {
    if g == [] then 0 else (if g[0] == '*' then 1 else 0) + StarCount(g[1..])
  }

  /** `g` with its `*`s replaced, in order, by the strings of `fill`. */
  function Expand(g: string, fill: seq<string>): string
    requires |fill| == StarCount(g)
  {
    if g == [] then []
    else if g[0] == '*' then fill[0] + Expand(g[1..], fill[1..])
    else [g[0]] + Expand(g[1..], fill)
  }

  lemma PrefixCons(c: char, p: string, s: string)
    requires s != [] && s[0] == c
    ensures IsPrefix([c] + p, s) <==> IsPrefix(p, s[1..])
  {
    if IsPrefix(p, s[1..]) {
      assert s[..|p| + 1] == [c] + s[1..][..|p|];
    }
    if IsPrefix([c] + p, s) {
      assert s[1..][..|p|] == s[..|p| + 1][1..];
    }
  }

  lemma ExpandStar(g: string, fill: seq<string>)
    requires g != [] && g[0] == '*' && |fill| == StarCount(g)
    ensures Expand(g, fill) == fill[0] + Expand(g[1..], fill[1..])
  {
  }

  /** A substitution for the `*`s of `g` that spells a prefix of `s`, when the glob matches there. */
  ghost function Fill(g: string, s: string): (fill: seq<string>)
    requires GlobPrefix(g, s)
    ensures |fill| == StarCount(g) && IsPrefix(Expand(g, fill), s)
    decreases |g|, |s|
  {
    if g == [] then []
    else if g[0] == '*' then
      if GlobPrefix(g[1..], s) then
        var f := Fill(g[1..], s);
        var fill := [[]] + f;
        assert fill[1..] == f;
        ExpandStar(g, fill);
        fill
      else
        var f := Fill(g, s[1..]);
        var fill := [[s[0]] + f[0]] + f[1..];
        assert fill[1..] == f[1..];
        ExpandStar(g, fill);
        ExpandStar(g, f);
        assert Expand(g, fill) == [s[0]] + Expand(g, f);
        PrefixCons(s[0], Expand(g, f), s);
        fill
    else
      var f := Fill(g[1..], s[1..]);
      assert Expand(g, f) == [g[0]] + Expand(g[1..], f);
      PrefixCons(g[0], Expand(g[1..], f), s);
      f
  }

  lemma {:induction false} GlobPrefixComplete(g: string, s: string, fill: seq<string>)
    requires NoNewline(s)
    requires |fill| == StarCount(g) && IsPrefix(Expand(g, fill), s)
    ensures GlobPrefix(g, s)
    decreases |g|, |s|
  {
    if g == [] {
    } else if g[0] == '*' {
      if fill[0] == [] {
        assert Expand(g, fill) == Expand(g[1..], fill[1..]);
        GlobPrefixComplete(g[1..], s, fill[1..]);
      } else {
        var f := [fill[0][1..]] + fill[1..];
        assert Expand(g, fill) == [fill[0][0]] + Expand(g, f) by {
          assert f[1..] == fill[1..];
          assert fill[0] == [fill[0][0]] + fill[0][1..];
        }
        PrefixCons(fill[0][0], Expand(g, f), s);
        assert s[0] != '\n';
        GlobPrefixComplete(g, s[1..], f);
      }
    } else {
      assert Expand(g, fill) == [g[0]] + Expand(g[1..], fill);
      PrefixCons(g[0], Expand(g[1..], fill), s);
      GlobPrefixComplete(g[1..], s[1..], fill);
    }
  }

  /**
   * On a newline-free subject the compiled form of a non-blank pattern
   * matches exactly when some prefix of the subject is the pattern with each
   * `*` replaced by some string (possibly empty); a blank pattern matches
   * only subjects that contain the sentinel text.
   */
  lemma ToRegexMeaning(pattern: string, s: string)
    requires NoNewline(s)
    ensures Strip(pattern) == [] ==> (Matches(ToRegex(pattern), s) <==> ContainsText(s, SentinelText))
    ensures Strip(pattern) != [] ==>
      (Matches(ToRegex(pattern), s) <==>
       exists fill :: |fill| == StarCount(pattern) && IsPrefix(Expand(pattern, fill), s))
  {
    if Strip(pattern) != [] {
      if Matches(ToRegex(pattern), s) {
        var i :| 0 <= i <= |s| && IsLineStart(s, i) && GlobPrefix(pattern, s[i..]);
        assert i == 0;
        assert s[0..] == s;
        var fill := Fill(pattern, s);
      }
      if exists fill :: |fill| == StarCount(pattern) && IsPrefix(Expand(pattern, fill), s) {
        var fill :| |fill| == StarCount(pattern) && IsPrefix(Expand(pattern, fill), s);
        GlobPrefixComplete(pattern, s, fill);
        assert s[0..] == s;
      }
    }
  }

  lemma {:induction false} GlobPrefixExtend(g: string, s: string, t: string)
    requires GlobPrefix(g, s)
    ensures GlobPrefix(g, s + t)
    decreases |g|, |s|
  {
    if g == [] {
    } else if g[0] == '*' {
      if GlobPrefix(g[1..], s) {
        GlobPrefixExtend(g[1..], s, t);
      } else {
        GlobPrefixExtend(g, s[1..], t);
        assert (s + t)[1..] == s[1..] + t;
      }
    } else {
      GlobPrefixExtend(g[1..], s[1..], t);
      assert (s + t)[1..] == s[1..] + t;
    }
  }

  /** A compiled pattern that matches `s` matches every extension of `s`. */
  lemma MatchesExtend(p: Pattern, s: string, t: string)
    requires Matches(p, s)
    ensures Matches(p, s + t)
  {
    match p
    case CatchAll =>
    case Sentinel =>
      var i: nat :| i <= |s| && OccursAt(s, SentinelText, i);
      assert (s + t)[i..i + |SentinelText|] == SentinelText;
      assert OccursAt(s + t, SentinelText, i);
    case Glob(g) =>
      var i :| 0 <= i <= |s| && IsLineStart(s, i) && GlobPrefix(g, s[i..]);
      GlobPrefixExtend(g, s[i..], t);
      assert (s + t)[i..] == s[i..] + t;
      assert IsLineStart(s + t, i);
  }

  /** A pattern with a character other than whitespace compiles to an anchored glob. */
  lemma ToRegexGlob(pattern: string, k: nat)
    requires k < |pattern| && !IsStripSpace(pattern[k])
    ensures ToRegex(pattern) == Glob(pattern)
  {
    StripEmptyIff(pattern);
  }

  /**
   * The hash key `to_regex` gives: never the parser's initial catch-all, the
   * sentinel exactly for a pattern of strip-space only, and so two patterns
   * share a key exactly when they are equal or both blank.
   */
  lemma ToRegexKeys(p: string, q: string)
    ensures ToRegex(p) != CatchAll
    ensures ToRegex(p) == Sentinel <==> forall k :: 0 <= k < |p| ==> IsStripSpace(p[k])
    ensures ToRegex(p) == ToRegex(q) <==> p == q || (Strip(p) == [] && Strip(q) == [])
  {
    StripEmptyIff(p);
  }

  /**
   * `^` also matches right after a newline inside the subject, so a glob
   * that matches the text after such a newline matches the whole subject.
   */
  lemma MatchesAfterNewline(g: string, s: string, t: string)
    requires t != [] && GlobPrefix(g, t)
    ensures Matches(Glob(g), s + ['\n'] + t)
  {
    var subject := s + ['\n'] + t;
    var i := |s| + 1;
    assert subject[i - 1] == '\n' && IsLineStart(subject, i);
    assert subject[i..] == t;
  }

  /** A pattern that is `*` (the usual `User-agent: *`) matches every subject. */
  lemma StarMatchesAll(s: string)
    ensures Matches(ToRegex("*"), s)
  {
    ToRegexGlob("*", 0);
    assert GlobPrefix("*", s[0..]);
  }

  lemma {:induction false} Literal(g: string)
    requires '*' !in g
    ensures StarCount(g) == 0 && Expand(g, []) == g
  {
    if g != [] {
      assert g[0] != '*' && '*' !in g[1..];
      Literal(g[1..]);
    }
  }

  /** A pattern without `*` matches a newline-free subject exactly when it is a prefix of it. */
  lemma LiteralMatchesIffPrefix(g: string, s: string)
    requires '*' !in g && Strip(g) != []
    requires NoNewline(s)
    ensures Matches(ToRegex(g), s) <==> IsPrefix(g, s)
  {
    Literal(g);
    ToRegexMeaning(g, s);
    assert forall fill: seq<string> :: |fill| == StarCount(g) ==> fill == [];
  }

  lemma MobotMatchesVersion()
    ensures Matches(ToRegex("Mobot"), "Mobot/2.0")
  {
    MobotLiteral();
    LiteralMatchesIffPrefix("Mobot", "Mobot/2.0");
  }

  lemma MobotLiteral()
    ensures '*' !in "Mobot" && Strip("Mobot") != []
    ensures NoNewline("Mobot/2.0") && IsPrefix("Mobot", "Mobot/2.0")
  {
    var g, s := "Mobot", "Mobot/2.0";
    ToRegexGlob(g, 0);
    assert s[..|g|] == g;
  }

  lemma MobotMissesLowercase()
    ensures !Matches(ToRegex("Mobot"), "mobot")
  {
    var g, t := "Mobot", "mobot";
    ToRegexGlob(g, 0);
    LiteralMatchesIffPrefix(g, t);
    assert t[..|g|][0] != g[0];
  }

  /** Matching is case-sensitive: agent `Mobot` covers `Mobot/2.0` but not `mobot`. */
  lemma MatchingIsCaseSensitive()
    ensures Matches(ToRegex("Mobot"), "Mobot/2.0")
    ensures !Matches(ToRegex("Mobot"), "mobot")
  {
    MobotMatchesVersion();
    MobotMissesLowercase();
  }
}
