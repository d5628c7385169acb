/**
 * What the answers of `ParsedRobots` mean for the document they were built
 * from: `allowed?` read off the rule lines themselves, `crawl_delay` off
 * the `Crawl-delay` lines, `clean_url` field by field, and the fallback
 * document used when no usable response arrives.
 */
module RobotsFacts {
  import opened Wrappers
  import opened RubyText
  import opened AssocList
  import opened Patterns
  import opened Parser
  import opened QueryClean
  import opened Robots

  // ---------------------------------------------------------------------
  // `allowed?` in terms of the document's lines.

  /** Line `k` is a `kind` rule, compiled to `rule`, read while the current agent was `agent`. */
  predicate FiledAt(lines: seq<string>, kind: RuleKind, k: int, agent: Pattern, rule: Pattern) {
    0 <= k < |lines| && RuleOf(lines[k], kind).Some? &&
    CurrentAgent(lines[..k]) == agent && ToRegex(RuleOf(lines[k], kind).value) == rule
  }

  lemma FiledAtPrefix(lines: seq<string>, n: nat, kind: RuleKind, k: int, agent: Pattern, rule: Pattern)
    requires 0 <= k < n <= |lines|
    ensures FiledAt(lines[..n], kind, k, agent, rule) <==> FiledAt(lines, kind, k, agent, rule)
  {
    assert lines[..n][k] == lines[k] && lines[..n][..k] == lines[..k];
  }

  /** The last line, if a rule, is listed under the agent in force before it. */
  lemma LastFiledIsListed(lines: seq<string>, kind: RuleKind, agent: Pattern, rule: Pattern)
    requires FiledAt(lines, kind, |lines| - 1, agent, rule)
    ensures rule in RulesUnder(lines, kind, agent)
  {
    var init := lines[..|lines| - 1];
    assert RulesUnder(lines, kind, agent) == RulesUnder(init, kind, agent) + [rule];
  }

  /** A rule line is listed, compiled, under the agent it was read under. */
  lemma {:induction false} FiledIsListed(lines: seq<string>, kind: RuleKind, k: int, agent: Pattern, rule: Pattern)
    requires FiledAt(lines, kind, k, agent, rule)
    ensures rule in RulesUnder(lines, kind, agent)
    decreases |lines|, 1
  {
    if k < |lines| - 1 {
      EarlierFiledIsListed(lines, kind, k, agent, rule);
    } else {
      LastFiledIsListed(lines, kind, agent, rule);
    }
  }

  lemma {:induction false} EarlierFiledIsListed(lines: seq<string>, kind: RuleKind, k: int, agent: Pattern, rule: Pattern)
    requires FiledAt(lines, kind, k, agent, rule) && k < |lines| - 1
    ensures rule in RulesUnder(lines, kind, agent)
    decreases |lines|, 0
  {
    var init := lines[..|lines| - 1];
    assert init[k] == lines[k] && init[..k] == lines[..k];
    FiledIsListed(init, kind, k, agent, rule);
    ListedStaysListed(lines, kind, agent, rule);
  }

  /** A rule listed before the last line is still listed after it. */
  lemma ListedStaysListed(lines: seq<string>, kind: RuleKind, agent: Pattern, rule: Pattern)
    requires lines != [] && rule in RulesUnder(lines[..|lines| - 1], kind, agent)
    ensures rule in RulesUnder(lines, kind, agent)
  {
    var init := lines[..|lines| - 1];
    var tail := match RuleOf(lines[|lines| - 1], kind)
      case Some(v) => if CurrentAgent(init) == agent then [ToRegex(v)] else []
      case None => [];
    assert RulesUnder(lines, kind, agent) == RulesUnder(init, kind, agent) + tail;
  }

  /** Every rule listed under an agent comes from a rule line read under it. */
  lemma {:induction false} ListedIsFiled(lines: seq<string>, kind: RuleKind, agent: Pattern, rule: Pattern)
    requires rule in RulesUnder(lines, kind, agent)
    ensures exists k :: FiledAt(lines, kind, k, agent, rule)
  {
    var n := |lines| - 1;
    var init := lines[..n];
    if rule in RulesUnder(init, kind, agent) {
      ListedIsFiled(init, kind, agent, rule);
      var k :| FiledAt(init, kind, k, agent, rule);
      FiledAtPrefix(lines, n, kind, k, agent, rule);
    } else {
      assert lines[..n] == init;
      assert FiledAt(lines, kind, n, agent, rule);
    }
  }

  /** Line `k` is a `kind` rule read under an agent pattern that matches `agent` and it matches `path`. */
  predicate RuleLineHits(lines: seq<string>, kind: RuleKind, k: int, agent: string, path: string) {
    0 <= k < |lines| && RuleOf(lines[k], kind).Some? &&
    Matches(CurrentAgent(lines[..k]), agent) && Matches(ToRegex(RuleOf(lines[k], kind).value), path)
  }

  predicate DocumentHit(lines: seq<string>, kind: RuleKind, agent: string, path: string) {
    exists k | 0 <= k < |lines| :: RuleLineHits(lines, kind, k, agent, path)
  }

  /** A hit in a table built from `lines` comes from a rule line under a matching agent. */
  lemma HitToRuleLine(t: seq<(Pattern, seq<Pattern>)>, lines: seq<string>, kind: RuleKind, agent: string, path: string)
    requires DistinctKeys(t)
    requires forall a :: Entries(t, a) == RulesUnder(lines, kind, a)
    requires Hit(t, agent, path)
    ensures DocumentHit(lines, kind, agent, path)
  {
    var i :| 0 <= i < |t| && Matches(t[i].0, agent) && AnyMatch(t[i].1, path);
    var j :| 0 <= j < |t[i].1| && Matches(t[i].1[j], path);
    var a, rule := t[i].0, t[i].1[j];
    LookupAt(t, i);
    assert rule in Entries(t, a);
    ListedIsFiled(lines, kind, a, rule);
    var k :| FiledAt(lines, kind, k, a, rule);
    assert RuleLineHits(lines, kind, k, agent, path);
  }

  /** A rule line under a matching agent that matches the path is a hit in the table built from `lines`. */
  lemma RuleLineToHit(t: seq<(Pattern, seq<Pattern>)>, lines: seq<string>, kind: RuleKind, agent: string, path: string, k: int)
    requires DistinctKeys(t)
    requires forall a :: Entries(t, a) == RulesUnder(lines, kind, a)
    requires RuleLineHits(lines, kind, k, agent, path)
    ensures Hit(t, agent, path)
  {
    var a := CurrentAgent(lines[..k]);
    var rule := ToRegex(RuleOf(lines[k], kind).value);
    assert FiledAt(lines, kind, k, a, rule);
    FiledIsListed(lines, kind, k, a, rule);
    assert rule in Entries(t, a);
    EntriesMember(t, a, rule);
    var i :| 0 <= i < |t| && t[i].0 == a && rule in t[i].1;
    var j :| 0 <= j < |t[i].1| && t[i].1[j] == rule;
    assert AnyMatch(t[i].1, path);
  }

  /** A rule table hits a path exactly when some rule line under a matching agent matches it. */
  lemma HitIffRuleLine(lines: seq<string>, kind: RuleKind, agent: string, path: string)
    requires Run(lines).Success?
    ensures Hit(RuleTable(Run(lines).value.tables, kind), agent, path) <==> DocumentHit(lines, kind, agent, path)
  {
    var t := RuleTable(Run(lines).value.tables, kind);
    RuleTableBuilt(lines, kind);
    if Hit(t, agent, path) {
      HitToRuleLine(t, lines, kind, agent, path);
    }
    if DocumentHit(lines, kind, agent, path) {
      var k :| 0 <= k < |lines| && RuleLineHits(lines, kind, k, agent, path);
      RuleLineToHit(t, lines, kind, agent, path, k);
    }
  }

  /**
   * `allowed?` on a parsed document: a path is refused exactly when some
   * `Disallow` line under a matching agent matches it and no `Allow` line
   * under a matching agent does, whatever the order and length of the
   * rules; rules under other agents play no part.
   */
  lemma AllowedByDocument(lines: seq<string>, agent: string, path: string)
    requires Parse(lines).Success?
    ensures AllowedBy(Parse(lines).value, agent, path) <==>
      !DocumentHit(lines, DisallowRule, agent, path) || DocumentHit(lines, AllowRule, agent, path)
  {
    HitIffRuleLine(lines, DisallowRule, agent, path);
    HitIffRuleLine(lines, AllowRule, agent, path);
  }

  // ---------------------------------------------------------------------
  // `crawl_delay` in terms of the document's lines.

  /** `crawl_delay` is 0 when no agent pattern matching `agent` was given a delay. */
  lemma NoDelayLine(lines: seq<string>, agent: string)
    requires Parse(lines).Success?
    requires forall a :: Matches(a, agent) ==> LastDelay(lines, a).None?
    ensures DelayFor(Parse(lines).value.delays, agent) == 0.0
  {
    var t := Parse(lines).value.delays;
    DelayTableBuilt(lines);
    forall k | 0 <= k < |t| ensures !Matches(t[k].0, agent) {
      LookupAt(t, k);
    }
  }

  /**
   * Otherwise `crawl_delay` is the last delay given under the last agent,
   * in the order of the agents' first `Crawl-delay` lines, that matches
   * `agent`: an agent that gave a delay early keeps its early place even
   * when it gives another delay after other agents did.
   */
  lemma DelayLine(lines: seq<string>, agent: string, i: int)
    requires Parse(lines).Success?
    requires 0 <= i < |DelayAgents(lines)| && Matches(DelayAgents(lines)[i], agent)
    requires forall m :: i < m < |DelayAgents(lines)| ==> !Matches(DelayAgents(lines)[m], agent)
    ensures LastDelay(lines, DelayAgents(lines)[i]) == Some(DelayFor(Parse(lines).value.delays, agent))
  {
    var t := Parse(lines).value.delays;
    DelayTableBuilt(lines);
    assert Keys(t)[i] == t[i].0;
    DelayInTable(t, lines, agent, i);
  }

  lemma DelayInTable(t: seq<(Pattern, real)>, lines: seq<string>, agent: string, i: int)
    requires DistinctKeys(t)
    requires forall b :: Lookup(t, b) == LastDelay(lines, b)
    requires 0 <= i < |t| && Matches(t[i].0, agent)
    requires forall m :: i < m < |t| ==> !Matches(t[m].0, agent)
    ensures LastDelay(lines, t[i].0) == Some(DelayFor(t, agent))
  {
    var k :| 0 <= k < |t| && Matches(t[k].0, agent) && DelayFor(t, agent) == t[k].1 &&
      forall m :: k < m < |t| ==> !Matches(t[m].0, agent);
    assert k == i;
    LookupAt(t, i);
  }

  /**
   * The table order at work: agents `a` then `b` give delays 1 and 2, then
   * `a` gives 3. When both match, the answer is `b`'s 2, not the last line's 3.
   */
  lemma RepeatedAgentKeepsFirstPlace(a: Pattern, b: Pattern, agent: string)
    requires a != b && Matches(a, agent) && Matches(b, agent)
    ensures DelayFor(Put(Put(Put([], a, 1.0), b, 2.0), a, 3.0), agent) == 2.0
  {
    var t1 := Put([], a, 1.0);
    assert t1 == [(a, 1.0)];
    var t2 := Put(t1, b, 2.0);
    assert Keys(t1) == [a];
    assert t2 == [(a, 1.0), (b, 2.0)];
    assert Keys(t2) == [a, b];
    assert IndexOf(t2, a) == 0;
    assert Put(t2, a, 3.0) == [(a, 3.0), (b, 2.0)];
  }

  // ---------------------------------------------------------------------
  // The fallback document.

  /** The tables of `User-agent: *` / `Allow: /`. */
  const FallbackTables := Tables([(Glob("*"), [Glob("/")])], [], [], [], [])

  lemma TwoLines(a: string, b: string)
    requires '\n' !in a && '\n' !in b
    ensures Lines((a + ['\n']) + (b + ['\n'])) == [a + ['\n'], b + ['\n']]
  {
    LinesCons(a, b + ['\n']);
    OneLine(b);
    assert [a + ['\n']] + [b + ['\n']] == [a + ['\n'], b + ['\n']];
  }

  lemma OneLine(b: string)
    requires '\n' !in b
    ensures Lines(b + ['\n']) == [b + ['\n']]
  {
    LinesCons(b, []);
    assert b + ['\n'] + [] == b + ['\n'];
  }

  lemma FallbackLines()
    ensures Lines(FallbackBody) == ["User-agent: *\n", "Allow: /\n"]
  {
    FallbackText();
    TwoLines("User-agent: *", "Allow: /");
  }

  /** The fallback document is two newline-free texts, each followed by a newline. */
  lemma FallbackText()
    ensures FallbackBody == ("User-agent: *" + ['\n']) + ("Allow: /" + ['\n'])
    ensures '\n' !in "User-agent: *" && '\n' !in "Allow: /"
    ensures "User-agent: *" + ['\n'] == "User-agent: *\n" && "Allow: /" + ['\n'] == "Allow: /\n"
  {
  }

  /** The value of `key: c` followed by a newline is `c`. */
  lemma SpacedValue(c: char)
    requires !IsStripSpace(c) && c != ':'
    ensures TrimEnd([' ', c, '\n'], ':') == [' ', c, '\n']
    ensures Strip([' ', c, '\n']) == [c]
  {
    var v := [' ', c, '\n'];
    assert v[1..] == [c, '\n'] && [c, '\n'][..1] == [c];
    assert LStrip(v) == [c, '\n'];
    assert RStrip([c, '\n']) == [c];
  }

  /**
   * A line of colons raises only when it is the unterminated last line:
   * with its newline, `split(":")` keeps the field after the last colon, so
   * the key is empty and the other colons become the value of an
   * unrecognised key.
   */
  lemma ColonsLine()
    ensures ReadLine(":::") == Broken
    ensures ReadLine(":::\n") == Say(Other("", "::"))
  {
    assert ":::" == [] + [':'] + [':', ':'];
    assert ":::\n" == [] + [':'] + [':', ':', '\n'];
    assert Downcase([]) == [];
    var bare, ended := ":::", ":::\n";
    BlankOrCommentIff(bare);
    BlankOrCommentIff(ended);
    assert SkipSpace(bare) == bare && SkipSpace(ended) == ended;
    TokenizeAtFirstColon([], [':', ':']);
    TokenizeAtFirstColon([], [':', ':', '\n']);
    ColonsValue();
  }

  lemma ColonsValue()
    ensures TrimEnd([':', ':'], ':') == []
    ensures TrimEnd([':', ':', '\n'], ':') == [':', ':', '\n']
    ensures Strip([':', ':', '\n']) == "::"
  {
    assert [':', ':'][..1] == [':'] && [':'][..0] == [];
    var v := [':', ':', '\n'];
    assert LStrip(v) == v;
    assert v[..2] == [':', ':'];
  }

  /**
   * A line without a colon is all key. Ended by a newline, the newline stays
   * in the key, which is then unrecognised; as an unterminated last line,
   * a directive name acts as that directive with an empty value, and an
   * empty `Clean-param` raises.
   */
  lemma ColonFreeLines()
    ensures ReadLine("Disallow\n") == Say(Other("disallow\n", ""))
    ensures ReadLine("Disallow") == Say(Disallow(""))
    ensures ReadLine("Clean-param") == Say(CleanParam("")) && Aborts("Clean-param")
  {
    NewlineKeyLine();
    BareDisallowLine();
    BareCleanParamLine();
  }

  lemma NewlineKeyLine()
    ensures ReadLine("Disallow\n") == Say(Other("disallow\n", ""))
  {
    assert Downcase("Disallow\n") == "disallow\n" && Downcase("Disallow") == "disallow";
    assert ':' !in "Disallow\n" && "Disallow\n"[0] == 'D' && "Disallow\n"[..8] == "Disallow";
    assert forall k :: 0 <= k < 8 ==> "Disallow\n"[k] != '\n';
    ColonFreeLine("Disallow\n", "disallow\n");
  }

  lemma BareDisallowLine()
    ensures ReadLine("Disallow") == Say(Disallow(""))
  {
    assert Downcase("Disallow\n") == "disallow\n" && Downcase("Disallow") == "disallow";
    assert ':' !in "Disallow\n" && "Disallow\n"[0] == 'D' && "Disallow\n"[..8] == "Disallow";
    assert forall k :: 0 <= k < 8 ==> "Disallow\n"[k] != '\n';
    ColonFreeLine("Disallow", "disallow");
  }

  lemma BareCleanParamLine()
    ensures ReadLine("Clean-param") == Say(CleanParam("")) && Aborts("Clean-param")
  {
    assert Downcase("Clean-param") == "clean-param";
    assert ':' !in "Clean-param" && "Clean-param"[0] == 'C';
    assert forall k :: 0 <= k < 11 ==> "Clean-param"[k] != '\n';
    ColonFreeLine("Clean-param", "clean-param");
    assert Words("") == [];
  }

  lemma ColonFreeLine(line: string, key: string)
    requires line != [] && line[0] != '#' && !IsSpace(line[0]) && ':' !in line
    requires forall k :: 0 <= k < |line| - 1 ==> line[k] != '\n'
    requires Downcase(line) == key
    ensures ReadLine(line) == Say(Classify(key, []))
  {
    BlankOrCommentIff(line);
    assert SkipSpace(line) == line;
    TokenizeNoColon(line);
  }

  lemma ReadUserAgentStarTokens()
    ensures Tokenize("User-agent: *\n") == Some(("user-agent", "*"))
  {
    assert "User-agent: *\n" == "User-agent" + [':'] + [' ', '*', '\n'];
    assert ':' !in "User-agent" && Downcase("User-agent") == "user-agent";
    TokenizeAtFirstColon("User-agent", [' ', '*', '\n']);
    SpacedValue('*');
  }

  lemma ReadUserAgentStar()
    ensures ReadLine("User-agent: *\n") == Say(UserAgent("*"))
  {
    var line := "User-agent: *\n";
    BlankOrCommentIff(line);
    assert SkipSpace(line) == line;
    ReadUserAgentStarTokens();
  }

  lemma ReadAllowSlashTokens()
    ensures Tokenize("Allow: /\n") == Some(("allow", "/"))
  {
    assert "Allow: /\n" == "Allow" + [':'] + [' ', '/', '\n'];
    assert ':' !in "Allow" && Downcase("Allow") == "allow";
    TokenizeAtFirstColon("Allow", [' ', '/', '\n']);
    SpacedValue('/');
  }

  lemma ReadAllowSlash()
    ensures ReadLine("Allow: /\n") == Say(Allow("/"))
  {
    var line := "Allow: /\n";
    BlankOrCommentIff(line);
    assert SkipSpace(line) == line;
    ReadAllowSlashTokens();
  }

  /** After the first line of the fallback document the agent is `*` and the tables are empty. */
  lemma FallbackFirstLine()
    ensures Run(["User-agent: *\n"]) == Success(ParseState(Glob("*"), NoTables))
  {
    var lines: seq<string> := ["User-agent: *\n"];
    ReadUserAgentStar();
    assert ToRegex("*") == Glob("*");
    assert lines[..0] == [];
  }

  /** The second line of the fallback document files `/` as an allow rule under `*`. */
  lemma FallbackSecondLine()
    ensures Step(ParseState(Glob("*"), NoTables), "Allow: /\n") == Success(ParseState(Glob("*"), FallbackTables))
  {
    ReadAllowSlash();
    assert ToRegex("/") == Glob("/");
    AppendEmpty(Glob("*"), Glob("/"));
  }

  lemma FallbackParses()
    ensures Parse(Lines(FallbackBody)) == Success(FallbackTables)
  {
    var lines: seq<string> := ["User-agent: *\n", "Allow: /\n"];
    FallbackLines();
    FallbackFirstLine();
    FallbackSecondLine();
    assert lines[..1] == ["User-agent: *\n"];
    assert Run(lines) == Step(ParseState(Glob("*"), NoTables), "Allow: /\n");
  }

  /**
   * The fallback tables let every agent fetch every path, give no crawl
   * delay, and leave every URL as it is except that an empty query is
   * dropped.
   */
  lemma FallbackAnswers(agent: string, u: Url)
    ensures Hit(FallbackTables.allows, agent, RequestUri(u)) && AllowedBy(FallbackTables, agent, RequestUri(u))
    ensures DelayFor(FallbackTables.delays, agent) == 0.0
    ensures CleanUrlSpec(FallbackTables, u, agent) == u.(query := if u.query == Some([]) then None else u.query)
  {
    var path := RequestUri(u);
    var t := FallbackTables.allows;
    StarMatchesAll(agent);
    assert t[0].0 == ToRegex("*") by {
      ToRegexGlob("*", 0);
    }
    assert GlobPrefix("/", path[0..]);
    assert Matches(t[0].1[0], path);
    assert AnyMatch(t[0].1, path);
    assert FallbackTables.cleanParams == [];
  }

  /**
   * Without a usable response (none, not `text/plain`, or a status other
   * than `200 OK`) the parser reads the fallback document, whose answers
   * `FallbackAnswers` gives.
   */
  lemma NoUsableResponse(io: Option<Response>)
    requires io.None? || io.value.contentType != "text/plain" || StatusWords(io.value.status) != ["200", "OK"]
    ensures Parse(Lines(ChooseBody(io))) == Success(FallbackTables)
  {
    assert ChooseBody(io) == FallbackBody;
    FallbackParses();
  }

  // ---------------------------------------------------------------------
  // `clean_url`, field by field.

  /** A clean-param rule under an agent matching `agent`, whose path pattern matches `path`, lists `param`. */
  predicate Applies(table: seq<(Pattern, seq<CleanRule>)>, agent: string, path: string, param: string) {
    exists i, j :: 0 <= i < |table| && 0 <= j < |table[i].1| &&
      Matches(table[i].0, agent) && Matches(table[i].1[j].path, path) && param in table[i].1[j].params
  }

  lemma {:induction false} RuleParamsMember(rules: seq<CleanRule>, path: string, param: string)
    ensures param in RuleParams(rules, path) <==>
      exists j :: 0 <= j < |rules| && Matches(rules[j].path, path) && param in rules[j].params
  {
    if rules != [] {
      var n := |rules| - 1;
      RuleParamsMember(rules[..n], path, param);
      assert forall j :: 0 <= j < n ==> rules[..n][j] == rules[j];
    }
  }

  /** The names `clean_url` removes are those listed by an applicable rule. */
  lemma {:induction false} ApplicableParamsMember(table: seq<(Pattern, seq<CleanRule>)>, agent: string, path: string, param: string)
    ensures param in ApplicableParams(table, agent, path) <==> Applies(table, agent, path, param)
  {
    if table != [] {
      var n := |table| - 1;
      var init := table[..n];
      ApplicableParamsMember(init, agent, path, param);
      RuleParamsMember(table[n].1, path, param);
      assert forall i :: 0 <= i < n ==> init[i] == table[i];
      if Applies(table, agent, path, param) && !Applies(init, agent, path, param) {
        var i, j :| 0 <= i < |table| && 0 <= j < |table[i].1| &&
          Matches(table[i].0, agent) && Matches(table[i].1[j].path, path) && param in table[i].1[j].params;
        assert i == n;
      }
    }
  }

  /** The fields of a query; an absent query has none. */
  function QueryFields(query: Option<string>): seq<string> {
    match query
    case None => []
    case Some(q) => Split(q, '&')
  }

  /**
   * On a well-formed query `clean_url` keeps, in their order, exactly the
   * fields that no applicable name rejects: a field goes when it is a
   * listed name or starts with a listed name and `=`. Every occurrence of a
   * field that stays is kept.
   */
  lemma CleanUrlFields(t: Tables, u: Url, agent: string, field: string)
    requires u.query.Some? && WellFormedQuery(u.query.value)
    ensures QueryFields(CleanUrlSpec(t, u, agent).query) ==
      Keep(Split(u.query.value, '&'), ApplicableParams(t.cleanParams, agent, u.path))
    ensures field in QueryFields(CleanUrlSpec(t, u, agent).query) <==>
      field in Split(u.query.value, '&') &&
      forall p :: Applies(t.cleanParams, agent, u.path, p) ==> !Rejects(p, field)
    ensures IsSubsequence(QueryFields(CleanUrlSpec(t, u, agent).query), Split(u.query.value, '&'))
    ensures (forall p :: Applies(t.cleanParams, agent, u.path, p) ==> !Rejects(p, field)) ==>
      multiset(QueryFields(CleanUrlSpec(t, u, agent).query))[field] == multiset(Split(u.query.value, '&'))[field]
  {
    var q := u.query.value;
    var ps := ApplicableParams(t.cleanParams, agent, u.path);
    var kept := Keep(Split(q, '&'), ps);
    RemoveAllKeeps(q, ps);
    GoodFieldsJoin(kept);
    assert Split([], '&') == [];
    KeepMember(Split(q, '&'), ps, field);
    KeepSubsequence(Split(q, '&'), ps, field);
    forall p ensures p in ps <==> Applies(t.cleanParams, agent, u.path, p) {
      ApplicableParamsMember(t.cleanParams, agent, u.path, p);
    }
  }

  /**
   * On any query, empty `&` fields included, `clean_url` keeps exactly the
   * non-empty fields that no applicable name rejects, in their order, and
   * every occurrence of each.
   */
  lemma CleanUrlNonEmptyFields(t: Tables, u: Url, agent: string, field: string)
    requires u.query.Some?
    ensures NonEmpty(QueryFields(CleanUrlSpec(t, u, agent).query)) ==
      Keep(NonEmpty(Split(u.query.value, '&')), ApplicableParams(t.cleanParams, agent, u.path))
    ensures field != [] ==>
      (field in QueryFields(CleanUrlSpec(t, u, agent).query) <==>
       field in Split(u.query.value, '&') &&
       forall p :: Applies(t.cleanParams, agent, u.path, p) ==> !Rejects(p, field))
    ensures IsSubsequence(NonEmpty(QueryFields(CleanUrlSpec(t, u, agent).query)), NonEmpty(Split(u.query.value, '&')))
    ensures field != [] && (forall p :: Applies(t.cleanParams, agent, u.path, p) ==> !Rejects(p, field)) ==>
      multiset(QueryFields(CleanUrlSpec(t, u, agent).query))[field] == multiset(Split(u.query.value, '&'))[field]
  {
    var q := u.query.value;
    var ps := ApplicableParams(t.cleanParams, agent, u.path);
    var fields := Split(q, '&');
    var out := QueryFields(CleanUrlSpec(t, u, agent).query);
    assert Split([], '&') == [];
    assert out == Split(RemoveAll(q, ps), '&');
    RemoveAllNonEmpty(q, ps);
    KeepMember(NonEmpty(fields), ps, field);
    KeepSubsequence(NonEmpty(fields), ps, field);
    forall p ensures p in ps <==> Applies(t.cleanParams, agent, u.path, p) {
      ApplicableParamsMember(t.cleanParams, agent, u.path, p);
    }
    if field != [] {
      NonEmptyKeepsOccurrences(fields, field);
      NonEmptyKeepsOccurrences(out, field);
    }
  }

  /** Cleaning a URL whose query is well formed a second time changes nothing. */
  lemma CleanUrlIdempotent(t: Tables, u: Url, agent: string)
    requires u.query.Some? ==> WellFormedQuery(u.query.value)
    ensures CleanUrlSpec(t, CleanUrlSpec(t, u, agent), agent) == CleanUrlSpec(t, u, agent)
  {
    if u.query.Some? {
      RemoveAllIdempotent(u.query.value, ApplicableParams(t.cleanParams, agent, u.path));
    }
  }
}
