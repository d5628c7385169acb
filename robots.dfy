/**
 * `Robots::ParsedRobots`: the parsed tables of one host's robots.txt and
 * the queries answered from them (`allowed?`, `crawl_delay`, `clean_url`,
 * `other_values`), with the time of the last permitted access as the one
 * piece of state that changes after construction.
 */
module Robots {
  import opened Wrappers
  import opened RubyText
  import opened AssocList
  import opened Patterns
  import opened Parser
  import opened QueryClean

  // ---------------------------------------------------------------------
  // The document.

  /** What `initialize` looks at in the fetched response. */
  datatype Response = Response(contentType: string, status: seq<string>, body: string)

  /** The document read when there is no usable response. */
  const FallbackBody: string := "User-agent: *\nAllow: /\n"

  /** `io.status.map { |s| s.strip.upcase }`. */
  function StatusWords(status: seq<string>): (r: seq<string>)
    ensures |r| == |status| && forall k :: 0 <= k < |r| ==> r[k] == Upcase(Strip(status[k]))
  {
    seq(|status|, k requires 0 <= k < |status| => Upcase(Strip(status[k])))
  }

  /**
   * The text `initialize` parses: the body of a `text/plain` response whose
   * status reads `200 OK`, otherwise the fallback document.
   */
  function ChooseBody(io: Option<Response>): (body: string)
    ensures io.None? ==> body == FallbackBody
    ensures io.Some? && io.value.contentType != "text/plain" ==> body == FallbackBody
    ensures io.Some? && io.value.contentType == "text/plain" && StatusWords(io.value.status) == ["200", "OK"] ==>
      body == io.value.body
    ensures io.Some? && StatusWords(io.value.status) != ["200", "OK"] ==> body == FallbackBody
  {
    match io
    case None => FallbackBody
    case Some(r) =>
      if r.contentType != "text/plain" || StatusWords(r.status) != ["200", "OK"] then FallbackBody
      else r.body
  }

  // ---------------------------------------------------------------------
  // URLs.

  /**
   * The parts of a parsed URI that the queries use: `origin` stands for
   * everything before the path (scheme, user, host, port), which no
   * operation here reads or changes.
   */
  datatype Url = Url(origin: string, path: string, query: Option<string>, fragment: Option<string>)

  /** `URI::HTTP#request_uri`: the path and query, with a `/` put in front when missing. */
  function RequestUri(u: Url): (r: string)
    ensures r != [] && r[0] == '/'
    ensures u.path != [] && u.path[0] == '/' ==> IsPrefix(u.path, r)
  {
    var s := u.path + (if u.query.Some? then "?" + u.query.value else "");
    if s != [] && s[0] == '/' then
      assert s[..|u.path|] == u.path;
      s
    else "/" + s
  }

  // ---------------------------------------------------------------------
  // The answers, as functions of the tables.

  /** Some pattern of `rules` matches `subject`. */
  predicate AnyMatch(rules: seq<Pattern>, subject: string) {
    exists j | 0 <= j < |rules| :: Matches(rules[j], subject)
  }

  /** Some entry whose agent pattern matches `agent` has a rule that matches `path`. */
  predicate Hit(table: seq<(Pattern, seq<Pattern>)>, agent: string, path: string) {
    exists k | 0 <= k < |table| :: Matches(table[k].0, agent) && AnyMatch(table[k].1, path)
  }

  /** `allowed?`: a path is refused only when a disallow rule hits it and no allow rule does. */
  predicate AllowedBy(t: Tables, agent: string, path: string) {
    !Hit(t.disallows, agent, path) || Hit(t.allows, agent, path)
  }

  lemma AnyMatchSnoc(rules: seq<Pattern>, j: nat, subject: string)
    requires j < |rules|
    ensures AnyMatch(rules[..j + 1], subject) <==> AnyMatch(rules[..j], subject) || Matches(rules[j], subject)
  {
    assert rules[..j + 1][j] == rules[j];
    assert forall m :: 0 <= m < j ==> rules[..j + 1][m] == rules[..j][m];
  }

  lemma HitSnoc(table: seq<(Pattern, seq<Pattern>)>, k: nat, agent: string, path: string)
    requires k < |table|
    ensures Hit(table[..k + 1], agent, path) <==>
      Hit(table[..k], agent, path) || (Matches(table[k].0, agent) && AnyMatch(table[k].1, path))
  {
    assert table[..k + 1][k] == table[k];
    assert forall m :: 0 <= m < k ==> table[..k + 1][m] == table[..k][m];
  }

  /**
   * `crawl_delay`: the delay stored under the last agent pattern, in table
   * order, that matches `agent`, and 0 when none does.
   */
  function DelayFor(delays: seq<(Pattern, real)>, agent: string): (d: real)
    ensures (forall k :: 0 <= k < |delays| ==> !Matches(delays[k].0, agent)) ==> d == 0.0
    ensures (exists k :: 0 <= k < |delays| && Matches(delays[k].0, agent)) ==>
      exists k :: 0 <= k < |delays| && Matches(delays[k].0, agent) && d == delays[k].1 &&
        forall m :: k < m < |delays| ==> !Matches(delays[m].0, agent)
  {
    if delays == [] then 0.0
    else
      var n := |delays| - 1;
      var init := delays[..n];
      if Matches(delays[n].0, agent) then delays[n].1
      else
        assert forall m :: 0 <= m < n ==> init[m] == delays[m];
        DelayFor(init, agent)
  }

  /** The time to sleep before the request: what is left of the delay since the last access, never negative. */
  function Wait(delay: real, now: real, last: real): (w: real)
    ensures w >= 0.0
    ensures w > 0.0 ==> now + w == last + delay
    ensures w == 0.0 ==> now >= last + delay
  {
    var d := delay - (now - last);
    if d > 0.0 then d else 0.0
  }

  /** The parameter names of the rules whose path pattern matches `path`, in order. */
  function RuleParams(rules: seq<CleanRule>, path: string): seq<string> {
    if rules == [] then []
    else
      var n := |rules| - 1;
      RuleParams(rules[..n], path) + (if Matches(rules[n].path, path) then rules[n].params else [])
  }

  /** The names `clean_url` removes, in the order its loops visit them. */
  function ApplicableParams(table: seq<(Pattern, seq<CleanRule>)>, agent: string, path: string): seq<string> {
    if table == [] then []
    else
      var n := |table| - 1;
      ApplicableParams(table[..n], agent, path) +
        (if Matches(table[n].0, agent) then RuleParams(table[n].1, path) else [])
  }

  lemma RuleParamsSnoc(rules: seq<CleanRule>, j: nat, path: string)
    requires j < |rules|
    ensures RuleParams(rules[..j + 1], path) ==
      RuleParams(rules[..j], path) + (if Matches(rules[j].path, path) then rules[j].params else [])
  {
    assert rules[..j + 1][..j] == rules[..j];
  }

  lemma ApplicableParamsSnoc(table: seq<(Pattern, seq<CleanRule>)>, i: nat, agent: string, path: string)
    requires i < |table|
    ensures ApplicableParams(table[..i + 1], agent, path) ==
      ApplicableParams(table[..i], agent, path) + (if Matches(table[i].0, agent) then RuleParams(table[i].1, path) else [])
  {
    assert table[..i + 1][..i] == table[..i];
  }

  /**
   * `clean_url`: a URL without a query comes back as it is; otherwise every
   * applicable name is removed from the query, and a query left empty is
   * dropped. Nothing but the query changes.
   */
  function CleanUrlSpec(t: Tables, u: Url, agent: string): (r: Url)
    ensures r.origin == u.origin && r.path == u.path && r.fragment == u.fragment
    ensures u.query.None? ==> r == u
    ensures r.query != Some([])
  {
    match u.query
    case None => u
    case Some(q) =>
      var cleaned := RemoveAll(q, ApplicableParams(t.cleanParams, agent, u.path));
      u.(query := if cleaned == [] then None else Some(cleaned))
  }

  // ---------------------------------------------------------------------
  // The object.

  class ParsedRobots {
    /** `@last_accessed`, in seconds. */
    var lastAccessed: real
    /** `@options[:skip_delay]`. */
    const skipDelay: bool
    /** `@allows`, `@disallows`, `@delays`, `@clean_params` and `@other`. */
    const tables: Tables

    /** The end of `initialize` once the tables are built: the last access is `Time.at(1)`. */
    constructor(tables: Tables, skipDelay: bool)
      ensures this.tables == tables && this.skipDelay == skipDelay
      ensures lastAccessed == 1.0
    {
      this.tables := tables;
      this.skipDelay := skipDelay;
      lastAccessed := 1.0;
    }

    /** `crawl_delay`. */
    method CrawlDelay(userAgent: string) returns (delay: real)
      ensures delay == DelayFor(tables.delays, userAgent)
    {
      var delays := tables.delays;
      delay := 0.0;
      for i := 0 to |delays|
        invariant delay == DelayFor(delays[..i], userAgent)
      {
        assert delays[..i + 1][..i] == delays[..i];
        if Matches(delays[i].0, userAgent) {
          delay := delays[i].1;
        }
      }
      assert delays[..|delays|] == delays;
    }

    /**
     * `allowed?`. `now` is the clock read before sleeping, `later` the clock
     * read after; `pause` is how long the call sleeps.
     */
    method Allowed(url: Url, userAgent: string, now: real, later: real) returns (allowed: bool, pause: real)
      modifies this`lastAccessed
      ensures allowed == AllowedBy(tables, userAgent, RequestUri(url))
      ensures pause == if allowed && !skipDelay then Wait(DelayFor(tables.delays, userAgent), now, old(lastAccessed)) else 0.0
      ensures lastAccessed == if allowed && !skipDelay then later else old(lastAccessed)
    {
      allowed := true;
      var path := RequestUri(url);
      var disallows := tables.disallows;
      for i := 0 to |disallows|
        modifies {}
        invariant allowed == !Hit(disallows[..i], userAgent, path)
      {
        HitSnoc(disallows, i, userAgent, path);
        var rules := disallows[i].1;
        if Matches(disallows[i].0, userAgent) {
          for j := 0 to |rules|
            invariant allowed == !(Hit(disallows[..i], userAgent, path) || AnyMatch(rules[..j], path))
          {
            AnyMatchSnoc(rules, j, path);
            if Matches(rules[j], path) {
              allowed := false;
            }
          }
          assert rules[..|rules|] == rules;
        }
      }
      assert disallows[..|disallows|] == disallows;
      var allows := tables.allows;
      for i := 0 to |allows|
        modifies {}
        invariant allowed == (!Hit(disallows, userAgent, path) || Hit(allows[..i], userAgent, path))
      {
        HitSnoc(allows, i, userAgent, path);
        if !allowed {
          var rules := allows[i].1;
          if Matches(allows[i].0, userAgent) {
            for j := 0 to |rules|
              invariant Hit(disallows, userAgent, path)
              invariant allowed == (Hit(allows[..i], userAgent, path) || AnyMatch(rules[..j], path))
            {
              AnyMatchSnoc(rules, j, path);
              if Matches(rules[j], path) {
                allowed := true;
              }
            }
            assert rules[..|rules|] == rules;
          }
        }
      }
      assert allows[..|allows|] == allows;
      pause := 0.0;
      if allowed && !skipDelay {
        var delay := CrawlDelay(userAgent);
        var remaining := delay - (now - lastAccessed);
        if remaining > 0.0 {
          pause := remaining;
        }
        lastAccessed := later;
      }
    }

    /** `clean_url`. */
    method CleanUrl(url: Url, userAgent: string) returns (r: Url)
      ensures r == CleanUrlSpec(tables, url, userAgent)
    {
      if url.query.None? {
        return url;
      }
      var query := CleanQuery(url.query.value, url.path, userAgent);
      r := url.(query := if query == [] then None else Some(query));
    }

    /** The outer loop of `clean_url`, over the clean-param table. */
    method CleanQuery(original: string, path: string, userAgent: string) returns (query: string)
      ensures query == RemoveAll(original, ApplicableParams(tables.cleanParams, userAgent, path))
    {
      query := original;
      var table := tables.cleanParams;
      for i := 0 to |table|
        invariant query == RemoveAll(original, ApplicableParams(table[..i], userAgent, path))
      {
        ghost var before := ApplicableParams(table[..i], userAgent, path);
        ApplicableParamsSnoc(table, i, userAgent, path);
        if Matches(table[i].0, userAgent) {
          ghost var more := RuleParams(table[i].1, path);
          assert ApplicableParams(table[..i + 1], userAgent, path) == before + more;
          query := RemoveRuleParams(query, table[i].1, path);
          RemoveAllConcat(original, before, more);
        } else {
          assert ApplicableParams(table[..i + 1], userAgent, path) == before + [];
          assert before + [] == before;
        }
      }
      assert table[..|table|] == table;
    }

    /** `other_values`: the values of every unrecognised key, by key. */
    function OtherValues(): seq<(string, seq<string>)> {
      tables.other
    }
  }

  /** The innermost loop of `clean_url`: each name of one rule is removed in turn. */
  method RemoveParams(query: string, params: seq<string>) returns (r: string)
    ensures r == RemoveAll(query, params)
  {
    r := query;
    for k := 0 to |params|
      invariant r == RemoveAll(query, params[..k])
    {
      assert params[..k + 1] == params[..k] + [params[k]];
      RemoveAllSnoc(query, params[..k], params[k]);
      r := RemoveParam(r, params[k]);
    }
    assert params[..|params|] == params;
  }

  /** The middle loop of `clean_url`: the rules of one agent whose path pattern matches `path`. */
  method RemoveRuleParams(query: string, rules: seq<CleanRule>, path: string) returns (r: string)
    ensures r == RemoveAll(query, RuleParams(rules, path))
  {
    r := query;
    for j := 0 to |rules|
      invariant r == RemoveAll(query, RuleParams(rules[..j], path))
    {
      ghost var before := RuleParams(rules[..j], path);
      RuleParamsSnoc(rules, j, path);
      if Matches(rules[j].path, path) {
        assert RuleParams(rules[..j + 1], path) == before + rules[j].params;
        r := RemoveParams(r, rules[j].params);
        RemoveAllConcat(query, before, rules[j].params);
      } else {
        assert RuleParams(rules[..j + 1], path) == before + [];
        assert before + [] == before;
      }
    }
    assert rules[..|rules|] == rules;
  }

  /**
   * `ParsedRobots.new` once the response is in hand: the chosen document is
   * split into lines and parsed; the exceptions the parse raises escape.
   */
  method Open(io: Option<Response>, skipDelay: bool) returns (r: Result<ParsedRobots, ParseError>)
    ensures r.Failure? <==> Parse(Lines(ChooseBody(io))).Failure?
    ensures r.Failure? ==> r.error == Parse(Lines(ChooseBody(io))).error
    ensures r.Success? ==>
      fresh(r.value) && r.value.tables == Parse(Lines(ChooseBody(io))).value &&
      r.value.skipDelay == skipDelay && r.value.lastAccessed == 1.0
  {
    var body := ChooseBody(io);
    var parsed := ParseLines(Lines(body));
    match parsed {
      case Failure(e) =>
        r := Failure(e);
      case Success(tables) =>
        var robots := new ParsedRobots(tables, skipDelay);
        r := Success(robots);
    }
  }
}
