/**
 * The body of `ParsedRobots#initialize`: reading a robots.txt document line
 * by line into the allow, disallow, delay, clean-param and "other" tables.
 *
 * `Run` is the specification: a fold of `Step` over the lines.
 * `ParseLines` is the loop itself, proved to compute `Run`. The lemmas
 * describe the tables `Run` builds in terms of the document alone.
 */
module Parser {
  import opened Wrappers
  import opened RubyText
  import opened AssocList
  import opened Patterns

  /** One `Clean-param` rule: the parameter names and the compiled path pattern. */
  datatype CleanRule = CleanRule(params: seq<string>, path: Pattern)

  /** The instance variables `initialize` fills, each a Hash in insertion order. */
  datatype Tables = Tables(
    allows: seq<(Pattern, seq<Pattern>)>,       // @allows
    disallows: seq<(Pattern, seq<Pattern>)>,    // @disallows
    delays: seq<(Pattern, real)>,               // @delays
    cleanParams: seq<(Pattern, seq<CleanRule>)>, // @clean_params
    other: seq<(string, seq<string>)>)          // @other

  const NoTables := Tables([], [], [], [], [])

  /** The exceptions that escape `initialize`: both are a method called on `nil`. */
  datatype ParseError =
    | ColonsOnly(line: string)          // `split(":")` returned no field, so `key` is nil
    | MalformedCleanParam(value: string) // fewer than two words after `Clean-param:`

  /** The directives, keyed on the downcased text before the first colon. */
  datatype Directive =
    | UserAgent(value: string)
    | Allow(value: string)
    | Disallow(value: string)
    | CrawlDelay(value: string)
    | CleanParam(value: string)
    | Other(key: string, value: string)

  function Classify(key: string, value: string): Directive {
    if key == "user-agent" then UserAgent(value)
    else if key == "allow" then Allow(value)
    else if key == "disallow" then Disallow(value)
    else if key == "crawl-delay" then CrawlDelay(value)
    else if key == "clean-param" then CleanParam(value)
    else Other(key, value)
  }

  /** `/^\s*(#.*|$)/` matches at `i`: a line start, whitespace up to `j`, then `#` or a line end. */
  predicate BlankAt(line: string, i: int, j: int) {
    0 <= i <= j <= |line| && IsLineStart(line, i) && AllSpace(line[i..j]) &&
    (j == |line| || line[j] == '\n' || line[j] == '#')
  }

  /** `line =~ /^\s*(#.*|$)/`. */
  predicate IsBlankOrComment(line: string) {
    exists i, j | 0 <= i <= j <= |line| :: BlankAt(line, i, j)
  }

  /** `key` and `value` of a line: the first `split(":")` field downcased, the others rejoined and stripped. */
  function Tokenize(line: string): Option<(string, string)> {
    var fields := Split(line, ':');
    if fields == [] then None
    else Some((Downcase(fields[0]), Strip(Join(fields[1..], ':'))))
  }

  /** `parse_clean_param`: the first word lists the names, joined by `&`; the second is the path. */
  function ParseCleanParam(value: string): Option<CleanRule> {
    var words := Words(value);
    if |words| < 2 then None
    else Some(CleanRule(Split(words[0], '&'), ToRegex(words[1])))
  }

  datatype LineKind = Skip | Broken | Say(directive: Directive)

  function ReadLine(line: string): LineKind {
    if IsBlankOrComment(line) then Skip
    else match Tokenize(line)
      case None => Broken
      case Some(kv) => Say(Classify(kv.0, kv.1))
  }

  /** The parser's local `agent` and the tables built so far. */
  datatype ParseState = ParseState(agent: Pattern, tables: Tables)

  const Initial := ParseState(CatchAll, NoTables)

  /** What one directive does to the state. */
  function Apply(st: ParseState, d: Directive): Result<ParseState, ParseError> {
    var t := st.tables;
    match d
    case UserAgent(v) => Success(st.(agent := ToRegex(v)))
    case Allow(v) => Success(st.(tables := t.(allows := Append(t.allows, st.agent, ToRegex(v)))))
    case Disallow(v) => Success(st.(tables := t.(disallows := Append(t.disallows, st.agent, ToRegex(v)))))
    case CrawlDelay(v) => Success(st.(tables := t.(delays := Put(t.delays, st.agent, ToF(v)))))
    case CleanParam(v) =>
      (match ParseCleanParam(v)
       case None => Failure(MalformedCleanParam(v))
       case Some(rule) => Success(st.(tables := t.(cleanParams := Append(t.cleanParams, st.agent, rule)))))
    case Other(k, v) => Success(st.(tables := t.(other := Append(t.other, k, v))))
  }

  /** One iteration of the loop over the document's lines. */
  function Step(st: ParseState, line: string): Result<ParseState, ParseError> {
    match ReadLine(line)
    case Skip => Success(st)
    case Broken => Failure(ColonsOnly(line))
    case Say(d) => Apply(st, d)
  }

  /** The state after the loop has read `lines`, or the exception that stopped it. */
  function Run(lines: seq<string>): Result<ParseState, ParseError> {
    if lines == [] then Success(Initial)
    else
      match Run(lines[..|lines| - 1])
      case Failure(e) => Failure(e)
      case Success(st) => Step(st, lines[|lines| - 1])
  }

  function Parse(lines: seq<string>): Result<Tables, ParseError> {
    match Run(lines)
    case Failure(e) => Failure(e)
    case Success(st) => Success(st.tables)
  }

  lemma {:induction false} RunFailureSticks(lines: seq<string>, n: nat)
    requires n <= |lines| && Run(lines[..n]).Failure?
    ensures Run(lines) == Run(lines[..n])
    decreases |lines| - n
  {
    if n < |lines| {
      assert lines[..n + 1][..n] == lines[..n];
      RunFailureSticks(lines, n + 1);
    } else {
      assert lines[..n] == lines;
    }
  }

  lemma RunStep(lines: seq<string>, i: nat)
    requires i < |lines|
    ensures Run(lines[..i + 1]) ==
      match Run(lines[..i])
      case Failure(e) => Failure(e)
      case Success(st) => Step(st, lines[i])
  {
    assert lines[..i + 1][..i] == lines[..i];
  }

  lemma StepSay(st: ParseState, line: string, key: string, value: string)
    requires !IsBlankOrComment(line) && Tokenize(line) == Some((key, value))
    ensures Step(st, line) == Apply(st, Classify(key, value))
  {
  }

  /** The loop of `initialize`. */
  method ParseLines(lines: seq<string>) returns (r: Result<Tables, ParseError>)
    ensures r == Parse(lines)
  {
    var agent := CatchAll;
    var allows: seq<(Pattern, seq<Pattern>)> := [];
    var disallows: seq<(Pattern, seq<Pattern>)> := [];
    var delays: seq<(Pattern, real)> := [];
    var cleanParams: seq<(Pattern, seq<CleanRule>)> := [];
    var other: seq<(string, seq<string>)> := [];
    for i := 0 to |lines|
      invariant Run(lines[..i]) == Success(ParseState(agent, Tables(allows, disallows, delays, cleanParams, other)))
    {
      var line := lines[i];
      ghost var st := ParseState(agent, Tables(allows, disallows, delays, cleanParams, other));
      RunStep(lines, i);
      if IsBlankOrComment(line) {
        continue;
      }
      var kv := Tokenize(line);
      if kv.None? {
        assert Step(st, line) == Failure(ColonsOnly(line));
        RunFailureSticks(lines, i + 1);
        return Failure(ColonsOnly(line));
      }
      var key, value := kv.value.0, kv.value.1;
      StepSay(st, line, key, value);
      match Classify(key, value) {
        case UserAgent(v) =>
          agent := ToRegex(v);
        case Allow(v) =>
          allows := Append(allows, agent, ToRegex(v));
        case Disallow(v) =>
          disallows := Append(disallows, agent, ToRegex(v));
        case CrawlDelay(v) =>
          delays := Put(delays, agent, ToF(v));
        case CleanParam(v) =>
          var rule := ParseCleanParam(v);
          if rule.None? {
            assert Apply(st, CleanParam(v)) == Failure(MalformedCleanParam(v));
            RunFailureSticks(lines, i + 1);
            return Failure(MalformedCleanParam(v));
          }
          cleanParams := Append(cleanParams, agent, rule.value);
        case Other(k, v) =>
          other := Append(other, k, v);
      }
    }
    assert lines[..|lines|] == lines;
    r := Success(Tables(allows, disallows, delays, cleanParams, other));
  }

  // ---------------------------------------------------------------------
  // Line handling.

  /**
   * The key is the text before the first colon, downcased but not trimmed;
   * the value is the rest with trailing colons dropped (Ruby's `split`
   * discards trailing empty fields), then stripped. A line of colons alone
   * has no key.
   */
  lemma TokenizeAtFirstColon(k: string, v: string)
    requires ':' !in k
    ensures Tokenize(k + [':'] + v) ==
      if k == [] && TrimEnd(v, ':') == [] then None
      else Some((Downcase(k), Strip(TrimEnd(v, ':'))))
  {
    var line := k + [':'] + v;
    SplitAllConcat(k, ':', v);
    SplitAllNoSep(k, ':');
    DropTrailingEmptyCons(k, SplitAll(v, ':'));
    JoinSplit(v, ':');
    var fields := Split(line, ':');
    if fields != [] {
      if Split(v, ':') == [] {
        assert fields == [k];
      } else {
        assert fields[1..] == Split(v, ':');
      }
    }
  }

  /**
   * The key is not trimmed: a key with leading whitespace, such as the one
   * of ` Disallow: /`, names no directive and is filed among the others.
   */
  lemma PaddedKeyIsOther(k: string, v: string)
    requires k != [] && IsSpace(k[0])
    ensures Classify(Downcase(k), v) == Other(Downcase(k), v)
  {
    assert Downcase(k)[0] == k[0];
  }

  /** A line without a colon is all key and has an empty value. */
  lemma TokenizeNoColon(line: string)
    requires line != [] && ':' !in line
    ensures Tokenize(line) == Some((Downcase(line), []))
  {
    SplitAllNoSep(line, ':');
  }

  /** A match of the blank-or-comment expression starts at the line's first character. */
  lemma BlankAtStart(line: string, i: int, j: int)
    requires forall k :: 0 <= k < |line| - 1 ==> line[k] != '\n'
    requires BlankAt(line, i, j)
    ensures i == 0 && forall k :: 0 <= k < j ==> IsSpace(line[k])
  {
    assert i == 0;
    forall k | 0 <= k < j ensures IsSpace(line[k]) {
      assert line[i..j][k] == line[k];
    }
  }

  /**
   * For a line as `IO#each` yields it (a newline only at the end), the line
   * is skipped exactly when it is whitespace or its first character after
   * leading whitespace is `#`.
   */
  lemma BlankOrCommentIff(line: string)
    requires forall k :: 0 <= k < |line| - 1 ==> line[k] != '\n'
    ensures IsBlankOrComment(line) <==> SkipSpace(line) == [] || SkipSpace(line)[0] == '#'
  {
    var r := SkipSpace(line);
    var m := |line| - |r|;
    SkipSpaceSuffix(line);
    if IsBlankOrComment(line) {
      var i, j :| 0 <= i <= j <= |line| && BlankAt(line, i, j);
      BlankAtStart(line, i, j);
      if r != [] {
        assert r[0] == line[m] && !IsSpace(line[m]);
      }
    } else if r == [] {
      assert AllSpace(line[0..|line|]) by {
        forall k | 0 <= k < |line| ensures IsSpace(line[0..|line|][k]) {
          assert line[0..|line|][k] == line[k];
        }
      }
      assert BlankAt(line, 0, |line|);
    } else if r[0] == '#' {
      assert AllSpace(line[0..m]) by {
        forall k | 0 <= k < m ensures IsSpace(line[0..m][k]) {
          assert line[0..m][k] == line[k];
        }
      }
      assert BlankAt(line, 0, m);
    }
  }

  /** A `Clean-param` value of a names word and a path word (and maybe more) yields that rule. */
  lemma ParseCleanParamShape(names: string, w: string, path: string, rest: string)
    requires names != [] && NoSpace(names) && path != [] && NoSpace(path)
    requires w != [] && AllSpace(w)
    requires rest == [] || IsSpace(rest[0])
    ensures ParseCleanParam(names + w + path + rest) == Some(CleanRule(Split(names, '&'), ToRegex(path)))
  {
    WordsCons(names, w, path + rest);
    assert names + w + path + rest == names + w + (path + rest);
    if rest == [] {
      WordsSingle(path);
      assert path + rest == path;
    } else {
      var sp := rest[..1];
      assert rest == sp + rest[1..];
      assert path + rest == path + sp + rest[1..];
      WordsCons(path, sp, rest[1..]);
    }
  }

  /** A `Clean-param` value of at most one word yields no rule: `path` is `nil`, and so may be the names. */
  lemma ParseCleanParamOneWord(lead: string, word: string, trail: string)
    requires AllSpace(lead) && NoSpace(word) && AllSpace(trail)
    ensures ParseCleanParam(lead + word + trail).None?
  {
    assert lead + word + trail == lead + (word + trail);
    WordsSkipSpace(lead, word + trail);
    if word == [] {
      assert word + trail == trail + [];
      WordsSkipSpace(trail, []);
    } else if trail == [] {
      assert word + trail == word;
      WordsSingle(word);
    } else {
      assert word + trail == word + trail + [];
      WordsCons(word, trail, []);
    }
  }

  // ---------------------------------------------------------------------
  // Skipped lines.

  /** A blank or comment line contributes nothing, wherever it stands. */
  lemma RunSnoc(lines: seq<string>, line: string)
    ensures Run(lines + [line]) ==
      match Run(lines)
      case Failure(e) => Failure(e)
      case Success(st) => Step(st, line)
  {
    assert (lines + [line])[..|lines|] == lines;
  }

  /** Two documents that leave the parser in the same state stay so when the same line follows. */
  lemma SameRunSnoc(x: seq<string>, y: seq<string>, line: string)
    requires Run(x) == Run(y)
    ensures Run(x + [line]) == Run(y + [line])
  {
    RunSnoc(x, line);
    RunSnoc(y, line);
  }

  lemma SkippedLineLast(a: seq<string>, line: string)
    requires IsBlankOrComment(line)
    ensures Run(a + [line]) == Run(a)
  {
    RunSnoc(a, line);
    assert ReadLine(line) == Skip;
  }

  lemma {:induction false} SkippedLineIgnored(a: seq<string>, line: string, b: seq<string>)
    requires IsBlankOrComment(line)
    ensures Run(a + [line] + b) == Run(a + b)
  {
    if b == [] {
      assert a + [line] + b == a + [line] && a + b == a;
      SkippedLineLast(a, line);
    } else {
      var b', c := b[..|b| - 1], b[|b| - 1];
      assert b == b' + [c];
      SkippedLineIgnored(a, line, b');
      SkippedLineStep(a, line, b', c);
    }
  }

  lemma SkippedLineStep(a: seq<string>, line: string, b: seq<string>, c: string)
    requires Run(a + [line] + b) == Run(a + b)
    ensures Run(a + [line] + (b + [c])) == Run(a + (b + [c]))
  {
    assert a + [line] + (b + [c]) == (a + [line] + b) + [c];
    assert a + (b + [c]) == (a + b) + [c];
    SameRunSnoc(a + [line] + b, a + b, c);
  }

  // ---------------------------------------------------------------------
  // The tables, described by the document alone.

  /** The agent that rules read after `lines` are filed under. */
  function CurrentAgent(lines: seq<string>): Pattern {
    if lines == [] then CatchAll
    else
      match ReadLine(lines[|lines| - 1])
      case Say(UserAgent(v)) => ToRegex(v)
      case _ => CurrentAgent(lines[..|lines| - 1])
  }

  datatype RuleKind = AllowRule | DisallowRule

  function RuleOf(line: string, kind: RuleKind): Option<string> {
    match ReadLine(line)
    case Say(Allow(v)) => if kind == AllowRule then Some(v) else None
    case Say(Disallow(v)) => if kind == DisallowRule then Some(v) else None
    case _ => None
  }

  /** The compiled `kind` rules of `lines` whose agent line compiled to `agent`, in document order. */
  function RulesUnder(lines: seq<string>, kind: RuleKind, agent: Pattern): seq<Pattern> {
    if lines == [] then []
    else
      var init := lines[..|lines| - 1];
      RulesUnder(init, kind, agent) +
        match RuleOf(lines[|lines| - 1], kind)
        case Some(v) => if CurrentAgent(init) == agent then [ToRegex(v)] else []
        case None => []
  }

  /** The value of the last `Crawl-delay` filed under `agent`. */
  function LastDelay(lines: seq<string>, agent: Pattern): Option<real> {
    if lines == [] then None
    else
      var init := lines[..|lines| - 1];
      match ReadLine(lines[|lines| - 1])
      case Say(CrawlDelay(v)) => if CurrentAgent(init) == agent then Some(ToF(v)) else LastDelay(init, agent)
      case _ => LastDelay(init, agent)
  }

  function CleanRulesUnder(lines: seq<string>, agent: Pattern): seq<CleanRule> {
    if lines == [] then []
    else
      var init := lines[..|lines| - 1];
      CleanRulesUnder(init, agent) +
        match ReadLine(lines[|lines| - 1])
        case Say(CleanParam(v)) =>
          if CurrentAgent(init) == agent && ParseCleanParam(v).Some? then [ParseCleanParam(v).value] else []
        case _ => []
  }

  /** The values of the lines with the unrecognised key `key`, in document order, duplicates kept. */
  function OtherValuesOf(lines: seq<string>, key: string): seq<string> {
    if lines == [] then []
    else
      var init := lines[..|lines| - 1];
      OtherValuesOf(init, key) +
        match ReadLine(lines[|lines| - 1])
        case Say(Other(k, v)) => if k == key then [v] else []
        case _ => []
  }


  /** The agents in the order of their first `Crawl-delay` line: the key order of `@delays`. */
  function DelayAgents(lines: seq<string>): seq<Pattern> {
    if lines == [] then []
    else
      var init := lines[..|lines| - 1];
      match ReadLine(lines[|lines| - 1])
      case Say(CrawlDelay(_)) => AddKey(DelayAgents(init), CurrentAgent(init))
      case _ => DelayAgents(init)
  }

  /** An agent is listed exactly when some `Crawl-delay` line was filed under it. */
  lemma {:induction false} DelayAgentsIff(lines: seq<string>, a: Pattern)
    ensures a in DelayAgents(lines) <==> LastDelay(lines, a).Some?
  {
    if lines != [] {
      DelayAgentsIff(lines[..|lines| - 1], a);
    }
  }

  /** The agents in the order of their first well-formed `Clean-param` line: the key order of `@clean_params`. */
  function CleanParamAgents(lines: seq<string>): seq<Pattern> {
    if lines == [] then []
    else
      var init := lines[..|lines| - 1];
      match ReadLine(lines[|lines| - 1])
      case Say(CleanParam(v)) =>
        if ParseCleanParam(v).Some? then AddKey(CleanParamAgents(init), CurrentAgent(init)) else CleanParamAgents(init)
      case _ => CleanParamAgents(init)
  }

  /** The unrecognised keys in the order of their first line: the key order of `@other`. */
  function OtherKeys(lines: seq<string>): seq<string> {
    if lines == [] then []
    else
      var init := lines[..|lines| - 1];
      match ReadLine(lines[|lines| - 1])
      case Say(Other(k, _)) => AddKey(OtherKeys(init), k)
      case _ => OtherKeys(init)
  }

  /** The table of `kind` rules: `@allows` or `@disallows`. */
  function RuleTable(t: Tables, kind: RuleKind): seq<(Pattern, seq<Pattern>)> {
    if kind == AllowRule then t.allows else t.disallows
  }

  /** The parser's `agent` is the pattern of the last `User-agent` line, the catch-all before any. */
  lemma {:induction false} RunAgent(lines: seq<string>)
    requires Run(lines).Success?
    ensures Run(lines).value.agent == CurrentAgent(lines)
  {
    if lines != [] {
      var init := lines[..|lines| - 1];
      RunAgent(init);
      StepAgent(Run(init).value, lines[|lines| - 1]);
    }
  }

  /** What one line does to the current agent. */
  lemma StepAgent(st: ParseState, line: string)
    requires Step(st, line).Success?
    ensures Step(st, line).value.agent ==
      match ReadLine(line)
      case Say(UserAgent(v)) => ToRegex(v)
      case _ => st.agent
  {
  }

  /** What one line does to a rule table. */
  lemma StepRuleTable(st: ParseState, line: string, kind: RuleKind)
    requires Step(st, line).Success?
    ensures RuleTable(Step(st, line).value.tables, kind) ==
      match RuleOf(line, kind)
      case None => RuleTable(st.tables, kind)
      case Some(v) => Append(RuleTable(st.tables, kind), st.agent, ToRegex(v))
  {
    if ReadLine(line).Say? {
      assert Step(st, line) == Apply(st, ReadLine(line).directive);
    }
  }

  /** What one line does to the delay table. */
  lemma StepDelayTable(st: ParseState, line: string)
    requires Step(st, line).Success?
    ensures Step(st, line).value.tables.delays ==
      match ReadLine(line)
      case Say(CrawlDelay(v)) => Put(st.tables.delays, st.agent, ToF(v))
      case _ => st.tables.delays
  {
  }

  /** What one line does to the clean-param table. */
  lemma StepCleanParamTable(st: ParseState, line: string)
    requires Step(st, line).Success?
    ensures Step(st, line).value.tables.cleanParams ==
      match ReadLine(line)
      case Say(CleanParam(v)) => Append(st.tables.cleanParams, st.agent, ParseCleanParam(v).value)
      case _ => st.tables.cleanParams
  {
  }

  /** What one line does to the table of unrecognised keys. */
  lemma StepOtherTable(st: ParseState, line: string)
    requires Step(st, line).Success?
    ensures Step(st, line).value.tables.other ==
      match ReadLine(line)
      case Say(Other(k, v)) => Append(st.tables.other, k, v)
      case _ => st.tables.other
  {
  }

  /**
   * `@allows` and `@disallows` have one entry per agent pattern; a rule line
   * is filed under the pattern of the last `User-agent` line before it (the
   * catch-all before any), so groups whose agent lines read the same share
   * one entry, and each entry lists its rules in document order.
   */
  lemma {:induction false} RuleTableBuilt(lines: seq<string>, kind: RuleKind)
    requires Run(lines).Success?
    ensures DistinctKeys(RuleTable(Run(lines).value.tables, kind))
    ensures forall a :: Entries(RuleTable(Run(lines).value.tables, kind), a) == RulesUnder(lines, kind, a)
  {
    if lines != [] {
      var init, line := lines[..|lines| - 1], lines[|lines| - 1];
      RuleTableBuilt(init, kind);
      RunAgent(init);
      var st := Run(init).value;
      var t := RuleTable(st.tables, kind);
      var t' := RuleTable(Run(lines).value.tables, kind);
      StepRuleTable(st, line, kind);
      if RuleOf(line, kind).Some? {
        var rule := ToRegex(RuleOf(line, kind).value);
        AppendDistinct(t, st.agent, rule);
        forall a ensures Entries(t', a) == RulesUnder(lines, kind, a) {
          AppendEntries(t, st.agent, rule, a);
        }
      }
    }
  }

  /** `@delays` has one entry per agent pattern, holding the last delay given under it. */
  lemma {:induction false} DelayTableBuilt(lines: seq<string>)
    requires Run(lines).Success?
    ensures DistinctKeys(Run(lines).value.tables.delays)
    ensures forall a :: Lookup(Run(lines).value.tables.delays, a) == LastDelay(lines, a)
    ensures Keys(Run(lines).value.tables.delays) == DelayAgents(lines)
  {
    DelayKeys(lines);
    if lines != [] {
      var init, line := lines[..|lines| - 1], lines[|lines| - 1];
      DelayTableBuilt(init);
      RunAgent(init);
      var st := Run(init).value;
      var t := st.tables.delays;
      var t' := Run(lines).value.tables.delays;
      StepDelayTable(st, line);
      if ReadLine(line).Say? && ReadLine(line).directive.CrawlDelay? {
        var delay := ToF(ReadLine(line).directive.value);
        PutSpec(t, st.agent, delay);
        forall a ensures Lookup(t', a) == LastDelay(lines, a) {
          PutLookup(t, st.agent, delay, a);
        }
      }
    }
  }

  /** `@clean_params` has one entry per agent pattern, listing its well-formed rules in order. */
  lemma {:induction false} CleanParamTableBuilt(lines: seq<string>)
    requires Run(lines).Success?
    ensures DistinctKeys(Run(lines).value.tables.cleanParams)
    ensures forall a :: Entries(Run(lines).value.tables.cleanParams, a) == CleanRulesUnder(lines, a)
    ensures Keys(Run(lines).value.tables.cleanParams) == CleanParamAgents(lines)
  {
    CleanParamKeys(lines);
    if lines != [] {
      var init, line := lines[..|lines| - 1], lines[|lines| - 1];
      CleanParamTableBuilt(init);
      RunAgent(init);
      var st := Run(init).value;
      var t := st.tables.cleanParams;
      var t' := Run(lines).value.tables.cleanParams;
      StepCleanParamTable(st, line);
      if ReadLine(line).Say? && ReadLine(line).directive.CleanParam? {
        var rule := ParseCleanParam(ReadLine(line).directive.value).value;
        AppendDistinct(t, st.agent, rule);
        forall a ensures Entries(t', a) == CleanRulesUnder(lines, a) {
          AppendEntries(t, st.agent, rule, a);
        }
      }
    }
  }

  /** `@other` has one entry per unrecognised key, listing every value given for it, duplicates kept. */
  lemma {:induction false} OtherTableBuilt(lines: seq<string>)
    requires Run(lines).Success?
    ensures DistinctKeys(Run(lines).value.tables.other)
    ensures forall key :: Entries(Run(lines).value.tables.other, key) == OtherValuesOf(lines, key)
    ensures Keys(Run(lines).value.tables.other) == OtherKeys(lines)
  {
    OtherTableKeys(lines);
    if lines != [] {
      var init, line := lines[..|lines| - 1], lines[|lines| - 1];
      OtherTableBuilt(init);
      var st := Run(init).value;
      var t := st.tables.other;
      var t' := Run(lines).value.tables.other;
      StepOtherTable(st, line);
      if ReadLine(line).Say? && ReadLine(line).directive.Other? {
        var k, v := ReadLine(line).directive.key, ReadLine(line).directive.value;
        AppendDistinct(t, k, v);
        forall key ensures Entries(t', key) == OtherValuesOf(lines, key) {
          AppendEntries(t, k, v, key);
        }
      }
    }
  }

  lemma {:induction false} DelayKeys(lines: seq<string>)
    requires Run(lines).Success?
    ensures Keys(Run(lines).value.tables.delays) == DelayAgents(lines)
  {
    if lines != [] {
      var init, line := lines[..|lines| - 1], lines[|lines| - 1];
      DelayKeys(init);
      RunAgent(init);
      var st := Run(init).value;
      StepDelayTable(st, line);
      if ReadLine(line).Say? && ReadLine(line).directive.CrawlDelay? {
        PutKeys(st.tables.delays, st.agent, ToF(ReadLine(line).directive.value));
      }
    }
  }

  lemma {:induction false} CleanParamKeys(lines: seq<string>)
    requires Run(lines).Success?
    ensures Keys(Run(lines).value.tables.cleanParams) == CleanParamAgents(lines)
  {
    if lines != [] {
      var init, line := lines[..|lines| - 1], lines[|lines| - 1];
      CleanParamKeys(init);
      RunAgent(init);
      var st := Run(init).value;
      StepCleanParamTable(st, line);
      if ReadLine(line).Say? && ReadLine(line).directive.CleanParam? {
        AppendKeys(st.tables.cleanParams, st.agent, ParseCleanParam(ReadLine(line).directive.value).value);
      }
    }
  }

  lemma {:induction false} OtherTableKeys(lines: seq<string>)
    requires Run(lines).Success?
    ensures Keys(Run(lines).value.tables.other) == OtherKeys(lines)
  {
    if lines != [] {
      var init, line := lines[..|lines| - 1], lines[|lines| - 1];
      OtherTableKeys(init);
      var st := Run(init).value;
      StepOtherTable(st, line);
      if ReadLine(line).Say? && ReadLine(line).directive.Other? {
        AppendKeys(st.tables.other, ReadLine(line).directive.key, ReadLine(line).directive.value);
      }
    }
  }

  /** Before any `User-agent` line, every rule is filed under the catch-all agent. */
  lemma {:induction false} NoUserAgentMeansCatchAll(lines: seq<string>)
    requires forall k :: 0 <= k < |lines| ==> !ReadLine(lines[k]).Say? || !ReadLine(lines[k]).directive.UserAgent?
    ensures CurrentAgent(lines) == CatchAll
    ensures forall a, kind :: a != CatchAll ==> RulesUnder(lines, kind, a) == []
    ensures forall a :: a != CatchAll ==> LastDelay(lines, a) == None && CleanRulesUnder(lines, a) == []
  {
    if lines != [] {
      var init := lines[..|lines| - 1];
      assert forall k :: 0 <= k < |init| ==> init[k] == lines[k];
      NoUserAgentMeansCatchAll(init);
      forall a, kind | a != CatchAll ensures RulesUnder(lines, kind, a) == [] {
        assert RulesUnder(lines, kind, a) == RulesUnder(init, kind, a) + [];
      }
      forall a | a != CatchAll ensures LastDelay(lines, a) == None && CleanRulesUnder(lines, a) == [] {
        assert LastDelay(lines, a) == LastDelay(init, a);
        assert CleanRulesUnder(lines, a) == CleanRulesUnder(init, a) + [];
      }
    }
  }

  /** A line that stops the parse. */
  predicate Aborts(line: string) {
    match ReadLine(line)
    case Broken => true
    case Say(CleanParam(v)) => ParseCleanParam(v).None?
    case _ => false
  }

  /** One line stops the parse exactly when it aborts. */
  lemma StepFailsIff(st: ParseState, line: string)
    ensures Step(st, line).Failure? <==> Aborts(line)
  {
    if ReadLine(line).Say? {
      assert Step(st, line) == Apply(st, ReadLine(line).directive);
    }
  }

  lemma AbortsSnoc(lines: seq<string>, init: seq<string>)
    requires lines != [] && init == lines[..|lines| - 1]
    ensures (exists k :: 0 <= k < |lines| && Aborts(lines[k])) <==>
      (exists k :: 0 <= k < |init| && Aborts(init[k])) || Aborts(lines[|lines| - 1])
  {
    assert forall k :: 0 <= k < |init| ==> init[k] == lines[k];
  }

  /** The parse fails exactly when some line is a line of colons or a malformed `Clean-param`. */
  lemma {:induction false} ParseFailsIff(lines: seq<string>)
    ensures Run(lines).Failure? <==> exists k :: 0 <= k < |lines| && Aborts(lines[k])
  {
    if lines != [] {
      var init := lines[..|lines| - 1];
      ParseFailsIff(init);
      AbortsSnoc(lines, init);
      if Run(init).Success? {
        StepFailsIff(Run(init).value, lines[|lines| - 1]);
      }
    }
  }
}
