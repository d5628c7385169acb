# robots.txt parser — a Dafny model of `Robots::ParsedRobots`

This project models the core of the `robots` Ruby gem: the class
`Robots::ParsedRobots` in `lib/robots.rb`. The class reads one host's
robots.txt document: its `User-agent`, `Allow` and `Disallow` lines, and
also the non-standard `Crawl-delay` and `Clean-param` lines.
Reading the document builds five tables:

- `@allows` and `@disallows`
- `@delays`
- `@clean_params`
- `@other`

Three queries are then answered from those tables:

- `allowed?`
- `crawl_delay`
- `clean_url`

The modules:

- `Wrappers`: `Option` and `Result`.
- `RubyText`: the Ruby `String` operations the parser relies on.
  - `strip`, `downcase` and `upcase`.
  - `split(":")`, which drops trailing empty fields.
  - `join`, and `split` on whitespace.
  - `to_f`.
  - `IO#each`, which yields lines that keep their newline.
- `AssocList`: a Ruby `Hash` as an insertion-ordered association list.
  - `Put` is `h[k] = v`. An existing key keeps its position.
  - `Append` is `h[k] ||= []; h[k] << v`.
- `Patterns`: `to_regex` and the meaning of `=~` on the regexps it builds.
  - The initial agent `/.*/` is `CatchAll`.
  - The blank-pattern regexp is `Sentinel`.
  - Every other pattern is `Glob(text)`.
  - Matching is defined the way the regexp engine reads `^…`: the pattern is anchored at a line start, each `*` becomes `.*`, which cannot cross a newline, and every other character stands for itself.
- `Parser`: the loop of `initialize`.
  - `Step` is one line and `Run` is the whole document.
  - `ParseLines` is the loop itself, proved to compute `Run`.
  - Lemmas describe each table in terms of the document's lines alone.
- `QueryClean`: the query rewriting of `clean_url`, which splits on `&`, rejects fields and rejoins.
- `Robots`: the class `ParsedRobots`.
  - Its fields are the tables, `@options[:skip_delay]` and `@last_accessed`.
  - Its methods are `Allowed`, `CrawlDelay` and `CleanUrl`. Each keeps the source's nested loops and is proved against a function of the tables.
  - `Open` is the rest of `initialize`. It picks the response body or the fallback document, then parses.
- `RobotsFacts`: the properties that connect the answers to the document text.

Where the code and its written description disagree, the model follows the code:

- **Repeated agents share one entry.** Two `User-agent` lines with the same text compile to equal regexps, so they share one hash entry. Their rules accumulate in that entry. A later `Crawl-delay` overwrites the earlier one but keeps the entry's first position. Groups are therefore not kept apart by occurrence.
- **Keys are not trimmed.** The key is only downcased, so ` Disallow` is an unrecognised key.
- **Before any `User-agent`, the agent is `/.*/`.** It is not the regexp compiled from `*`, and the two are distinct hash keys.
- **A malformed `Clean-param` raises.** One with fewer than two words aborts `initialize`, because it calls a method on `nil`. It is not ignored.
- **An unterminated last line of colons raises.** Such a line makes `split` return no field, so `key` is nil and `initialize` aborts. The same colons followed by a newline do not raise: `split` keeps the newline as a last field, so `:::` plus a newline is the unrecognised key `""` with value `::`.
- **A line without a colon is not skipped.** The whole line is the key, with an empty value. A line ending in a newline keeps the newline in its key, so the key is unrecognised. An unterminated last line whose text downcases to a directive name acts as that directive with an empty value: `Disallow` files the blank-pattern regexp under the current agent.
- **An unterminated `Clean-param` raises.** Its value is empty, so `parse_clean_param` finds no words and calls `split` on `nil`.
- **`crawl_delay` follows the hash order, not the line order.** It returns the delay of the last matching agent in the order in which agents first got a delay. With `A` given 1, then `*` given 2, then `A` again given 3, an agent matching both gets 2.
- **The blank-pattern regexp can match.** It is unanchored, so it matches any subject that contains `should-not-match-anything-123456789`.
- **An empty query is always dropped.** `clean_url` drops a query left empty, and also a query that was empty to begin with, even when no rule applies.
- **`clean_url` is idempotent only on well-formed queries.** It is idempotent when the query has no empty `&` field. `a=1&&b=2` with rule name `b` gives `a=1&` and then `a=1`.
- **`@parsed` is always true** once an object exists, so the guards at the start of `allowed?`, `crawl_delay` and `clean_url` are dead and are not modelled.

## Model

| member | source | states |
|---|---|---|
| Patterns.ToRegexKeys | lib/robots.rb:126-131 | `to_regex` never gives the initial `/.*/`. It gives the sentinel exactly for a pattern of whitespace only. Two patterns give the same hash key exactly when they are equal or both blank. |
| Patterns.ToRegexGlob | lib/robots.rb:126-131 | A pattern with a character other than whitespace compiles to the anchored glob of its own text. |
| Patterns.MatchesAfterNewline | lib/robots.rb:130 | The `^` anchor also matches right after a newline inside the subject. |
| Patterns.ToRegexMeaning | lib/robots.rb:126-131 | On a newline-free subject, a blank pattern matches exactly when the subject contains the sentinel text. Any other pattern matches exactly when some prefix of the subject is the pattern with each `*` replaced by some string. |
| Patterns.LiteralMatchesIffPrefix | lib/robots.rb:126-131 | A non-blank pattern without `*` matches a newline-free subject exactly when it is a prefix of it. |
| Patterns.StarMatchesAll | lib/robots.rb:126-131 | The pattern `*` matches every subject. |
| Patterns.MatchesExtend | lib/robots.rb:126-131 | Matching is prefix-monotone: a pattern that matches `s` matches `s + t`. |
| Patterns.MatchingIsCaseSensitive | lib/robots.rb:37 | Agent pattern `Mobot` matches `Mobot/2.0` but not `mobot`. |
| Parser.TokenizeAtFirstColon | lib/robots.rb:31-34 | The key is the text before the first colon, downcased and not trimmed. The value is the rest with its colons kept inside, trailing colons dropped, then stripped. An unterminated line of colons has no key. With a newline after the colons the key is empty. |
| Parser.TokenizeNoColon | lib/robots.rb:31-34 | A line without a colon is all key, with an empty value. |
| Parser.PaddedKeyIsOther | lib/robots.rb:32-35 | A key starting with whitespace names no directive and is an unrecognised key. |
| Parser.BlankOrCommentIff | lib/robots.rb:30 | A line is skipped exactly when it is whitespace up to its end or up to a `#`. |
| Parser.SkippedLineIgnored | lib/robots.rb:30 | Inserting a blank or comment line anywhere leaves the parse result unchanged. |
| Parser.ParseCleanParamShape | lib/robots.rb:133-137 | A value of a name list, whitespace and a path gives the names split on `&` and the compiled path. Later words are ignored. |
| Parser.ParseCleanParamOneWord | lib/robots.rb:133-137 | A `Clean-param` value of at most one word yields no rule, because the path (and maybe the names) is `nil`. |
| Parser.ParseLines | lib/robots.rb:28-53 | The loop over the lines returns exactly the tables, or the error, of the fold `Parse`. |
| Parser.ParseFailsIff | lib/robots.rb:31-48 | Parsing fails exactly when some line has no `split` field (an unterminated line of colons) or is a `Clean-param` with fewer than two words. |
| Parser.StepFailsIff | lib/robots.rb:30-48 | One line stops the loop exactly when it has no `split` field or is a `Clean-param` with fewer than two words. |
| RobotsFacts.ColonFreeLines | lib/robots.rb:31-48 | `Disallow` plus a newline reads as the unrecognised key `disallow` plus a newline, with an empty value. An unterminated `Disallow` reads as a `Disallow` with an empty value. An unterminated `Clean-param` reads as an empty `Clean-param`, which aborts the parse. |
| RobotsFacts.ColonsLine | lib/robots.rb:31-33 | `:::` without a newline has no key, while `:::` with a newline reads as the unrecognised key `""` with value `::`. |
| Parser.StepAgent | lib/robots.rb:35-37 | A `User-agent` line sets the current agent to its compiled value. Every other line keeps it. |
| Parser.StepRuleTable | lib/robots.rb:38-43 | An `Allow` or `Disallow` line appends its compiled value to the current agent's list in that table. Every other line leaves the table alone. |
| Parser.StepDelayTable | lib/robots.rb:44-45 | A `Crawl-delay` line sets the current agent's delay to the value's `to_f`. Every other line leaves `@delays` alone. |
| Parser.StepCleanParamTable | lib/robots.rb:46-48 | A well-formed `Clean-param` line appends its rule to the current agent's list. Every other line leaves `@clean_params` alone. |
| Parser.StepOtherTable | lib/robots.rb:49-51 | A line with an unrecognised key appends its value to that key's list. Every other line leaves `@other` alone. |
| Parser.RunAgent | lib/robots.rb:28-37 | The current agent is the pattern of the last `User-agent` line, `/.*/` before any. |
| Parser.RuleTableBuilt | lib/robots.rb:38-43 | `@allows` and `@disallows` have one entry per agent pattern. Each entry lists, in document order, the rules of every line filed under that pattern. |
| Parser.DelayTableBuilt | lib/robots.rb:44-45 | `@delays` has one entry per agent pattern, holding the last delay given under it. Its keys are in the order of each agent's first `Crawl-delay` line. |
| Parser.DelayAgentsIff | lib/robots.rb:44-45 | An agent pattern is a key of `@delays` exactly when some `Crawl-delay` line is filed under it. |
| Parser.CleanParamTableBuilt | lib/robots.rb:46-48 | `@clean_params` has one entry per agent pattern, listing its rules in order. Its keys are in the order of each agent's first well-formed `Clean-param` line. |
| Parser.OtherTableBuilt | lib/robots.rb:49-51 | `@other` has one entry per unrecognised key, listing every value in order with duplicates kept. Its keys are in the order of each key's first line. |
| Parser.NoUserAgentMeansCatchAll | lib/robots.rb:28 | In a document without `User-agent` lines, every rule, delay and clean-param is filed under `/.*/` and nothing under any other pattern. |
| RobotsFacts.FiledIsListed | lib/robots.rb:38-43 | A rule line under a given agent appears in that agent's rule list. |
| RobotsFacts.ListedIsFiled | lib/robots.rb:38-43 | Every rule in an agent's rule list comes from a rule line under that agent. |
| Robots.ChooseBody | lib/robots.rb:17-18 | The body is parsed only for a `text/plain` response whose stripped, upcased status is `200 OK`. Otherwise the fallback document is parsed. |
| Robots.Open | lib/robots.rb:12-56 | Construction parses the chosen body. It fails exactly when the parse fails; otherwise the object holds the parsed tables with last access at time 1. |
| Robots.RequestUri | lib/robots.rb:61 | The request URI starts with `/`, and the path is a prefix of it when the path starts with `/`. |
| Robots.ParsedRobots.Allowed | lib/robots.rb:58-92 | The answer is: no disallow rule under a matching agent matches the request URI, or some allow rule under a matching agent does. When allowed and not skipping delays, it sleeps for the wait and records the later clock reading. Otherwise nothing changes. |
| RobotsFacts.AllowedByDocument | lib/robots.rb:58-83 | `allowed?` is true exactly when no disallow line under a matching agent matches the path, or some allow line under a matching agent matches it, whatever their order. |
| Robots.Wait | lib/robots.rb:85-87 | The sleep is never negative. When positive, it ends exactly `delay` after the last access; when zero, that moment has already passed. |
| Robots.ParsedRobots.CrawlDelay | lib/robots.rb:94-99 | The loop returns `DelayFor` of the delay table. |
| Robots.DelayFor | lib/robots.rb:94-99 | The delay is 0 when no agent pattern matches. Otherwise it is the value of the last matching pattern in table order. |
| RobotsFacts.NoDelayLine | lib/robots.rb:94-99 | When no pattern matching the agent was given a delay, `crawl_delay` is 0. |
| RobotsFacts.DelayLine | lib/robots.rb:94-99 | Among the agents in the order of their first `Crawl-delay` line, take the last one that matches. `crawl_delay` is the last delay given under that agent. |
| RobotsFacts.RepeatedAgentKeepsFirstPlace | lib/robots.rb:94-99 | Delays 1 for `a`, 2 for `b`, then 3 for `a` again: when both match, the answer is 2, because `a` keeps its first place in the hash. |
| RobotsFacts.FallbackParses | lib/robots.rb:18 | The fallback document parses to one allow rule `/` under agent `*`. |
| RobotsFacts.NoUsableResponse | lib/robots.rb:17-18 | A missing, non-`text/plain` or non-`200 OK` response yields the fallback tables. |
| RobotsFacts.FallbackAnswers | lib/robots.rb:58-118 | Under the fallback tables, every request is allowed, the delay is 0, and every URL is returned unchanged except that an empty query is dropped. |
| Robots.CleanUrlSpec | lib/robots.rb:101-118 | Only the query changes. A URL without a query is returned as it is, and no result has an empty query. |
| Robots.ParsedRobots.CleanUrl | lib/robots.rb:101-118 | The method computes `CleanUrlSpec`. |
| Robots.ParsedRobots.CleanQuery | lib/robots.rb:105-115 | The loop over the clean-param table removes, in order, every name of every rule whose agent and path patterns match. |
| Robots.RemoveRuleParams | lib/robots.rb:107-113 | The loop over one agent's rules removes the names of the rules whose path pattern matches the path. |
| Robots.RemoveParams | lib/robots.rb:109-111 | The loop over one rule's names removes each name in turn. |
| QueryClean.Reject | lib/robots.rb:110 | The result is the input fields with some left out and the rest in their order. A field survives exactly when it is an input field that is neither the name nor starts with the name and `=`. |
| QueryClean.RejectKeepsOccurrences | lib/robots.rb:110 | A field the name does not reject keeps every one of its occurrences. |
| QueryClean.KeepSubsequence | lib/robots.rb:109-111 | After removing several names, the surviving fields keep their input order. A field no name rejects keeps every occurrence. |
| QueryClean.RemoveParamFields | lib/robots.rb:110 | On a well-formed query, one pass leaves exactly the fields the name does not reject, in order, and the result is well formed. |
| QueryClean.RemoveParamNonEmpty | lib/robots.rb:110 | On any query, the non-empty fields after one pass are the non-empty input fields the name does not reject, in order. |
| QueryClean.RemoveAllNonEmpty | lib/robots.rb:109-111 | On any query, the non-empty fields after all passes are the non-empty input fields no name rejects, in order. |
| QueryClean.RemoveAllKeeps | lib/robots.rb:110 | On a query without empty fields, removing names equals splitting, keeping the surviving fields in order, and rejoining. The result stays well formed. |
| RobotsFacts.ApplicableParamsMember | lib/robots.rb:105-112 | A name is removed exactly when it is listed by a rule under a matching agent whose path pattern matches the path. |
| RobotsFacts.CleanUrlFields | lib/robots.rb:101-118 | On a well-formed query, the surviving fields are the input fields with some left out, in their order. A field survives exactly when no applicable name rejects it, and then every occurrence of it survives. |
| RobotsFacts.CleanUrlNonEmptyFields | lib/robots.rb:101-118 | On any query, including one with empty `&` fields, the non-empty fields that survive are the non-empty input fields that no applicable name rejects. They keep their order and every occurrence. |
| QueryClean.RemoveAllIdempotent | lib/robots.rb:110 | Removing the same names twice from a well-formed query changes nothing more. |
| RobotsFacts.CleanUrlIdempotent | lib/robots.rb:101-118 | `clean_url` applied to its own result gives the same URL when the query is well formed. |
| QueryClean.EmptyFieldBreaksIdempotence | lib/robots.rb:110 | With an empty field, `a=1&&b=2` with name `b` becomes `a=1&` and then `a=1`, so idempotence needs well-formedness. |
| RubyText.Lines | lib/robots.rb:29 | The lines concatenate to the text. No line is empty, a newline only ends a line, and every line but the last ends with one. |
| RubyText.LinesCons | lib/robots.rb:29 | A first line that ends at its only newline is yielded as it stands, and the rest is split on its own. |
| RubyText.ToFInteger | lib/robots.rb:45 | Digits followed by a character that continues no number read as their integer value. Such a character is not a digit, `.`, `e`, `E` or `_`. |
| RubyText.ToFDecimal | lib/robots.rb:45 | Digits, a point and digits read as the decimal number they spell. The next character, if any, is not a digit, `e`, `E` or `_`. |
| RubyText.ToFNotNumber | lib/robots.rb:45 | A text that starts with no sign, digit, point or whitespace reads as 0. |
| RubyText.JoinSplit | lib/robots.rb:31-33 | Rejoining the fields of `split` gives the text without its trailing separators. |
| RubyText.SplitJoin | lib/robots.rb:110 | Splitting a join of non-empty, separator-free fields gives the fields back. |
| RubyText.StripIdempotent | lib/robots.rb:33-34 | `strip` applied twice is `strip`, so the extra `strip!` changes nothing. |
| AssocList.PutSpec | lib/robots.rb:45 | `h[k] = v` maps `k` to `v`, changes no other key, keeps keys distinct, and adds `k` at the end only when it is new. |
| AssocList.AppendEntries | lib/robots.rb:39-51 | `h[k] ||= []; h[k] << w` adds `w` to the end of `k`'s list and changes no other key. |

## Left out

- Fetching the document is not part of this model: `Robots.get_robots_txt`, its timeout and STDERR logging, and the `Robots` facade with its per-host cache. The response is an input of `Open`: absent, or a content type, a status list and a body.
- The clock and `sleep` are not modelled as effects. `Allowed` takes the clock reading before the sleep, `now`, and the one after it, `later`. It returns the length of the sleep.
- The URI library is not modelled. A URL is a record of an opaque origin, a path, an optional query and an optional fragment.
  - `RequestUri` approximates `request_uri` as the path plus `?query`, with `/` added in front when missing.
  - Percent-encoding and `URI.parse` are not modelled.
- Robots.Wait: real arithmetic stands in for floating point. The source also allows a delay of `0` (an integer) on the `rescue` path; `to_f` never raises, so that path is dead and only reals appear.
- RubyText.ToF: covers a sign, decimal digits and a fraction. Underscores, exponents and `Infinity`-like texts are not modelled.
- RubyText.Downcase and RubyText.Upcase: cover ASCII letters only. Ruby's full Unicode case mapping is not modelled.
- QueryClean.Rejects: reads a clean-param name literally. The source interpolates it unescaped into a regexp, so a name with regexp metacharacters would behave differently. Fields are also taken to hold no newline, where the regexp's `^` and `$` would match at line boundaries inside the field.
- Text is a sequence of Unicode characters. A line with an invalid byte sequence makes Ruby's `=~` raise `ArgumentError` at lib/robots.rb:30, which aborts `initialize`; that error is not modelled.
- Patterns.Matches: models only what the built regexps use: `^`, `.*` and literal characters. Multi-line anchoring is modelled (a line start is position 0 or after a newline that is not last).
- Robots.ParsedRobots.OtherValues: is a plain getter with no contract of its own. What `@other` holds is stated by `Parser.OtherTableBuilt`.
- The tables are fixed once the object exists, so they are `const` fields. Only `@last_accessed` changes.
