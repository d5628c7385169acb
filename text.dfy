/**
 * The Ruby string operations the parser relies on, written out with the
 * edge cases Ruby gives them: `strip`, ASCII `downcase`/`upcase`,
 * `split(sep)` (which drops trailing empty fields), `join`, the
 * no-argument `split` (runs of whitespace), `to_f` and `IO#each` (lines
 * that keep their terminating newline).
 */
module RubyText {

  /** The characters `String#strip` removes from either end (NUL included). */
  predicate IsStripSpace(c: char) {
    c == '\0' || c == '\t' || c == '\n' || c == '\U{000B}' || c == '\U{000C}' || c == '\r' || c == ' '
  }

  /** `\s` in a Ruby regular expression, and the separators of the no-argument `split`. */
  predicate IsSpace(c: char) {
    c == ' ' || c == '\t' || c == '\n' || c == '\U{000B}' || c == '\U{000C}' || c == '\r'
  }

  function LStrip(s: string): (r: string)
    ensures |r| <= |s|
    ensures r == [] || !IsStripSpace(r[0])
    ensures forall k :: 0 <= k < |s| - |r| ==> IsStripSpace(s[k])
  {
    if s != [] && IsStripSpace(s[0]) then LStrip(s[1..]) else s
  }

  function RStrip(s: string): (r: string)
    ensures |r| <= |s|
    ensures r == [] || !IsStripSpace(r[|r| - 1])
    ensures forall k :: |r| <= k < |s| ==> IsStripSpace(s[k])
  {
    if s != [] && IsStripSpace(s[|s| - 1]) then RStrip(s[..|s| - 1]) else s
  }

  /** `String#strip`. */
  function Strip(s: string): string {
    RStrip(LStrip(s))
  }

  /** `lstrip` removes a prefix: what is left is a suffix of the input. */
  lemma {:induction false} LStripSuffix(s: string)
    ensures LStrip(s) == s[|s| - |LStrip(s)|..]
  {
    if s != [] && IsStripSpace(s[0]) {
      LStripSuffix(s[1..]);
    }
  }

  /** `rstrip` removes a suffix: what is left is a prefix of the input. */
  lemma {:induction false} RStripPrefix(s: string)
    ensures RStrip(s) == s[..|RStrip(s)|]
  {
    if s != [] && IsStripSpace(s[|s| - 1]) {
      RStripPrefix(s[..|s| - 1]);
    }
  }

  /** `strip` is idempotent, so the second `strip!` of the parser changes nothing. */
  lemma StripIdempotent(s: string)
    ensures Strip(Strip(s)) == Strip(s)
  {
    var l := LStrip(s);
    var r := Strip(s);
    RStripPrefix(l);
    if r != [] {
      assert r[0] == l[0];
    }
    assert LStrip(r) == r;
  }

  /** A string is blank after `strip` exactly when every character is strip-space. */
  lemma StripEmptyIff(s: string)
    ensures Strip(s) == [] <==> forall k :: 0 <= k < |s| ==> IsStripSpace(s[k])
  {
    var l := LStrip(s);
    LStripSuffix(s);
    if l != [] {
      assert !IsStripSpace(l[0]);
      assert l[0] == s[|s| - |l|];
    }
  }

  function Lower(c: char): char {
    if 'A' <= c <= 'Z' then (c as int + 32) as char else c
  }

  function Upper(c: char): char {
    if 'a' <= c <= 'z' then (c as int - 32) as char else c
  }

  /** `s` starts with `p`. */
  predicate IsPrefix(p: string, s: string) {
    |p| <= |s| && s[..|p|] == p
  }

  /** `String#downcase` on ASCII letters. */
  function Downcase(s: string): string {
    seq(|s|, i requires 0 <= i < |s| => Lower(s[i]))
  }

  /** `String#upcase` on ASCII letters. */
  function Upcase(s: string): string {
    seq(|s|, i requires 0 <= i < |s| => Upper(s[i]))
  }

  /** Every field between separators, trailing empty ones included. */
  function SplitAll(s: string, sep: char): (r: seq<string>)
    ensures |r| >= 1
    ensures forall k :: 0 <= k < |r| ==> sep !in r[k]
  {
    if s == [] then [[]]
    else
      var f := SplitAll(s[..|s| - 1], sep);
      if s[|s| - 1] == sep then f + [[]]
      else f[..|f| - 1] + [f[|f| - 1] + [s[|s| - 1]]]
  }

  function DropTrailingEmpty(fs: seq<string>): (r: seq<string>)
    ensures |r| <= |fs|
    ensures r == [] || r[|r| - 1] != []
  {
    if fs != [] && fs[|fs| - 1] == [] then DropTrailingEmpty(fs[..|fs| - 1]) else fs
  }

  lemma {:induction false} DropTrailingEmptyPrefix(fs: seq<string>)
    ensures DropTrailingEmpty(fs) == fs[..|DropTrailingEmpty(fs)|]
  {
    if fs != [] && fs[|fs| - 1] == [] {
      DropTrailingEmptyPrefix(fs[..|fs| - 1]);
    }
  }

  /** `String#split(sep)` for a one-character separator: trailing empty fields are dropped. */
  function Split(s: string, sep: char): seq<string> {
    DropTrailingEmpty(SplitAll(s, sep))
  }

  /** `Array#join(sep)`. */
  function Join(fs: seq<string>, sep: char): string {
    if |fs| == 0 then []
    else if |fs| == 1 then fs[0]
    else Join(fs[..|fs| - 1], sep) + [sep] + fs[|fs| - 1]
  }

  /** `s` without its trailing run of `c`. */
  function TrimEnd(s: string, c: char): (r: string)
    ensures |r| <= |s|
    ensures r == [] || r[|r| - 1] != c
    ensures forall k :: |r| <= k < |s| ==> s[k] == c
  {
    if s != [] && s[|s| - 1] == c then TrimEnd(s[..|s| - 1], c) else s
  }

  /** Joining the fields of a string with the separator gives the string back. */
  lemma {:induction false} JoinSplitAll(s: string, sep: char)
    ensures Join(SplitAll(s, sep), sep) == s
  {
    if s != [] {
      var init, c := s[..|s| - 1], s[|s| - 1];
      var f := SplitAll(init, sep);
      JoinSplitAll(init, sep);
      if c == sep {
        assert (f + [[]])[..|f|] == f;
      } else {
        var g := f[..|f| - 1] + [f[|f| - 1] + [c]];
        if |f| > 1 {
          assert g[..|g| - 1] == f[..|f| - 1];
        }
      }
      assert init + [c] == s;
    }
  }

  lemma {:induction false} SplitAllNoSep(s: string, sep: char)
    requires sep !in s
    ensures SplitAll(s, sep) == [s]
  {
    if s != [] {
      SplitAllNoSep(s[..|s| - 1], sep);
      assert s[..|s| - 1] + [s[|s| - 1]] == s;
    }
  }

  /** The fields `f` after one more character: a new empty field at a separator, else a longer last field. */
  function SnocFields(f: seq<string>, c: char, sep: char): seq<string>
    requires |f| >= 1
  {
    if c == sep then f + [[]] else f[..|f| - 1] + [f[|f| - 1] + [c]]
  }

  lemma SnocFieldsFront(a: seq<string>, b: seq<string>, c: char, sep: char)
    requires |b| >= 1
    ensures SnocFields(a + b, c, sep) == a + SnocFields(b, c, sep)
  {
    var f := a + b;
    if c != sep {
      var b0, last := b[..|b| - 1], b[|b| - 1] + [c];
      assert f[..|f| - 1] == a + b0;
      assert (a + b0) + [last] == a + (b0 + [last]);
    }
  }

  /** One more character either starts a new field or extends the last one. */
  lemma SplitAllSnoc(s: string, c: char, sep: char)
    ensures SplitAll(s + [c], sep) == SnocFields(SplitAll(s, sep), c, sep)
  {
    assert (s + [c])[..|s|] == s;
  }

  /** Splitting at one separator splits the two sides independently. */
  lemma {:induction false} SplitAllConcat(x: string, sep: char, y: string)
    ensures SplitAll(x + [sep] + y, sep) == SplitAll(x, sep) + SplitAll(y, sep)
  {
    if y == [] {
      assert x + [sep] + y == x + [sep];
      SplitAllSnoc(x, sep, sep);
    } else {
      var y', c := y[..|y| - 1], y[|y| - 1];
      assert x + [sep] + y == (x + [sep] + y') + [c];
      assert y == y' + [c];
      SplitAllConcat(x, sep, y');
      SplitAllSnoc(x + [sep] + y', c, sep);
      SplitAllSnoc(y', c, sep);
      SnocFieldsFront(SplitAll(x, sep), SplitAll(y', sep), c, sep);
    }
  }

  /** Splitting a join of separator-free fields gives the fields back. */
  lemma {:induction false} SplitAllJoin(fs: seq<string>, sep: char)
    requires |fs| >= 1
    requires forall k :: 0 <= k < |fs| ==> sep !in fs[k]
    ensures SplitAll(Join(fs, sep), sep) == fs
  {
    if |fs| == 1 {
      SplitAllNoSep(fs[0], sep);
    } else {
      var init := fs[..|fs| - 1];
      SplitAllJoin(init, sep);
      SplitAllConcat(Join(init, sep), sep, fs[|fs| - 1]);
      SplitAllNoSep(fs[|fs| - 1], sep);
      assert init + [fs[|fs| - 1]] == fs;
    }
  }

  /**
   * Ruby's `split` undoes `join` when no field is empty and none holds the
   * separator.
   */
  lemma SplitJoin(fs: seq<string>, sep: char)
    requires forall k :: 0 <= k < |fs| ==> fs[k] != [] && sep !in fs[k]
    ensures Split(Join(fs, sep), sep) == fs
  {
    if fs != [] {
      SplitAllJoin(fs, sep);
    }
  }

  /**
   * Rejoining what `split` returns gives the string without its trailing
   * separators: the fields `split` drops are exactly the trailing ones.
   */
  lemma {:induction false} JoinSplit(s: string, sep: char)
    ensures Join(Split(s, sep), sep) == TrimEnd(s, sep)
    ensures Split(s, sep) == [] <==> TrimEnd(s, sep) == []
  {
    if s != [] {
      var init, c := s[..|s| - 1], s[|s| - 1];
      var f := SplitAll(init, sep);
      if c == sep {
        JoinSplit(init, sep);
        assert (f + [[]])[..|f|] == f;
      } else {
        JoinSplitAll(s, sep);
      }
    }
  }

  /** How dropping trailing empty fields treats a field put in front. */
  lemma {:induction false} DropTrailingEmptyCons(k: string, fs: seq<string>)
    ensures DropTrailingEmpty([k] + fs) ==
      if DropTrailingEmpty(fs) == [] then (if k == [] then [] else [k])
      else [k] + DropTrailingEmpty(fs)
  {
    var g := [k] + fs;
    if fs != [] {
      var init := fs[..|fs| - 1];
      assert g[..|g| - 1] == [k] + init && g[|g| - 1] == fs[|fs| - 1];
      if fs[|fs| - 1] == [] {
        assert DropTrailingEmpty(g) == DropTrailingEmpty([k] + init);
        assert DropTrailingEmpty(fs) == DropTrailingEmpty(init);
        DropTrailingEmptyCons(k, init);
      } else {
        assert DropTrailingEmpty(g) == g && DropTrailingEmpty(fs) == fs;
      }
    } else {
      assert g == [k] && g[..0] == [];
    }
  }

  /** The number of leading characters of `s` that are not whitespace. */
  function WordLength(s: string): (n: nat)
    ensures n <= |s|
    ensures forall k :: 0 <= k < n ==> !IsSpace(s[k])
    ensures n < |s| ==> IsSpace(s[n])
  {
    if s == [] || IsSpace(s[0]) then 0 else 1 + WordLength(s[1..])
  }

  /** The no-argument `String#split`: the maximal runs of non-whitespace. */
  function Words(s: string): (r: seq<string>)
    ensures forall k :: 0 <= k < |r| ==> r[k] != []
    decreases |s|
  {
    if s == [] then []
    else if IsSpace(s[0]) then Words(s[1..])
    else
      var n := WordLength(s);
      [s[..n]] + Words(s[n..])
  }

  predicate NoSpace(s: string) {
    forall k :: 0 <= k < |s| ==> !IsSpace(s[k])
  }

  predicate AllSpace(s: string) {
    forall k :: 0 <= k < |s| ==> IsSpace(s[k])
  }

  lemma {:induction false} WordsSkipSpace(w: string, rest: string)
    requires AllSpace(w)
    ensures Words(w + rest) == Words(rest)
  {
    if w != [] {
      var s := w + rest;
      assert s[0] == w[0] && IsSpace(w[0]);
      assert s[1..] == w[1..] + rest;
      assert AllSpace(w[1..]) by {
        forall k | 0 <= k < |w| - 1 ensures IsSpace(w[1..][k]) {
          assert w[1..][k] == w[k + 1];
        }
      }
      WordsSkipSpace(w[1..], rest);
      assert Words(s) == Words(s[1..]);
    } else {
      assert w + rest == rest;
    }
  }

  /** A word followed by whitespace is the first word; the rest is split on its own. */
  lemma WordsCons(a: string, w: string, rest: string)
    requires a != [] && NoSpace(a)
    requires w != [] && AllSpace(w)
    ensures Words(a + w + rest) == [a] + Words(rest)
  {
    var s := a + w + rest;
    assert WordLength(s) == |a| by {
      assert IsSpace(s[|a|]);
      assert forall k :: 0 <= k < |a| ==> !IsSpace(s[k]);
    }
    assert s[..|a|] == a;
    assert s[|a|..] == w + rest;
    WordsSkipSpace(w, rest);
  }

  lemma WordsSingle(a: string)
    requires a != [] && NoSpace(a)
    ensures Words(a) == [a]
  {
    var s := a + [' '] + [];
    WordsCons(a, [' '], []);
    assert WordLength(a) == |a| by {
      assert forall k :: 0 <= k < |a| ==> !IsSpace(a[k]);
    }
    assert a[..|a|] == a && a[|a|..] == [];
  }

  predicate IsDigit(c: char) {
    '0' <= c <= '9'
  }

  /** The number of leading decimal digits of `s`. */
  function DigitRun(s: string): (n: nat)
    ensures n <= |s|
    ensures forall k :: 0 <= k < n ==> IsDigit(s[k])
    ensures n < |s| ==> !IsDigit(s[n])
  {
    if s == [] || !IsDigit(s[0]) then 0 else 1 + DigitRun(s[1..])
  }

  function DigitsValue(d: string): nat
    requires forall k :: 0 <= k < |d| ==> IsDigit(d[k])
  {
    if d == [] then 0
    else
      assert IsDigit(d[|d| - 1]);
      10 * DigitsValue(d[..|d| - 1]) + (d[|d| - 1] as int - '0' as int)
  }

  function Pow10(n: nat): (r: nat)
    ensures r >= 1
  {
    if n == 0 then 1 else 10 * Pow10(n - 1)
  }

  /** `s` without its leading whitespace (`\s`). */
  function SkipSpace(s: string): (r: string)
    ensures |r| <= |s|
    ensures r == [] || !IsSpace(r[0])
    ensures forall k :: 0 <= k < |s| - |r| ==> IsSpace(s[k])
  {
    if s != [] && IsSpace(s[0]) then SkipSpace(s[1..]) else s
  }

  lemma {:induction false} SkipSpaceSuffix(s: string)
    ensures SkipSpace(s) == s[|s| - |SkipSpace(s)|..]
  {
    if s != [] && IsSpace(s[0]) {
      SkipSpaceSuffix(s[1..]);
    }
  }

  /** The value of the digits after a decimal point. */
  function Decimal(f: string): real
    requires forall k :: 0 <= k < |f| ==> IsDigit(f[k])
  {
    (DigitsValue(f) as real) / (Pow10(|f|) as real)
  }

  /** The value of `.digits` at the start of `rest`, 0 when `rest` does not start with `.`. */
  function Fraction(rest: string): real {
    if rest != [] && rest[0] == '.' then Decimal(rest[1..][..DigitRun(rest[1..])]) else 0.0
  }

  /** The value of the leading `digits` or `digits.digits` of `u`. */
  function Unsigned(u: string): real {
    var n := DigitRun(u);
    DigitsValue(u[..n]) as real + Fraction(u[n..])
  }

  /**
   * `String#to_f` restricted to an optional sign, digits and an optional
   * fraction: it reads the longest such prefix and yields 0 when there is none.
   */
  function ToF(s: string): real {
    var t := SkipSpace(s);
    var u := if t != [] && (t[0] == '-' || t[0] == '+') then t[1..] else t;
    if t != [] && t[0] == '-' then -Unsigned(u) else Unsigned(u)
  }

  predicate AllDigits(d: string) {
    forall k :: 0 <= k < |d| ==> IsDigit(d[k])
  }

  lemma {:induction false} DigitRunConcat(d: string, rest: string)
    requires AllDigits(d)
    requires rest == [] || !IsDigit(rest[0])
    ensures DigitRun(d + rest) == |d|
  {
    if d != [] {
      assert (d + rest)[1..] == d[1..] + rest;
      DigitRunConcat(d[1..], rest);
    } else {
      assert d + rest == rest;
    }
  }

  lemma ToFDigitStart(s: string)
    requires s != [] && IsDigit(s[0])
    ensures ToF(s) == Unsigned(s)
  {
    assert SkipSpace(s) == s;
  }

  lemma UnsignedDigits(d: string, tail: string)
    requires AllDigits(d)
    requires tail == [] || !IsDigit(tail[0])
    ensures Unsigned(d + tail) == DigitsValue(d) as real + Fraction(tail)
  {
    DigitRunConcat(d, tail);
    assert (d + tail)[..|d|] == d && (d + tail)[|d|..] == tail;
  }

  /** Digits followed by a character that continues no number (not a digit, `.`, `e`, `E` or `_`) read as their integer value. */
  lemma ToFInteger(d: string, rest: string)
    requires d != [] && AllDigits(d)
    requires rest == [] || (!IsDigit(rest[0]) && rest[0] !in ".eE_")
    ensures ToF(d + rest) == DigitsValue(d) as real
  {
    assert (d + rest)[0] == d[0];
    ToFDigitStart(d + rest);
    UnsignedDigits(d, rest);
  }

  /** Digits, a point and digits read as the decimal number they spell. */
  lemma ToFDecimal(d: string, f: string, rest: string)
    requires d != [] && AllDigits(d) && AllDigits(f)
    requires rest == [] || (!IsDigit(rest[0]) && rest[0] !in "eE_")
    ensures ToF(d + ['.'] + f + rest) == DigitsValue(d) as real + Decimal(f)
  {
    var tail := ['.'] + f + rest;
    var s := d + tail;
    assert s == d + ['.'] + f + rest;
    assert s[0] == d[0];
    ToFDigitStart(s);
    UnsignedDigits(d, tail);
    FractionDigits(f, rest);
  }

  lemma FractionDigits(f: string, rest: string)
    requires AllDigits(f)
    requires rest == [] || !IsDigit(rest[0])
    ensures Fraction(['.'] + f + rest) == Decimal(f)
  {
    var tail := ['.'] + f + rest;
    assert tail[1..] == f + rest;
    DigitRunConcat(f, rest);
    assert (f + rest)[..|f|] == f;
  }

  /** A text that starts with no sign, digit, point or whitespace reads as 0. */
  lemma ToFNotNumber(s: string)
    requires s == [] || (!IsSpace(s[0]) && !IsDigit(s[0]) && s[0] !in "+-.")
    ensures ToF(s) == 0.0
  {
  }

  /** The length of the first line of `text`, its newline included. */
  function LineLength(text: string): (n: nat)
    requires text != []
    ensures 1 <= n <= |text|
    ensures forall k :: 0 <= k < n - 1 ==> text[k] != '\n'
    ensures n < |text| ==> text[n - 1] == '\n'
  {
    if text[0] == '\n' || |text| == 1 then 1 else 1 + LineLength(text[1..])
  }

  function Concat(ls: seq<string>): string {
    if ls == [] then [] else ls[0] + Concat(ls[1..])
  }

  /**
   * `IO#each`: the lines of `text`, each keeping its terminating newline.
   * No line is empty, a newline can only be a line's last character, and
   * every line but the last ends with one.
   */
  function Lines(text: string): (r: seq<string>)
    ensures Concat(r) == text
    ensures forall j :: 0 <= j < |r| ==> r[j] != []
    ensures forall j, k :: 0 <= j < |r| && 0 <= k < |r[j]| - 1 ==> r[j][k] != '\n'
    ensures forall j :: 0 <= j < |r| - 1 ==> r[j][|r[j]| - 1] == '\n'
    decreases |text|
  {
    if text == [] then []
    else
      var n := LineLength(text);
      var rest := Lines(text[n..]);
      assert text[..n] + text[n..] == text;
      [text[..n]] + rest
  }

  /** A first line that ends at its only newline is split off as it stands. */
  lemma LinesCons(a: string, b: string)
    requires '\n' !in a
    ensures Lines(a + ['\n'] + b) == [a + ['\n']] + Lines(b)
  {
    var line := a + ['\n'];
    var text := line + b;
    var n := LineLength(text);
    assert text[|a|] == '\n';
    assert forall k :: 0 <= k < |a| ==> text[k] == a[k];
    assert text[..n] == line && text[n..] == b;
  }
}
