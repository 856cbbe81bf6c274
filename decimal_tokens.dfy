/**
 * The decimal-number extractor shared by the GUPS throughput readers: every
 * whitespace-separated token of the input, with its trailing commas dropped,
 * that is neither a `0x` hexadecimal token nor anything but decimal digits,
 * contributes its integer value, in file order. Also the argument checks and
 * exit codes of the scripts built on it.
 */
module DecimalTokens {
  import opened Outcomes

  // ---------------------------------------------------------------------------
  // Whitespace, strip() and split()
  // ---------------------------------------------------------------------------

  /** The characters Python's `str.isspace` accepts. */
  const Whitespace: set<char> := {
    ' ', '\t', '\n', '\r', '\U{0B}', '\U{0C}', '\U{1C}', '\U{1D}', '\U{1E}', '\U{1F}', '\U{85}', '\U{A0}',
    '\U{1680}', '\U{2000}', '\U{2001}', '\U{2002}', '\U{2003}', '\U{2004}', '\U{2005}', '\U{2006}',
    '\U{2007}', '\U{2008}', '\U{2009}', '\U{200A}', '\U{2028}', '\U{2029}', '\U{202F}', '\U{205F}', '\U{3000}'
  }

  /** The characters Python's `str.isspace` accepts. */
  predicate IsSpace(c: char) {
    c in Whitespace
  }

  predicate AllSpace(s: string) {
    forall i | 0 <= i < |s| :: IsSpace(s[i])
  }

  /** A token of `split()`: non-empty and free of whitespace. */
  predicate IsWord(w: string) {
    |w| > 0 && forall i | 0 <= i < |w| :: !IsSpace(w[i])
  }

  /** `s.lstrip()`. */
  function StripLeft(s: string): string {
    if |s| > 0 && IsSpace(s[0]) then StripLeft(s[1..]) else s
  }

  /** `s.rstrip()`. */
  function StripRight(s: string): string {
    if |s| > 0 && IsSpace(s[|s| - 1]) then StripRight(s[..|s| - 1]) else s
  }

  /** `s.rstrip()` drops exactly the trailing whitespace. */
  lemma {:induction false} StripRightShape(s: string)
    ensures var r := StripRight(s);
            && |r| <= |s| && r == s[..|r|]
            && AllSpace(s[|r|..])
            && (|r| == 0 || !IsSpace(r[|r| - 1]))
  {
    if |s| > 0 && IsSpace(s[|s| - 1]) {
      StripRightShape(s[..|s| - 1]);
      var r := StripRight(s);
      assert s[..|s| - 1][..|r|] == s[..|r|];
      assert forall i | |r| <= i < |s| - 1 :: s[..|s| - 1][|r|..][i - |r|] == s[i];
    }
  }

  /** `s.strip()`. */
  function Strip(s: string): string {
    StripRight(StripLeft(s))
  }

  /** The length of the leading run of non-whitespace characters. */
  function WordLength(s: string): (k: nat)
    ensures k <= |s|
    ensures forall i | 0 <= i < k :: !IsSpace(s[i])
    ensures k == |s| || IsSpace(s[k])
  {
    if |s| == 0 || IsSpace(s[0]) then 0 else 1 + WordLength(s[1..])
  }

  /** `s.split()`: the maximal whitespace-free runs, in order. */
  function Words(s: string): (ws: seq<string>)
    ensures forall k | 0 <= k < |ws| :: IsWord(ws[k])
    decreases |s|
  {
    if |s| == 0 then []
    else if IsSpace(s[0]) then Words(s[1..])
    else
      var k := WordLength(s);
      [s[..k]] + Words(s[k..])
  }

  lemma {:induction false} SpacesHaveNoWords(t: string)
    requires AllSpace(t)
    ensures Words(t) == []
  {
    if |t| > 0 {
      SpacesHaveNoWords(t[1..]);
    }
  }

  lemma {:induction false} LeadingSpacesIgnored(s: string)
    ensures Words(StripLeft(s)) == Words(s)
  {
    if |s| > 0 && IsSpace(s[0]) {
      LeadingSpacesIgnored(s[1..]);
    }
  }

  lemma {:induction false} TrailingSpacesIgnored(s: string, t: string)
    requires AllSpace(t)
    ensures Words(s + t) == Words(s)
    decreases |s|
  {
    if |s| == 0 {
      assert s + t == t;
      SpacesHaveNoWords(t);
    } else if IsSpace(s[0]) {
      assert (s + t)[1..] == s[1..] + t;
      TrailingSpacesIgnored(s[1..], t);
    } else {
      var k := WordLength(s);
      var k' := WordLength(s + t);
      if k < |s| {
        assert k' == k by {
          WordLengthPrefix(s, t, k);
        }
        assert (s + t)[k..] == s[k..] + t;
        assert (s + t)[..k] == s[..k];
        TrailingSpacesIgnored(s[k..], t);
      } else {
        WordLengthPrefix(s, t, k);
        assert (s + t)[..k] == s[..k];
        assert (s + t)[k..] == t;
        SpacesHaveNoWords(t);
        assert s[k..] == [];
      }
    }
  }

  /** A whitespace character at `k` (in `s`, or the start of the all-space `t`) ends the first word at `k`. */
  lemma WordLengthPrefix(s: string, t: string, k: nat)
    requires k == WordLength(s) && AllSpace(t)
    ensures WordLength(s + t) == k
  {
    var k' := WordLength(s + t);
    if k < |s| {
      assert (s + t)[k] == s[k];
    } else if |t| > 0 {
      assert (s + t)[k] == t[0];
    }
  }

  /** `line.strip().split()` splits the same as `line.split()`. */
  lemma StripKeepsWords(s: string)
    ensures Words(Strip(s)) == Words(s)
  {
    var l := StripLeft(s);
    var r := StripRight(l);
    StripRightShape(l);
    assert l == r + l[|r|..];
    TrailingSpacesIgnored(r, l[|r|..]);
    LeadingSpacesIgnored(s);
  }

  // ---------------------------------------------------------------------------
  // Token classification
  // ---------------------------------------------------------------------------

  /** `tok.rstrip(',')`. */
  function StripCommas(t: string): (r: string)
    ensures |r| <= |t| && r == t[..|r|]
    ensures forall i | |r| <= i < |t| :: t[i] == ','
    ensures |r| == 0 || r[|r| - 1] != ','
  {
    if |t| > 0 && t[|t| - 1] == ',' then StripCommas(t[..|t| - 1]) else t
  }

  /** `tok.lower().startswith("0x")`. */
  predicate IsHexPrefixed(t: string) {
    |t| >= 2 && t[0] == '0' && (t[1] == 'x' || t[1] == 'X')
  }

  predicate IsDigit(c: char) {
    '0' <= c <= '9'
  }

  /** `tok.isdigit()` over ASCII digits. */
  predicate IsDecimal(t: string) {
    |t| > 0 && forall i | 0 <= i < |t| :: IsDigit(t[i])
  }

  /** The token after `tok.strip().rstrip(',')`. */
  function Cleaned(tok: string): string {
    StripCommas(Strip(tok))
  }

  /**
   * The tokens the extractor keeps: not `0x`-prefixed and all decimal digits.
   * The hexadecimal test never decides anything, since `x` is not a digit.
   */
  predicate Accepts(tok: string) {
    var t := Cleaned(tok);
    !IsHexPrefixed(t) && IsDecimal(t)
  }

  lemma HexTestRedundant(tok: string)
    ensures Accepts(tok) <==> IsDecimal(Cleaned(tok))
  {
    var t := Cleaned(tok);
    if IsDecimal(t) && |t| >= 2 {
      assert IsDigit(t[1]);
    }
  }

  /** `int(t)` for a string of decimal digits. */
  function DecimalValue(t: string): nat
    requires forall i | 0 <= i < |t| :: IsDigit(t[i])
  {
    if |t| == 0 then 0
    else
      assert IsDigit(t[|t| - 1]);
      DecimalValue(t[..|t| - 1]) * 10 + (t[|t| - 1] as int - '0' as int)
  }

  /** `str(n)`: the decimal digits of `n`, without leading zeros. */
  function DecimalString(n: nat): (t: string)
    ensures IsDecimal(t)
    ensures |t| > 1 ==> t[0] != '0'
  {
    var d := [('0' as int + n % 10) as char];
    if n < 10 then d else DecimalString(n / 10) + d
  }

  /** Reading back the decimal digits of `n` gives `n`. */
  lemma {:induction false} DecimalRoundTrip(n: nat)
    ensures DecimalValue(DecimalString(n)) == n
  {
    var t := DecimalString(n);
    if n >= 10 {
      DecimalRoundTrip(n / 10);
      assert t[..|t| - 1] == DecimalString(n / 10);
    }
  }

  // ---------------------------------------------------------------------------
  // extract_numbers_from_file / parse_cgups
  // ---------------------------------------------------------------------------

  /** The tokens of one line: `line.strip().split()`. */
  function Tokens(line: string): seq<string> {
    Words(Strip(line))
  }

  /** The value of a token as a list: its number when accepted, nothing otherwise. */
  function TokenValue(tok: string): seq<nat> {
    if Accepts(tok) then [DecimalValue(Cleaned(tok))] else []
  }

  /** The values of the accepted tokens of `toks`, in order. */
  function Accepted(toks: seq<string>): seq<nat> {
    FlatMap(TokenValue, toks)
  }

  /** The numbers of one line. */
  function LineNumbers(line: string): seq<nat> {
    Accepted(Tokens(line))
  }

  /** The numbers of a file, line by line. */
  function NumbersOf(lines: seq<string>): seq<nat> {
    FlatMap(LineNumbers, lines)
  }

  /** The lists `f` gives the first `n` elements of `xs`, concatenated in order. */
  function FlatMapUpTo<T>(f: T -> seq<nat>, xs: seq<T>, n: nat): seq<nat>
    requires n <= |xs|
  {
    if n == 0 then [] else FlatMapUpTo(f, xs, n - 1) + f(xs[n - 1])
  }

  function FlatMap<T>(f: T -> seq<nat>, xs: seq<T>): seq<nat> {
    FlatMapUpTo(f, xs, |xs|)
  }

  /** What the first `n` elements contribute depends on those elements only. */
  lemma {:induction false} FlatMapPrefix<T>(f: T -> seq<nat>, xs: seq<T>, ys: seq<T>, n: nat)
    requires n <= |xs| && n <= |ys| && xs[..n] == ys[..n]
    ensures FlatMapUpTo(f, xs, n) == FlatMapUpTo(f, ys, n)
  {
    if n > 0 {
      assert xs[n - 1] == ys[n - 1];
      assert xs[..n - 1] == ys[..n - 1];
      FlatMapPrefix(f, xs, ys, n - 1);
    }
  }

  lemma {:induction false} FlatMapUpToAppend<T>(f: T -> seq<nat>, xs: seq<T>, ys: seq<T>, n: nat)
    requires n <= |ys|
    ensures FlatMapUpTo(f, xs + ys, |xs| + n) == FlatMap(f, xs) + FlatMapUpTo(f, ys, n)
  {
    if n == 0 {
      assert (xs + ys)[..|xs|] == xs[..|xs|];
      FlatMapPrefix(f, xs + ys, xs, |xs|);
    } else {
      FlatMapUpToAppend(f, xs, ys, n - 1);
      assert (xs + ys)[|xs| + n - 1] == ys[n - 1];
    }
  }

  /** Flattening a concatenation flattens each part in turn. */
  lemma FlatMapAppend<T>(f: T -> seq<nat>, xs: seq<T>, ys: seq<T>)
    ensures FlatMap(f, xs + ys) == FlatMap(f, xs) + FlatMap(f, ys)
  {
    FlatMapUpToAppend(f, xs, ys, |ys|);
  }

  /** The loop of `extract_numbers_from_file` (and of `parse_cgups`). */
  method ExtractNumbers(lines: seq<string>) returns (nums: seq<nat>)
    ensures nums == NumbersOf(lines)
  {
    nums := [];
    for i := 0 to |lines|
      invariant nums == FlatMapUpTo(LineNumbers, lines, i)
    {
      nums := AppendAccepted(nums, Tokens(lines[i]));
    }
  }

  /** The inner loop over the tokens of one line: append the value of each accepted token. */
  method AppendAccepted(nums0: seq<nat>, tokens: seq<string>) returns (nums: seq<nat>)
    ensures nums == nums0 + Accepted(tokens)
  {
    nums := nums0;
    for j := 0 to |tokens|
      invariant nums == nums0 + FlatMapUpTo(TokenValue, tokens, j)
    {
      var tok := Cleaned(tokens[j]);
      if IsHexPrefixed(tok) {
        continue;
      }
      if IsDecimal(tok) {
        nums := nums + [DecimalValue(tok)];
      }
    }
  }

  /** The numbers of a file are those of its first part followed by those of the rest. */
  lemma NumbersAppend(a: seq<string>, b: seq<string>)
    ensures NumbersOf(a + b) == NumbersOf(a) + NumbersOf(b)
  {
    FlatMapAppend(LineNumbers, a, b);
  }

  /** The accepted values of two runs of tokens are those of the first followed by those of the second. */
  lemma AcceptedAppend(xs: seq<string>, ys: seq<string>)
    ensures Accepted(xs + ys) == Accepted(xs) + Accepted(ys)
  {
    FlatMapAppend(TokenValue, xs, ys);
  }

  /** The numbers written out as `n0, n1, ..., ` on one line. */
  function Render(ns: seq<nat>): string {
    if |ns| == 0 then "" else DecimalString(ns[0]) + ", " + Render(ns[1..])
  }

  /** The tokens of a rendered line: each number's digits followed by its comma. */
  function RenderedTokens(ns: seq<nat>): (toks: seq<string>)
    ensures |toks| == |ns|
  {
    if |ns| == 0 then [] else [DecimalString(ns[0]) + ","] + RenderedTokens(ns[1..])
  }

  lemma {:induction false} RenderWords(ns: seq<nat>)
    ensures Words(Render(ns)) == RenderedTokens(ns)
  {
    if |ns| > 0 {
      var w := DecimalString(ns[0]) + ",";
      var rest := Render(ns[1..]);
      var s := Render(ns);
      assert s == w + " " + rest;
      DecimalHasNoSpace(ns[0]);
      assert s[..|w|] == w;
      assert s[|w|] == ' ';
      WordLengthOf(s, w);
      assert s[|w|..] == " " + rest;
      assert Words(" " + rest) == Words(rest) by {
        assert (" " + rest)[1..] == rest;
      }
      RenderWords(ns[1..]);
    }
  }

  lemma WordLengthOf(s: string, w: string)
    requires IsWord(w) && |w| < |s| && s[..|w|] == w && IsSpace(s[|w|])
    ensures WordLength(s) == |w|
  {
    assert forall i | 0 <= i < |w| :: s[i] == w[i];
  }

  lemma DecimalHasNoSpace(n: nat)
    ensures IsWord(DecimalString(n) + ",")
  {
    var t := DecimalString(n);
    assert forall i | 0 <= i < |t| :: IsDigit(t[i]);
  }

  /** Each rendered token cleans back to the digits of its number. */
  lemma RenderedTokenAccepted(n: nat)
    ensures Accepted([DecimalString(n) + ","]) == [n]
  {
    var t := DecimalString(n);
    var w := t + ",";
    DecimalHasNoSpace(n);
    assert StripLeft(w) == w;
    assert StripRight(w) == w;
    assert w[..|w| - 1] == t;
    assert StripCommas(w) == t;
    assert Cleaned(w) == t;
    DecimalRoundTrip(n);
    assert Accepts(w);
    assert [w][0] == w;
    assert FlatMapUpTo(TokenValue, [w], 0) == [];
  }

  lemma {:induction false} AcceptedRendered(ns: seq<nat>)
    ensures Accepted(RenderedTokens(ns)) == ns
  {
    if |ns| > 0 {
      var first := DecimalString(ns[0]) + ",";
      var rest := RenderedTokens(ns[1..]);
      assert RenderedTokens(ns) == [first] + rest;
      AcceptedAppend([first], rest);
      RenderedTokenAccepted(ns[0]);
      AcceptedRendered(ns[1..]);
      assert ns == [ns[0]] + ns[1..];
    }
  }

  /** A line of comma-separated decimal numbers is read back as those numbers. */
  lemma RenderRoundTrip(ns: seq<nat>)
    ensures NumbersOf([Render(ns)]) == ns
  {
    var line := Render(ns);
    OneLine(line);
    TokensOfRender(ns);
    AcceptedRendered(ns);
  }

  lemma OneLine(line: string)
    ensures NumbersOf([line]) == Accepted(Tokens(line))
  {
    assert [line][0] == line;
    var x := LineNumbers(line);
    assert FlatMapUpTo(LineNumbers, [line], 1) == FlatMapUpTo(LineNumbers, [line], 0) + x;
    assert [] + x == x;
  }

  lemma TokensOfRender(ns: seq<nat>)
    ensures Tokens(Render(ns)) == RenderedTokens(ns)
  {
    StripKeepsWords(Render(ns));
    RenderWords(ns);
  }

  /** `parse_cgups`: the numbers of the file, with the index list `0 .. len - 1`. */
  method ParseCgups(lines: seq<string>) returns (indices: seq<nat>, nums: seq<nat>)
    ensures nums == NumbersOf(lines)
    ensures |indices| == |nums|
    ensures forall k | 0 <= k < |indices| :: indices[k] == k
  {
    nums := ExtractNumbers(lines);
    indices := seq(|nums|, k requires 0 <= k < |nums| => k);
  }

  // ---------------------------------------------------------------------------
  // check_args and parse_stream
  // ---------------------------------------------------------------------------

  /**
   * `check_args` as intended: 1 when an input is not a file, otherwise the labels default
   * to one empty string per input and 1 when their count differs from the
   * inputs'; `None` when the arguments are fine. `isFile` stands for
   * `os.path.isfile`.
   */
  method CheckArgs(inputs: seq<string>, labels: Option<seq<string>>, isFile: string -> bool)
    returns (code: Option<int>, newLabels: Option<seq<string>>)
    ensures (exists i | 0 <= i < |inputs| :: !isFile(inputs[i])) ==> code == Some(1) && newLabels == labels
    ensures (forall i | 0 <= i < |inputs| :: isFile(inputs[i])) ==>
              && newLabels == Some(if labels.None? then seq(|inputs|, _ => "") else labels.value)
              && (code == Some(1) <==> |newLabels.value| != |inputs|)
              && (code != Some(1) ==> code == None)
  {
    for i := 0 to |inputs|
      invariant forall k | 0 <= k < i :: isFile(inputs[k])
    {
      if !isFile(inputs[i]) {
        return Some(1), labels;
      }
    }
    newLabels := labels;
    if labels.None? {
      newLabels := Some(seq(|inputs|, _ => ""));
    }
    if |inputs| != |newLabels.value| {
      return Some(1), newLabels;
    }
    code := None;
  }

  /** How `check_args` as written ends: it returns (a code or `None`, and the labels), or raises `NameError`. */
  datatype CheckOutcome = Returned(code: Option<int>, newLabels: Option<seq<string>>) | NameErrorRaised

  /**
   * `check_args` as written: parse_apps.py never imports `sys`, so the
   * message for a missing input, printed to `sys.stderr`, raises `NameError`
   * before `return 1` is reached. With every input present it behaves as
   * `CheckArgs`.
   */
  method CheckArgsAsWritten(inputs: seq<string>, labels: Option<seq<string>>, isFile: string -> bool)
    returns (r: CheckOutcome)
    ensures r.NameErrorRaised? <==> exists i | 0 <= i < |inputs| :: !isFile(inputs[i])
    ensures r.Returned? ==>
              && r.newLabels == Some(if labels.None? then seq(|inputs|, _ => "") else labels.value)
              && (r.code == Some(1) <==> |r.newLabels.value| != |inputs|)
              && (r.code != Some(1) ==> r.code == None)
  {
    for i := 0 to |inputs|
      invariant forall k | 0 <= k < i :: isFile(inputs[k])
    {
      if !isFile(inputs[i]) {
        return NameErrorRaised;
      }
    }
    var code, newLabels := CheckArgs(inputs, labels, isFile);
    r := Returned(code, newLabels);
  }

  /** What `parse_stream` returns: a bare list, or the index list and the values. */
  datatype StreamTimes = Bare(vals: seq<real>) | Indexed(indices: seq<nat>, vals: seq<real>)

  /** The iteration times among the first `n` per-line match results. */
  function TimesUpTo(matches: seq<Option<real>>, n: nat): (ts: seq<real>)
    requires n <= |matches|
    ensures |ts| <= n
  {
    if n == 0 then []
    else TimesUpTo(matches, n - 1) + if matches[n - 1].Some? then [matches[n - 1].value] else []
  }

  /**
   * `parse_stream`: `matches[i]` is the converted time the iteration pattern finds
   * on line `i`, if any. A missing file yields a bare empty list, not a pair.
   */
  method ParseStream(fileExists: bool, matches: seq<Option<real>>) returns (r: StreamTimes)
    ensures !fileExists ==> r == Bare([])
    ensures fileExists ==> r.Indexed? && r.vals == TimesUpTo(matches, |matches|)
    ensures fileExists ==> |r.indices| == |r.vals| && forall k | 0 <= k < |r.indices| :: r.indices[k] == k
  {
    var vals: seq<real> := [];
    if !fileExists {
      return Bare(vals);
    }
    for i := 0 to |matches|
      invariant vals == TimesUpTo(matches, i)
    {
      if matches[i].Some? {
        vals := vals + [matches[i].value];
      }
    }
    r := Indexed(seq(|vals|, k requires 0 <= k < |vals| => k), vals);
  }

  // ---------------------------------------------------------------------------
  // plot_cgups: plot_numbers and main
  // ---------------------------------------------------------------------------

  /** `plot_numbers`: 2 on an empty list; otherwise 0, plotting `nums` against `0 .. len - 1`. */
  function PlotNumbers(nums: seq<nat>): (r: (int, seq<nat>))
    ensures r.0 == 2 <==> |nums| == 0
    ensures r.0 != 2 ==> r.0 == 0
    ensures |nums| > 0 ==> |r.1| == |nums| && forall k | 0 <= k < |r.1| :: r.1[k] == k
  {
    if |nums| == 0 then (2, []) else (0, seq(|nums|, k requires 0 <= k < |nums| => k))
  }

  /** ASCII `str.lower` on one character. */
  function Lower(c: char): char {
    if 'A' <= c <= 'Z' then (c as int + 32) as char else c
  }

  /** `"cgups" in name.lower()`. */
  predicate NamesCgups(name: string) {
    exists i | 0 <= i <= |name| - 5 ::
      Lower(name[i]) == 'c' && Lower(name[i + 1]) == 'g' && Lower(name[i + 2]) == 'u'
      && Lower(name[i + 3]) == 'p' && Lower(name[i + 4]) == 's'
  }

  /**
   * The exit code of `plot_cgups.py`: 3 when the input name lacks `cgups`
   * (checked first, whether or not the file exists), 4 when the input is not a
   * file, then `plot_numbers` on the file's numbers.
   */
  function CgupsMain(input: string, isFile: bool, lines: seq<string>): (code: int)
    ensures code == 3 <==> !NamesCgups(input)
    ensures code == 4 <==> NamesCgups(input) && !isFile
    ensures code == 2 <==> NamesCgups(input) && isFile && |NumbersOf(lines)| == 0
    ensures code == 0 <==> NamesCgups(input) && isFile && |NumbersOf(lines)| > 0
  {
    if !NamesCgups(input) then 3
    else if !isFile then 4
    else PlotNumbers(NumbersOf(lines)).0
  }
}
