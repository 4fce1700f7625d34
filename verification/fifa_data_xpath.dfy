/** The four row-indexed XPath templates that locate one table row's cells,
    and the `String.format` call that fills in the row index. */
module FifaDataXPath {
  import opened JavaStrings
  import opened JavaIntegers

  /** The enum constants: one per extracted column. */
  datatype Field = Year | Winner | Score | RunnerUp

  /** The finals table on the Wikipedia page. */
  const TableContainer: string := "//*[@id=\"mw-content-text\"]/div[1]/table[4]"


  /** The cell step that tells the four templates apart. */
  function CellSuffix(f: Field): string {
    match f
    case Year => "th/a"
    case Winner => "td[1]/a"
    case Score => "td[2]/a[1]"
    case RunnerUp => "td[3]/span/a"
  }

  /** Everything a template holds before its `%d`. */
  const RowHead: string := TableContainer + "/tbody/tr["

  /** Everything a template holds after its `%d`. */
  function CellTail(f: Field): string {
    "]/" + CellSuffix(f)
  }

  /** The template of each constant, exactly as declared: the table path and
      row step, a single `%d` inside `tr[...]`, and the field's cell step. */
  function Pattern(f: Field): (p: string)
    ensures p == RowHead + "%d" + CellTail(f)
  {
    match f
    case Year => YearTemplate(); "//*[@id=\"mw-content-text\"]/div[1]/table[4]/tbody/tr[%d]/th/a"
    case Winner => WinnerTemplate(); "//*[@id=\"mw-content-text\"]/div[1]/table[4]/tbody/tr[%d]/td[1]/a"
    case Score => ScoreTemplate(); "//*[@id=\"mw-content-text\"]/div[1]/table[4]/tbody/tr[%d]/td[2]/a[1]"
    case RunnerUp => RunnerUpTemplate(); "//*[@id=\"mw-content-text\"]/div[1]/table[4]/tbody/tr[%d]/td[3]/span/a"
  }

  lemma YearTemplate()
    ensures "//*[@id=\"mw-content-text\"]/div[1]/table[4]/tbody/tr[%d]/th/a" == RowHead + "%d" + CellTail(Year)
  {
  }

  lemma WinnerTemplate()
    ensures "//*[@id=\"mw-content-text\"]/div[1]/table[4]/tbody/tr[%d]/td[1]/a" == RowHead + "%d" + CellTail(Winner)
  {
  }

  lemma ScoreTemplate()
    ensures "//*[@id=\"mw-content-text\"]/div[1]/table[4]/tbody/tr[%d]/td[2]/a[1]" == RowHead + "%d" + CellTail(Score)
  {
  }

  lemma RunnerUpTemplate()
    ensures "//*[@id=\"mw-content-text\"]/div[1]/table[4]/tbody/tr[%d]/td[3]/span/a" == RowHead + "%d" + CellTail(RunnerUp)
  {
  }

  /** A format string that `String.format(p, int)` fills without error and
      without any other conversion: its only `%` starts a `%d`. */
  predicate IsSingleIntFormat(p: string) {
    |p| >= 2 &&
    if p[0] == '%' then p[1] == 'd' && '%' !in p[2..] else IsSingleIntFormat(p[1..])
  }

  /** Number of `%d` conversions in `s`. */
  function CountPlaceholders(s: string): nat {
    if |s| < 2 then 0
    else (if s[0] == '%' && s[1] == 'd' then 1 else 0) + CountPlaceholders(s[1..])
  }

  /** Position of the `%d` of a single-int format. */
  function PlaceholderIndex(p: string): (i: nat)
    requires IsSingleIntFormat(p)
    ensures i + 1 < |p| && p[i] == '%' && p[i + 1] == 'd'
    ensures '%' !in p[..i] && '%' !in p[i + 2..]
  {
    if p[0] == '%' then 0
    else
      var j := PlaceholderIndex(p[1..]);
      assert p[..j + 1] == [p[0]] + p[1..][..j];
      assert p[j + 3..] == p[1..][j + 2..];
      j + 1
  }

  /** `String.format(p, n)` for a single-`%d` format: the conversion is
      replaced by the decimal rendering of `n`, the rest copied verbatim. */
  function FormatInt(p: string, n: int): (r: string)
    requires IsSingleIntFormat(p)
    ensures var i := PlaceholderIndex(p); r == p[..i] + Decimal(n) + p[i + 2..]
  {
    var i := PlaceholderIndex(p);
    assert p == p[..i] + "%d" + p[i + 2..];
    FillPlaceholderSplit(p[..i], p[i + 2..], Decimal(n));
    FillPlaceholder(p, Decimal(n))
  }

  /** `p` with its one `%d` replaced by `text`. */
  function FillPlaceholder(p: string, text: string): string
    requires IsSingleIntFormat(p)
  {
    if p[0] == '%' then text + p[2..] else [p[0]] + FillPlaceholder(p[1..], text)
  }

  /** Text around one `%d` that holds no other `%` is a single-int format,
      and formatting replaces just that placeholder. */
  lemma FormatIntSplit(pre: string, post: string, n: int)
    requires '%' !in pre && '%' !in post
    ensures IsSingleIntFormat(pre + "%d" + post)
    ensures FormatInt(pre + "%d" + post, n) == pre + Decimal(n) + post
  {
    FillPlaceholderSplit(pre, post, Decimal(n));
  }

  lemma {:induction false} FillPlaceholderSplit(pre: string, post: string, text: string)
    requires '%' !in pre && '%' !in post
    ensures IsSingleIntFormat(pre + "%d" + post)
    ensures FillPlaceholder(pre + "%d" + post, text) == pre + text + post
  {
    var p := pre + "%d" + post;
    if pre == [] {
      assert p == "%d" + post;
      assert p[0] == '%' && p[1] == 'd' && p[2..] == post;
    } else {
      var rest := pre[1..];
      var q := rest + "%d" + post;
      assert pre == [pre[0]] + rest;
      assert p == [pre[0]] + q && p[1..] == q;
      FillPlaceholderSplit(rest, post, text);
      assert pre + text + post == [pre[0]] + (rest + text + post);
    }
  }

  /** Such text holds exactly one `%d`. */
  lemma {:induction false} OnePlaceholderSplit(pre: string, post: string)
    requires '%' !in pre && '%' !in post
    ensures CountPlaceholders(pre + "%d" + post) == 1
  {
    var p := pre + "%d" + post;
    if pre == [] {
      assert p[1..] == "d" + post;
      assert ("d" + post)[1..] == post;
      NoPercentNoPlaceholder(post);
    } else {
      assert p[1..] == pre[1..] + "%d" + post;
      OnePlaceholderSplit(pre[1..], post);
    }
  }

  lemma {:induction false} NoPercentNoPlaceholder(s: string)
    requires '%' !in s
    ensures CountPlaceholders(s) == 0
  {
    if |s| >= 2 {
      assert s[0] in s;
      NoPercentNoPlaceholder(s[1..]);
    }
  }

  /** The text around the placeholder holds no `%`. */
  lemma NoOtherPercent(f: Field)
    ensures '%' !in RowHead && '%' !in CellTail(f)
  {
    assert '%' !in RowHead;
    match f
    case Year => assert '%' !in CellTail(Year);
    case Winner => assert '%' !in CellTail(Winner);
    case Score => assert '%' !in CellTail(Score);
    case RunnerUp => assert '%' !in CellTail(RunnerUp);
  }

  /** Each template holds exactly one `%d`. */
  lemma PatternHasOnePlaceholder(f: Field)
    ensures IsSingleIntFormat(Pattern(f))
    ensures CountPlaceholders(Pattern(f)) == 1
  {
    NoOtherPercent(f);
    FormatIntSplit(RowHead, CellTail(f), 0);
    OnePlaceholderSplit(RowHead, CellTail(f));
  }

  /** `getFormattedXPath`: the template with its row index written in
      decimal. */
  function GetFormattedXPath(f: Field, index: Int32): (r: string)
    ensures r == RowHead + Decimal(index) + CellTail(f)
  {
    NoOtherPercent(f);
    FormatIntSplit(RowHead, CellTail(f), index);
    FormatInt(Pattern(f), index)
  }

  /** Every template starts with the table container path. */
  lemma PatternInTable(f: Field)
    ensures StartsWith(Pattern(f), TableContainer)
  {
    ConcatAssoc(RowHead, "%d", CellTail(f));
    ConcatAssoc(TableContainer, "/tbody/tr[", "%d" + CellTail(f));
    PrefixStartsWith(TableContainer, "/tbody/tr[" + ("%d" + CellTail(f)));
  }

  /** Every formatted XPath lies under the table container. */
  lemma FormattedXPathInTable(f: Field, index: Int32)
    ensures StartsWith(GetFormattedXPath(f, index), TableContainer)
  {
    HeadStartsWith(TableContainer, "/tbody/tr[", Decimal(index), CellTail(f));
  }

  lemma HeadStartsWith(a: string, b: string, c: string, d: string)
    ensures StartsWith(a + b + c + d, a)
  {
    assert (a + b + c + d)[..|a|] == a;
  }

  lemma PrefixStartsWith(a: string, b: string)
    ensures StartsWith(a + b, a)
  {
    assert (a + b)[..|a|] == a;
  }

  /** Two strings that each continue with `]` after a `]`-free head agree
      on that head. */
  lemma SameHeadBeforeBracket(a: string, x: string, b: string, y: string)
    requires a + x == b + y
    requires x != [] && x[0] == ']' && y != [] && y[0] == ']'
    requires ']' !in a && ']' !in b
    ensures a == b && x == y
  {
    assert a == (a + x)[..|a|];
    assert b == (b + y)[..|b|];
  }

  lemma DecimalHasNoBracket(n: int)
    ensures ']' !in Decimal(n)
  {
    var d := Decimal(n);
    if n < 0 {
      assert forall k :: 1 <= k < |d| ==> d[k] == d[1..][k - 1];
    }
  }

  lemma ConcatAssoc(a: string, b: string, c: string)
    ensures a + b + c == a + (b + c)
  {
  }

  lemma StripCommonPrefix(h: string, u: string, v: string)
    requires h + u == h + v
    ensures u == v
  {
    assert u == (h + u)[|h|..];
    assert v == (h + v)[|h|..];
  }

  /** For a fixed field, distinct row indices give distinct XPaths; for a
      fixed index, distinct fields do. */
  lemma FormattedXPathInjective(f: Field, i: Int32, g: Field, j: Int32)
    requires GetFormattedXPath(f, i) == GetFormattedXPath(g, j)
    ensures f == g && i == j
  {
    var x, y := CellTail(f), CellTail(g);
    var di, dj := Decimal(i), Decimal(j);
    assert RowHead + di + x == RowHead + dj + y;
    ConcatAssoc(RowHead, di, x);
    ConcatAssoc(RowHead, dj, y);
    StripCommonPrefix(RowHead, di + x, dj + y);
    DecimalHasNoBracket(i);
    DecimalHasNoBracket(j);
    SameHeadBeforeBracket(di, x, dj, y);
    DecimalInjective(i, j);
    CellTailInjective(f, g);
  }

  lemma CellTailInjective(f: Field, g: Field)
    requires CellTail(f) == CellTail(g)
    ensures f == g
  {
    StripCommonPrefix("]/", CellSuffix(f), CellSuffix(g));
    assert CellSuffix(f)[|CellSuffix(f)| - 1] == CellSuffix(g)[|CellSuffix(g)| - 1];
  }
}
