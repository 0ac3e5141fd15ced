/**
 * Completion of the last word typed at the prompt: complete a single match, extend to the
 * longest common prefix, or lay the candidates out in a grid that fits the terminal.
 */
module TabCompletion {
  import opened Wrappers
  import opened Text

  datatype TabResult =
    | SingleMatch(input: string)
    | CommonPrefix(input: string)
    | DisplayCompletions(currentLine: string, completionLines: seq<string>, displayAll: bool)
    | NoAction

  // ---------------------------------------------------------------------------
  // Longest common prefix
  // ---------------------------------------------------------------------------

  predicate IsPrefixOf(p: string, s: string) {
    |p| <= |s| && s[..|p|] == p
  }

  /** The characters two strings share from the start (the `zip`/`take_while` step). */
  function Lcp(a: string, b: string): (r: string)
    ensures IsPrefixOf(r, a) && IsPrefixOf(r, b)
    ensures |r| == |a| || |r| == |b| || a[|r|] != b[|r|]
  {
    if a == [] || b == [] || a[0] != b[0] then []
    else [a[0]] + Lcp(a[1..], b[1..])
  }

  /** The prefix the completion loop folds over the matches, first to last. */
  function LcpAll(ms: seq<string>): (r: string)
    requires |ms| > 0
    ensures forall i :: 0 <= i < |ms| ==> IsPrefixOf(r, ms[i])
  {
    if |ms| == 1 then ms[0]
    else
      var r := Lcp(LcpAll(ms[..|ms| - 1]), ms[|ms| - 1]);
      assert forall i :: 0 <= i < |ms| - 1 ==> ms[i] == ms[..|ms| - 1][i];
      r
  }

  /** Any common prefix of two strings is a prefix of `Lcp`. */
  lemma {:induction false} LcpMaximal(a: string, b: string, p: string)
    requires IsPrefixOf(p, a) && IsPrefixOf(p, b)
    ensures IsPrefixOf(p, Lcp(a, b))
  {
    if p != [] {
      assert a[0] == p[0] == b[0];
      assert IsPrefixOf(p[1..], a[1..]) by { assert a[1..][..|p| - 1] == a[..|p|][1..]; }
      assert IsPrefixOf(p[1..], b[1..]) by { assert b[1..][..|p| - 1] == b[..|p|][1..]; }
      LcpMaximal(a[1..], b[1..], p[1..]);
      assert p == [p[0]] + p[1..];
    }
  }

  /** The folded prefix is the longest prefix shared by all the matches. */
  lemma {:induction false} LcpAllMaximal(ms: seq<string>, p: string)
    requires |ms| > 0
    requires forall i :: 0 <= i < |ms| ==> IsPrefixOf(p, ms[i])
    ensures IsPrefixOf(p, LcpAll(ms))
  {
    if |ms| > 1 {
      var init := ms[..|ms| - 1];
      assert forall i :: 0 <= i < |init| ==> init[i] == ms[i];
      LcpAllMaximal(init, p);
      LcpMaximal(LcpAll(init), ms[|ms| - 1], p);
    }
  }

  lemma {:induction false} LcpEmptyStays(ms: seq<string>, k: nat)
    requires 0 < k <= |ms|
    requires LcpAll(ms[..k]) == []
    ensures LcpAll(ms) == []
  {
    assert forall i :: 0 <= i < |ms| ==> IsPrefixOf(LcpAll(ms), ms[i]);
    assert forall i :: 0 <= i < k ==> ms[..k][i] == ms[i];
    LcpAllMaximal(ms[..k], LcpAll(ms));
  }

  // ---------------------------------------------------------------------------
  // Grid layout
  // ---------------------------------------------------------------------------

  function Spaces(n: nat): (r: string)
    ensures |r| == n
  {
    if n == 0 then [] else [' '] + Spaces(n - 1)
  }

  /** `format!("{:width$}", m)`: left-aligned, padded with spaces to `width` characters. */
  function Padded(m: string, width: nat): (r: string)
    ensures |r| == if |m| < width then width else |m|
    ensures r[..|m|] == m
  {
    if |m| < width then m + Spaces(width - |m|) else m
  }

  /** The padded matches `lo .. hi`, concatenated. */
  function Cells(ms: seq<string>, width: nat, lo: nat, hi: nat): string
    requires lo <= hi <= |ms|
    decreases hi - lo
  {
    if lo == hi then [] else Cells(ms, width, lo, hi - 1) + Padded(ms[hi - 1], width)
  }

  lemma AppendAssoc(a: string, b: string, c: string)
    ensures (a + b) + c == a + (b + c)
  {
  }

  lemma {:induction false} CellsSplit(ms: seq<string>, width: nat, lo: nat, mid: nat, hi: nat)
    requires lo <= mid <= hi <= |ms|
    ensures Cells(ms, width, lo, hi) == Cells(ms, width, lo, mid) + Cells(ms, width, mid, hi)
    decreases hi - mid
  {
    if mid < hi {
      CellsSplit(ms, width, lo, mid, hi - 1);
      var a, b, c := Cells(ms, width, lo, mid), Cells(ms, width, mid, hi - 1), Padded(ms[hi - 1], width);
      assert Cells(ms, width, lo, hi) == (a + b) + c;
      assert Cells(ms, width, mid, hi) == b + c;
      AppendAssoc(a, b, c);
    }
  }

  function Concat(lines: seq<string>): string {
    if lines == [] then [] else lines[0] + Concat(lines[1..])
  }

  function Min(a: int, b: int): int {
    if a < b then a else b
  }

  /** `usize::div_ceil`: the number of rows of `d` items that hold `n` items. */
  function DivCeil(n: nat, d: nat): nat
    requires d > 0
    decreases n
  {
    if n == 0 then 0 else DivCeil(n - Min(d, n), d) + 1
  }

  /** `DivCeil(n, d)` rows of `d` hold `n` items, and one row fewer would not. */
  lemma {:induction false} DivCeilBounds(n: nat, d: nat)
    requires d > 0
    ensures DivCeil(n, d) * d >= n
    ensures DivCeil(n, d) > 0 ==> (DivCeil(n, d) - 1) * d < n
    decreases n
  {
    if n > 0 {
      var r' := DivCeil(n - Min(d, n), d);
      DivCeilBounds(n - Min(d, n), d);
      assert (r' + 1) * d == r' * d + d;
    }
  }

  /** Taking one row of at most `cols` items from `lo` leaves one row fewer. */
  lemma RowCountStep(total: nat, lo: nat, cols: nat)
    requires cols > 0 && lo < total
    ensures DivCeil(total - lo, cols) == DivCeil(total - Min(lo + cols, total), cols) + 1
  {
    assert total - Min(lo + cols, total) == (total - lo) - Min(cols, total - lo);
  }

  lemma ConcatCons(line: string, lines: seq<string>)
    ensures Concat([line] + lines) == line + Concat(lines)
  {
    assert ([line] + lines)[1..] == lines;
  }

  /**
   * The grid rows from match `lo` on: each row holds the next `cols` padded matches,
   * row-major, and the last row may be short.
   */
  function GridRows(ms: seq<string>, width: nat, cols: nat, lo: nat): seq<string>
    requires cols > 0 && lo <= |ms|
    decreases |ms| - lo
  {
    if lo == |ms| then []
    else
      var hi := Min(lo + cols, |ms|);
      [Cells(ms, width, lo, hi)] + GridRows(ms, width, cols, hi)
  }

  /** The grid has `ceil(n / cols)` rows. */
  lemma {:induction false} GridRowsCount(ms: seq<string>, width: nat, cols: nat, lo: nat)
    requires cols > 0 && lo <= |ms|
    ensures |GridRows(ms, width, cols, lo)| == DivCeil(|ms| - lo, cols)
    decreases |ms| - lo
  {
    if lo < |ms| {
      var hi := Min(lo + cols, |ms|);
      var rest := GridRows(ms, width, cols, hi);
      assert GridRows(ms, width, cols, lo) == [Cells(ms, width, lo, hi)] + rest;
      assert |GridRows(ms, width, cols, lo)| == 1 + |rest|;
      GridRowsCount(ms, width, cols, hi);
      RowCountStep(|ms|, lo, cols);
    }
  }

  /** Read row after row, the grid is every padded match in order. */
  lemma {:induction false} GridRowsConcat(ms: seq<string>, width: nat, cols: nat, lo: nat)
    requires cols > 0 && lo <= |ms|
    ensures Concat(GridRows(ms, width, cols, lo)) == Cells(ms, width, lo, |ms|)
    decreases |ms| - lo
  {
    if lo < |ms| {
      var hi := Min(lo + cols, |ms|);
      var row := Cells(ms, width, lo, hi);
      var rest := GridRows(ms, width, cols, hi);
      GridRowsConcat(ms, width, cols, hi);
      CellsSplit(ms, width, lo, hi, |ms|);
      ConcatCons(row, rest);
      assert GridRows(ms, width, cols, lo) == [row] + rest;
    }
  }

  // ---------------------------------------------------------------------------
  // process_tab_completion
  // ---------------------------------------------------------------------------

  /** The words before the last one, joined by single spaces, plus a separating space. */
  function Head(parts: seq<string>): string
    requires |parts| > 0
  {
    var h := JoinWith(parts[..|parts| - 1], " ");
    if h == [] then h else h + " "
  }

  /** The line echoed above the candidate list. */
  function CurrentLine(prompt: Option<string>, currentInput: string): string {
    match prompt
    case Some(p) => p + " " + currentInput
    case None => "> " + currentInput
  }

  /** The UTF-8 length of each match. */
  function ByteLens(ms: seq<string>): (ls: seq<nat>)
    ensures |ls| == |ms|
    ensures forall i :: 0 <= i < |ms| ==> ls[i] == |Bytes(ms[i])|
  {
    seq(|ms|, i requires 0 <= i < |ms| => |Bytes(ms[i])|)
  }

  /** The largest of `ls`, or 0 for none (`max().unwrap_or(0)`). */
  function MaxOf(ls: seq<nat>): (r: nat)
    ensures forall i :: 0 <= i < |ls| ==> ls[i] <= r
    ensures ls != [] ==> exists i :: 0 <= i < |ls| && r == ls[i]
  {
    if ls == [] then 0
    else
      var m := MaxOf(ls[..|ls| - 1]);
      assert forall i :: 0 <= i < |ls| - 1 ==> ls[..|ls| - 1][i] == ls[i];
      if ls[|ls| - 1] > m then ls[|ls| - 1] else m
  }

  /** The width of a grid cell: the longest match in bytes, plus two. */
  function CellWidth(ms: seq<string>): (r: nat)
    ensures r >= 2
  {
    MaxOf(ByteLens(ms)) + 2
  }

  /** `max(1, term_width / max_len)` */
  function Columns(termWidth: nat, width: nat): (c: nat)
    requires width > 0
    ensures c >= 1
  {
    if termWidth / width > 1 then termWidth / width else 1
  }

  /**
   * The candidate list shown under the prompt, with cells `width` characters wide (the
   * longest match plus two): the grid when its rows fit in the terminal height less four
   * lines (saturating), otherwise the raw matches with the display-all flag.
   */
  function Layout(ms: seq<string>, width: nat, termWidth: nat, termHeight: nat): (r: (seq<string>, bool))
    requires width > 0
    ensures var cols := Columns(termWidth, width);
      var rows := DivCeil(|ms|, cols);
      (r.1 <==> rows > (if termHeight >= 4 then termHeight - 4 else 0))
      && (r.1 ==> r.0 == ms)
      && (!r.1 ==> |r.0| == rows && Concat(r.0) == Cells(ms, width, 0, |ms|))
  {
    var cols := Columns(termWidth, width);
    var rows := DivCeil(|ms|, cols);
    var limit := if termHeight >= 4 then termHeight - 4 else 0;
    if rows > limit then (ms, true)
    else
      GridRowsCount(ms, width, cols, 0);
      GridRowsConcat(ms, width, cols, 0);
      (GridRows(ms, width, cols, 0), false)
  }

  /**
   * The prefix loop of `process_tab_completion`: folds `Lcp` over the matches, stopping
   * early once the prefix is empty.
   */
  method FoldPrefix(matches: seq<string>) returns (common: string)
    requires |matches| > 0
    ensures common == LcpAll(matches)
  {
    common := matches[0];
    var i := 1;
    assert matches[..1] == [matches[0]];
    while i < |matches|
      invariant 1 <= i <= |matches|
      invariant common == LcpAll(matches[..i])
    {
      assert matches[..i + 1][..i] == matches[..i];
      common := Lcp(common, matches[i]);
      i := i + 1;
      if common == [] {
        LcpEmptyStays(matches, i);
        return;
      }
    }
    assert matches[..i] == matches;
  }

  /**
   * `process_tab_completion`. `normLast` is the last word after `normalize_path`, which is
   * not part of this model; lengths compared and measured are UTF-8 byte lengths.
   */
  method ProcessTabCompletion(parts: seq<string>, matches: seq<string>, termWidth: nat,
                              termHeight: nat, currentInput: string, prompt: Option<string>,
                              normLast: string)
    returns (res: TabResult)
    requires |parts| > 0
    ensures matches == [] <==> res == NoAction
    ensures |matches| == 1 ==> res == SingleMatch(Head(parts) + matches[0])
    ensures |matches| > 1 ==>
      var cp := LcpAll(matches);
      (|Bytes(cp)| > |Bytes(normLast)| <==> res.CommonPrefix?)
      && (res.CommonPrefix? ==> res.input == Head(parts) + cp)
    ensures res.DisplayCompletions? ==>
      |matches| > 1 && res.currentLine == CurrentLine(prompt, currentInput)
      && (res.completionLines, res.displayAll) == Layout(matches, CellWidth(matches), termWidth, termHeight)
  {
    if |matches| == 1 {
      return SingleMatch(Head(parts) + matches[0]);
    }
    if matches == [] {
      return NoAction;
    }
    var common := FoldPrefix(matches);
    if |Bytes(common)| > |Bytes(normLast)| {
      return CommonPrefix(Head(parts) + common);
    }
    var layout := Layout(matches, CellWidth(matches), termWidth, termHeight);
    return DisplayCompletions(CurrentLine(prompt, currentInput), layout.0, layout.1);
  }
}
