/**
 * The `#include`-block order checker of tools/check_includes_alphabetical.py.
 *
 * A line of a C file names an included file when it starts with `#include`
 * and contains `"name"` or `<name>`.  Consecutive such lines form a block;
 * the names of a block must be in non-decreasing string order, except that
 * a leading `sys/types.h` may precede everything.  A block is checked when
 * a line that names no include ends it.
 */
module IncludeOrder {
  import opened Wrappers

  const Directive: string := "#include"
  const SysTypes: string := "sys/types.h"

  /** Python's `s.startswith(prefix)`. */
  predicate StartsWith(s: string, prefix: string) {
    |prefix| == 0 || (|s| > 0 && s[0] == prefix[0] && StartsWith(s[1..], prefix[1..]))
  }

  // ---------------------------------------------------------------------
  // Extracting the included name
  // ---------------------------------------------------------------------

  /**
   * `s[i..j+1]` is a match of the regular expression `open [^close]* close`:
   * an opener, then no closer, then a closer.
   */
  ghost predicate MatchAt(s: string, open: char, close: char, i: int, j: int) {
    0 <= i < j < |s| && s[i] == open && s[j] == close &&
    forall k :: i < k < j ==> s[k] != close
  }

  ghost predicate HasMatch(s: string, open: char, close: char) {
    exists i, j :: MatchAt(s, open, close, i, j)
  }

  /** The first position at or after `from` that holds `c`. */
  function IndexOf(s: string, c: char, from: nat): (r: Option<nat>)
    requires from <= |s|
    ensures r.Some? ==> from <= r.value < |s| && s[r.value] == c
    ensures forall k :: from <= k < |s| && (r.None? || k < r.value) ==> s[k] != c
    decreases |s| - from
  {
    if from == |s| then None
    else if s[from] == c then Some(from)
    else IndexOf(s, c, from + 1)
  }

  /**
   * The span of the first match that `re.findall` reports: the leftmost
   * match, whose end is the first closer after its opener.
   */
  function FirstMatch(s: string, open: char, close: char): (r: Option<(nat, nat)>)
    ensures r.Some? ==> MatchAt(s, open, close, r.value.0, r.value.1)
    ensures r.Some? ==> forall i, j :: MatchAt(s, open, close, i, j) ==> r.value.0 <= i
    ensures r.None? <==> !HasMatch(s, open, close)
  {
    match IndexOf(s, open, 0)
    case None => None
    case Some(i) =>
      match IndexOf(s, close, i + 1)
      case None =>
        assert forall i', j' :: MatchAt(s, open, close, i', j') ==> i <= i' < j';
        None
      case Some(j) =>
        assert MatchAt(s, open, close, i, j);
        Some((i, j))
  }

  /** The text of the first match without its delimiters (`included[0][1:-1]`). */
  function Delimited(s: string, open: char, close: char): (r: Option<string>)
    ensures r.Some? <==> HasMatch(s, open, close)
    ensures r.Some? ==> close !in r.value
  {
    match FirstMatch(s, open, close)
    case None => None
    case Some((i, j)) =>
      Some(s[i + 1 .. j])
  }

  /**
   * `get_included_filename`: the name in a `#include` line, the quoted form
   * taking precedence over the angle form; `None` for any other line.
   */
  function GetIncludedFilename(line: string): (r: Option<string>)
    ensures r.Some? <==>
      StartsWith(line, Directive) && (HasMatch(line, '"', '"') || HasMatch(line, '<', '>'))
    ensures r.Some? && HasMatch(line, '"', '"') ==> '"' !in r.value
    ensures r.Some? && !HasMatch(line, '"', '"') ==> '>' !in r.value
  {
    if StartsWith(line, Directive) then
      var quoted := Delimited(line, '"', '"');
      if quoted.Some? then quoted else Delimited(line, '<', '>')
    else
      None
  }

  /** Whatever its regular expression finds, the leftmost match is the one returned. */
  lemma DelimitedIsLeftmost(s: string, open: char, close: char, i: nat, j: nat)
    requires MatchAt(s, open, close, i, j)
    requires forall i', j' :: MatchAt(s, open, close, i', j') ==> i <= i'
    ensures Delimited(s, open, close) == Some(s[i + 1 .. j])
  {
    var m := FirstMatch(s, open, close);
    assert m.Some?;
    var (i0, j0) := m.value;
    assert i0 == i;
  }

  /** A quoted name wins, even when the line also holds an angle-bracketed one. */
  lemma QuotedFormWins(line: string, i: nat, j: nat)
    requires StartsWith(line, Directive)
    requires MatchAt(line, '"', '"', i, j)
    requires forall i', j' :: MatchAt(line, '"', '"', i', j') ==> i <= i'
    ensures GetIncludedFilename(line) == Some(line[i + 1 .. j])
  {
    DelimitedIsLeftmost(line, '"', '"', i, j);
  }

  /** Without a quoted name, the first angle-bracketed name is returned. */
  lemma AngleFormFallback(line: string, i: nat, j: nat)
    requires StartsWith(line, Directive)
    requires !HasMatch(line, '"', '"')
    requires MatchAt(line, '<', '>', i, j)
    requires forall i', j' :: MatchAt(line, '<', '>', i', j') ==> i <= i'
    ensures GetIncludedFilename(line) == Some(line[i + 1 .. j])
  {
    DelimitedIsLeftmost(line, '<', '>', i, j);
  }

  /** `#include ""` yields the empty name, which is not `None`. */
  lemma EmptyQuotedName()
    ensures GetIncludedFilename("#include \"\"") == Some("")
  {
    var line := "#include \"\"";
    assert MatchAt(line, '"', '"', 9, 10);
    forall i', j' | MatchAt(line, '"', '"', i', j') ensures 9 <= i' {
      assert line[i'] == '"';
    }
    assert StartsWith(line[8..], []);
    assert StartsWith(line, Directive);
    QuotedFormWins(line, 9, 10);
    assert line[10..10] == "";
  }

  // ---------------------------------------------------------------------
  // Ordering a block
  // ---------------------------------------------------------------------

  /** Python's `a <= b` on `str`: lexicographic on code points, a prefix first. */
  predicate StrLessEq(a: string, b: string) {
    |a| == 0 || (|b| > 0 && (a[0] < b[0] || (a[0] == b[0] && StrLessEq(a[1..], b[1..]))))
  }

  lemma {:induction false} StrLessEqTotal(a: string, b: string)
    ensures StrLessEq(a, b) || StrLessEq(b, a)
  {
    if |a| > 0 && |b| > 0 && a[0] == b[0] {
      StrLessEqTotal(a[1..], b[1..]);
    }
  }

  lemma {:induction false} StrLessEqReflexive(a: string)
    ensures StrLessEq(a, a)
  {
    if |a| > 0 {
      StrLessEqReflexive(a[1..]);
    }
  }

  /** Every adjacent pair is in order; equal neighbours are allowed. */
  predicate NonDecreasing(s: seq<string>) {
    forall i :: 0 < i < |s| ==> StrLessEq(s[i - 1], s[i])
  }

  /** Inserts `x` before the first element it does not exceed. */
  function Insert(x: string, s: seq<string>): seq<string> {
    if s == [] then [x]
    else if StrLessEq(x, s[0]) then [x] + s
    else [s[0]] + Insert(x, s[1..])
  }

  /** Inserting adds exactly `x`, in front or behind the old head. */
  lemma {:induction false} InsertAddsOne(x: string, s: seq<string>)
    ensures |Insert(x, s)| == |s| + 1 && multiset(Insert(x, s)) == multiset(s) + multiset{x}
    ensures Insert(x, s)[0] == x || (|s| > 0 && Insert(x, s)[0] == s[0])
  {
    if s != [] && !StrLessEq(x, s[0]) {
      InsertAddsOne(x, s[1..]);
      assert s == [s[0]] + s[1..];
    }
  }

  /** Inserting into a non-decreasing list keeps it non-decreasing. */
  lemma {:induction false} InsertKeepsOrder(x: string, s: seq<string>)
    requires NonDecreasing(s)
    ensures NonDecreasing(Insert(x, s))
  {
    if s != [] && !StrLessEq(x, s[0]) {
      var t := s[1..];
      assert NonDecreasing(t) by {
        forall i | 0 < i < |t| ensures StrLessEq(t[i - 1], t[i]) {
          assert t[i - 1] == s[i] && t[i] == s[i + 1];
        }
      }
      InsertKeepsOrder(x, t);
      InsertAddsOne(x, t);
      StrLessEqTotal(x, s[0]);
      var r := Insert(x, s);
      assert r == [s[0]] + Insert(x, t);
      forall i | 0 < i < |r| ensures StrLessEq(r[i - 1], r[i]) {
        if i == 1 {
          assert r[1] == Insert(x, t)[0];
        } else {
          assert r[i - 1] == Insert(x, t)[i - 2] && r[i] == Insert(x, t)[i - 1];
        }
      }
    }
  }

  /** Python's `sorted` on a list of strings, as an insertion sort. */
  function Sorted(s: seq<string>): seq<string> {
    if s == [] then [] else Insert(s[0], Sorted(s[1..]))
  }

  /** `sorted` returns a non-decreasing permutation of its argument. */
  lemma {:induction false} SortedIsOrderedPermutation(s: seq<string>)
    ensures NonDecreasing(Sorted(s)) && multiset(Sorted(s)) == multiset(s)
  {
    if s != [] {
      SortedIsOrderedPermutation(s[1..]);
      InsertAddsOne(s[0], Sorted(s[1..]));
      InsertKeepsOrder(s[0], Sorted(s[1..]));
      assert s == [s[0]] + s[1..];
    }
  }

  /** A list equals its sorted version exactly when it is non-decreasing. */
  lemma {:induction false} SortedFixpoint(s: seq<string>)
    ensures s == Sorted(s) <==> NonDecreasing(s)
  {
    SortedIsOrderedPermutation(s);
    if s != [] && NonDecreasing(s) {
      assert NonDecreasing(s[1..]) by {
        forall i | 0 < i < |s[1..]| ensures StrLessEq(s[1..][i - 1], s[1..][i]) {
          assert s[1..][i - 1] == s[i] && s[1..][i] == s[i + 1];
        }
      }
      SortedFixpoint(s[1..]);
      assert s == [s[0]] + s[1..];
    }
  }

  /** `is_block_correct_order` on a non-empty block. */
  function IsBlockCorrectOrder(values: seq<string>): (ok: bool)
    requires |values| > 0
    ensures |values| == 1 ==> ok
    ensures |values| == 2 && values[0] == SysTypes ==> ok
  {
    var rest := if values[0] == SysTypes then values[1..] else values;
    assert |rest| == 1 ==> rest[1..] == [] && Sorted(rest) == rest;
    rest == Sorted(rest)
  }

  /**
   * A block is in order iff it is non-decreasing once a leading
   * `sys/types.h` is set aside; `sys/types.h` anywhere else is ordered
   * like any other name.
   */
  lemma BlockOrder(values: seq<string>)
    requires |values| > 0
    ensures values[0] == SysTypes ==> (IsBlockCorrectOrder(values) <==> NonDecreasing(values[1..]))
    ensures values[0] != SysTypes ==> (IsBlockCorrectOrder(values) <==> NonDecreasing(values))
  {
    SortedFixpoint(values);
    SortedFixpoint(values[1..]);
  }

  /** Repeated names do not make a block out of order. */
  lemma DuplicatesAllowed(name: string)
    ensures IsBlockCorrectOrder([name, name])
  {
    StrLessEqReflexive(name);
    BlockOrder([name, name]);
  }

  /**
   * Only a `sys/types.h` in first position is set aside: anywhere else, an
   * in-order block has it between its neighbours like any other name.
   */
  lemma SysTypesExemptOnlyFirst(values: seq<string>, k: nat)
    requires 0 < k < |values| && values[k] == SysTypes
    requires values[0] != SysTypes || k >= 2
    requires IsBlockCorrectOrder(values)
    ensures StrLessEq(values[k - 1], SysTypes)
    ensures k + 1 < |values| ==> StrLessEq(SysTypes, values[k + 1])
  {
    BlockOrder(values);
    if values[0] == SysTypes {
      var rest := values[1..];
      assert rest[k - 2] == values[k - 1] && rest[k - 1] == values[k];
      if k + 1 < |values| {
        assert rest[k] == values[k + 1];
      }
    }
  }

  /** A leading `sys/types.h` precedes anything; a second one must be in order. */
  lemma SysTypesExamples()
    ensures IsBlockCorrectOrder([SysTypes, "errno.h"])
    ensures !IsBlockCorrectOrder(["unistd.h", SysTypes])
  {
    var bad := ["unistd.h", SysTypes];
    BlockOrder(bad);
    assert !StrLessEq(bad[0], bad[1]);
  }

  // ---------------------------------------------------------------------
  // Scanning a file
  // ---------------------------------------------------------------------

  /** A bad block: the index of the line that ended it and its names. */
  datatype Report = Report(line: nat, block: seq<string>)

  /**
   * The line extends the current block: `handle_file` takes the truth value
   * of the returned name, so `#include ""` does not count as an include line.
   */
  function IsIncludeLine(line: string): (r: bool)
    ensures r ==> StartsWith(line, Directive)
    ensures r ==> HasMatch(line, '"', '"') || HasMatch(line, '<', '>')
  {
    var name := GetIncludedFilename(line);
    name.Some? && name.value != ""
  }

  /** The name a line adds to a block; `""` when it adds none. */
  function LineName(line: string): (name: string)
    ensures name != "" <==> IsIncludeLine(line)
    ensures name != "" ==> GetIncludedFilename(line) == Some(name)
  {
    var included := GetIncludedFilename(line);
    if included.Some? then included.value else ""
  }

  /** The name each line of a file adds to a block. */
  function LineNames(lines: seq<string>): (names: seq<string>)
    ensures |names| == |lines|
  {
    if lines == [] then [] else LineNames(lines[..|lines| - 1]) + [LineName(lines[|lines| - 1])]
  }

  /** Line `k` adds the name `LineName` gives it. */
  lemma {:induction false} LineNameAt(lines: seq<string>, k: nat)
    requires k < |lines|
    ensures LineNames(lines)[k] == LineName(lines[k])
  {
    if k < |lines| - 1 {
      var init := lines[..|lines| - 1];
      LineNameAt(init, k);
      assert init[k] == lines[k];
    }
  }

  /**
   * The names of the run of include lines that ends just before line `i`,
   * given the name each line adds (`""` for none).
   */
  ghost function BlockBefore(names: seq<string>, i: nat): seq<string>
    requires i <= |names|
  {
    if i == 0 || names[i - 1] == "" then []
    else BlockBefore(names, i - 1) + [names[i - 1]]
  }

  /** Line `i` ends a non-empty block that is out of order. */
  ghost predicate ReportAt(names: seq<string>, i: nat)
    requires i < |names|
  {
    names[i] == "" && BlockBefore(names, i) != [] &&
    !IsBlockCorrectOrder(BlockBefore(names, i))
  }

  /** The reports for the first `i` lines, in line order. */
  ghost function ReportsUpTo(names: seq<string>, i: nat): seq<Report>
    requires i <= |names|
  {
    if i == 0 then []
    else
      ReportsUpTo(names, i - 1) +
      (if ReportAt(names, i - 1) then [Report(i - 1, BlockBefore(names, i - 1))] else [])
  }

  /**
   * The body of the scan loop for line `i`: a line that names a file
   * extends the block; any other line ends the block, and reports it when
   * it is non-empty and out of order.
   */
  method ScanLine(lines: seq<string>, ghost names: seq<string>, i: nat, block: seq<string>, reports: seq<Report>)
    returns (block': seq<string>, reports': seq<Report>)
    requires i < |lines| && names == LineNames(lines)
    requires block == BlockBefore(names, i) && reports == ReportsUpTo(names, i)
    ensures block' == BlockBefore(names, i + 1) && reports' == ReportsUpTo(names, i + 1)
  {
    // `None` and `""` are both false in Python
    var name := LineName(lines[i]);
    LineNameAt(lines, i);
    block', reports' := block, reports;
    if name != "" {
      block' := block + [name];
    } else if |block| > 0 {
      if !IsBlockCorrectOrder(block) {
        reports' := reports + [Report(i, block)];
      }
      block' := [];
    }
  }

  /** `handle_file` over the lines of one file, returning what it would print. */
  method HandleFile(lines: seq<string>) returns (reports: seq<Report>)
    ensures reports == ReportsUpTo(LineNames(lines), |lines|)
  {
    ghost var names := LineNames(lines);
    var block: seq<string> := [];
    reports := [];
    for i := 0 to |lines|
      invariant block == BlockBefore(names, i)
      invariant reports == ReportsUpTo(names, i)
    {
      block, reports := ScanLine(lines, names, i, block, reports);
    }
  }

  /**
   * The block before line `i` is the maximal run of lines ending at line
   * `i - 1` that add a name, and holds those names in order.
   */
  lemma {:induction false} BlockBeforeIsMaximalRun(names: seq<string>, i: nat)
    requires i <= |names|
    ensures var b := BlockBefore(names, i);
      && |b| <= i
      && (forall k :: i - |b| <= k < i ==> b[k - (i - |b|)] == names[k] != "")
      && (|b| < i ==> names[i - 1 - |b|] == "")
  {
    if i > 0 && names[i - 1] != "" {
      BlockBeforeIsMaximalRun(names, i - 1);
      var b, b' := BlockBefore(names, i), BlockBefore(names, i - 1);
      assert b == b' + [names[i - 1]];
      var start := i - |b|;
      forall k | start <= k < i
        ensures b[k - start] == names[k] != ""
      {
        if k < i - 1 {
          assert b[k - start] == b'[k - start];
        }
      }
    }
  }

  /**
   * A report names exactly each line that ends a non-empty, out-of-order
   * block, together with that block.
   */
  lemma {:induction false} ReportsExactlyBadBlocks(names: seq<string>, i: nat, r: Report)
    requires i <= |names|
    ensures r in ReportsUpTo(names, i) <==>
      r.line < i && ReportAt(names, r.line) && r.block == BlockBefore(names, r.line)
  {
    if i > 0 {
      ReportsExactlyBadBlocks(names, i - 1, r);
      var prev := ReportsUpTo(names, i - 1);
      var bad, block := ReportAt(names, i - 1), BlockBefore(names, i - 1);
      var last := if bad then [Report(i - 1, block)] else [];
      assert ReportsUpTo(names, i) == prev + last;
      if r.line == i - 1 {
        assert r !in prev;
        assert r in last <==> bad && r.block == block;
      } else {
        assert r !in last;
      }
    }
  }

  /** Reports come in strictly increasing line order, so no line is reported twice. */
  lemma {:induction false} ReportsIncreasing(names: seq<string>, i: nat)
    requires i <= |names|
    ensures forall a, b :: 0 <= a < b < |ReportsUpTo(names, i)| ==>
      ReportsUpTo(names, i)[a].line < ReportsUpTo(names, i)[b].line
    ensures forall a :: 0 <= a < |ReportsUpTo(names, i)| ==> ReportsUpTo(names, i)[a].line < i
  {
    if i > 0 {
      ReportsIncreasing(names, i - 1);
    }
  }

  /** A line `#include ""` ends a block like any line that names no include. */
  lemma EmptyQuotedNameEndsBlock(lines: seq<string>, i: nat)
    requires i < |lines| && lines[i] == "#include \"\""
    ensures !IsIncludeLine(lines[i])
    ensures BlockBefore(LineNames(lines), i + 1) == []
  {
    EmptyQuotedName();
    LineNameAt(lines, i);
  }

  /** A line without a name leaves an empty block, so the next line is not checked. */
  lemma EmptyBlockAfterBreak(names: seq<string>, i: nat)
    requires 0 < i < |names| && names[i - 1] == ""
    ensures BlockBefore(names, i) == [] && !ReportAt(names, i)
  {
  }

  /** A non-include line right after another one triggers no check. */
  lemma {:induction false} NoCheckAfterNonInclude(lines: seq<string>, i: nat)
    requires 0 < i < |lines|
    requires !IsIncludeLine(lines[i - 1])
    ensures !ReportAt(LineNames(lines), i)
  {
    var names := LineNames(lines);
    assert names[i - 1] == "" by { LineNameAt(lines, i - 1); }
    EmptyBlockAfterBreak(names, i);
  }

  lemma {:induction false} BlockBeforePrefix(names: seq<string>, more: seq<string>, i: nat)
    requires i <= |names|
    ensures BlockBefore(names + more, i) == BlockBefore(names, i)
  {
    if i > 0 {
      assert (names + more)[i - 1] == names[i - 1];
      BlockBeforePrefix(names, more, i - 1);
    }
  }

  lemma {:induction false} ReportsPrefix(names: seq<string>, more: seq<string>, i: nat)
    requires i <= |names|
    ensures ReportsUpTo(names + more, i) == ReportsUpTo(names, i)
  {
    if i > 0 {
      assert (names + more)[i - 1] == names[i - 1];
      BlockBeforePrefix(names, more, i - 1);
      ReportsPrefix(names, more, i - 1);
    }
  }

  /** The names of a file are those of its parts, one after the other. */
  lemma LineNamesAppend(lines: seq<string>, tail: seq<string>)
    ensures LineNames(lines + tail) == LineNames(lines) + LineNames(tail)
  {
    var all := LineNames(lines) + LineNames(tail);
    forall k | 0 <= k < |all| ensures LineNames(lines + tail)[k] == all[k] {
      LineNameAt(lines + tail, k);
      if k < |lines| {
        LineNameAt(lines, k);
        assert (lines + tail)[k] == lines[k];
      } else {
        LineNameAt(tail, k - |lines|);
        assert (lines + tail)[k] == tail[k - |lines|];
      }
    }
  }

  /**
   * A block still open when the lines run out is never checked: further
   * lines that add a name at the end of a file add no report.
   */
  lemma PendingBlockUnchecked(names: seq<string>, more: seq<string>)
    requires forall k :: 0 <= k < |more| ==> more[k] != ""
    ensures ReportsUpTo(names + more, |names + more|) == ReportsUpTo(names, |names|)
  {
    var all := names + more;
    var i := |names|;
    ReportsPrefix(names, more, |names|);
    while i < |all|
      invariant |names| <= i <= |all|
      invariant ReportsUpTo(all, i) == ReportsUpTo(names, |names|)
    {
      assert all[i] == more[i - |names|];
      i := i + 1;
    }
  }
}
