/**
 * The compact text for the positions a primitive holds in a relation's
 * member list, as shown in the membership table of the properties dialog:
 * the sorted positions split into maximal runs of consecutive numbers, each
 * run written as its first number, then ",b" when it has two numbers or
 * "-b" when it has more, where b is its last number.
 */
module PositionStrings {
  import opened Wrappers
  import opened Text

  /** A run of consecutive positions from `start` to `end`, both included. */
  datatype Run = Run(start: int, end: int)

  /** Non-decreasing order, as Collections.sort leaves a list of integers. */
  ghost predicate Ascending(s: seq<int>) {
    forall i, j :: 0 <= i < j < |s| ==> s[i] <= s[j]
  }

  /** `x` inserted into an ascending sequence at its place. */
  function InsertAscending(s: seq<int>, x: int): (t: seq<int>)
    requires Ascending(s)
    ensures Ascending(t) && multiset(t) == multiset(s) + multiset{x}
    ensures |t| == |s| + 1 && (t[0] == x || (|s| > 0 && t[0] == s[0]))
  {
    if s == [] || x <= s[0] then [x] + s
    else
      var rest := InsertAscending(s[1..], x);
      assert s == [s[0]] + s[1..];
      [s[0]] + rest
  }

  /** Collections.sort on a list of integers: ascending, with the same elements. */
  function SortAscending(s: seq<int>): (t: seq<int>)
    ensures Ascending(t) && multiset(t) == multiset(s) && |t| == |s|
  {
    if s == [] then []
    else
      assert s == s[..|s| - 1] + [s[|s| - 1]];
      InsertAscending(SortAscending(s[..|s| - 1]), s[|s| - 1])
  }

  /**
   * The maximal runs of consecutive numbers in `ps`, in order: a number one
   * above the end of the current run extends it, any other number starts a
   * new run.
   */
  function Runs(ps: seq<int>): (rs: seq<Run>)
    requires |ps| >= 1
    ensures 1 <= |rs| <= |ps| && rs[0].start == ps[0] && rs[|rs| - 1].end == ps[|ps| - 1]
    ensures forall k :: 0 <= k < |rs| ==> rs[k].start <= rs[k].end
  {
    if |ps| == 1 then [Run(ps[0], ps[0])]
    else
      var rs := Runs(ps[..|ps| - 1]);
      var last := rs[|rs| - 1];
      var c := ps[|ps| - 1];
      if c == last.end + 1 then rs[..|rs| - 1] + [Run(last.start, c)] else rs + [Run(c, c)]
  }

  /** No run could be extended by the next one: the runs are maximal. */
  lemma {:induction false} RunsMaximal(ps: seq<int>)
    requires |ps| >= 1
    ensures forall k :: 1 <= k < |Runs(ps)| ==> Runs(ps)[k].start != Runs(ps)[k - 1].end + 1
  {
    if |ps| > 1 {
      RunsMaximal(ps[..|ps| - 1]);
    }
  }

  /** One more number extends the last run or starts a new one. */
  lemma RunsSnoc(ps: seq<int>, c: int)
    requires |ps| >= 1
    ensures var rs := Runs(ps);
            var last := rs[|rs| - 1];
            Runs(ps + [c]) == if c == last.end + 1 then rs[..|rs| - 1] + [Run(last.start, c)] else rs + [Run(c, c)]
  {
    assert (ps + [c])[..|ps|] == ps;
  }

  /** The numbers from `a` to `b`, both included. */
  function Range(a: int, b: int): (r: seq<int>)
    ensures a <= b ==> |r| == b - a + 1 && r[0] == a && r[|r| - 1] == b
    decreases b - a
  {
    if b <= a then [a] else Range(a, b - 1) + [b]
  }

  /** The numbers the runs stand for, run after run. */
  function Expand(rs: seq<Run>): seq<int> {
    if rs == [] then [] else Expand(rs[..|rs| - 1]) + Range(rs[|rs| - 1].start, rs[|rs| - 1].end)
  }

  /** Expanding one more run appends its numbers. */
  lemma ExpandSnoc(rs: seq<Run>, r: Run)
    ensures Expand(rs + [r]) == Expand(rs) + Range(r.start, r.end)
  {
    assert (rs + [r])[..|rs|] == rs;
  }

  /** The runs of `ps` stand for exactly the numbers of `ps`, in order. */
  lemma {:induction false} ExpandRuns(ps: seq<int>)
    requires |ps| >= 1
    ensures Expand(Runs(ps)) == ps
  {
    if |ps| > 1 {
      var init, c := ps[..|ps| - 1], ps[|ps| - 1];
      ExpandRuns(init);
      ExpandRunsSnoc(init, c);
      DropLastAppend(ps);
    }
  }

  /** One more number adds itself to what the runs stand for. */
  lemma ExpandRunsSnoc(init: seq<int>, c: int)
    requires |init| >= 1
    ensures Expand(Runs(init + [c])) == Expand(Runs(init)) + [c]
  {
    var rs := Runs(init);
    var n := |rs|;
    var last, front := rs[n - 1], rs[..n - 1];
    var next := Runs(init + [c]);
    if c == last.end + 1 {
      assert next == front + [Run(last.start, c)] by { RunsSnoc(init, c); }
      assert front + [last] == rs by { DropLastAppend(rs); }
      ExpandExtendLast(front, last, c);
    } else {
      assert next == rs + [Run(c, c)] by { RunsSnoc(init, c); }
      ExpandSnoc(rs, Run(c, c));
    }
  }

  /** Extending the last run by the next number appends that number. */
  lemma ExpandExtendLast(front: seq<Run>, last: Run, c: int)
    requires last.start <= last.end && c == last.end + 1
    ensures Expand(front + [Run(last.start, c)]) == Expand(front + [last]) + [c]
  {
    ExpandSnoc(front, last);
    ExpandSnoc(front, Run(last.start, c));
    assert Range(last.start, c) == Range(last.start, last.end) + [c];
    ConcatAssociative(Expand(front), Range(last.start, last.end), [c]);
  }

  /** Every run of numbers at least `lo` starts at least at `lo`. */
  lemma {:induction false} RunsAbove(ps: seq<int>, lo: int)
    requires |ps| >= 1 && forall i :: 0 <= i < |ps| ==> ps[i] >= lo
    ensures forall k :: 0 <= k < |Runs(ps)| ==> Runs(ps)[k].start >= lo
  {
    if |ps| > 1 {
      RunsAbove(ps[..|ps| - 1], lo);
    }
  }

  /** What closes a run after its first number. */
  function Close(r: Run): string {
    if r.end == r.start then ""
    else if r.end == r.start + 1 then "," + IntToString(r.end)
    else "-" + IntToString(r.end)
  }

  /** One run: a single number, "a,b" for two numbers, "a-b" for three or more. */
  function Group(r: Run): string {
    IntToString(r.start) + Close(r)
  }

  /** The groups of the runs, one after the other with `sep` between them. */
  function Render(rs: seq<Run>, sep: char): string
    requires |rs| >= 1
  {
    if |rs| == 1 then Group(rs[0]) else Render(rs[..|rs| - 1], sep) + [sep] + Group(rs[|rs| - 1])
  }

  /** The text getPositionString builds for sorted positions: after a gap it writes a `-`. */
  function RenderAsWritten(ps: seq<int>): string
    requires |ps| >= 1
  {
    Render(Runs(ps), '-')
  }

  /** The text with a `,` after a gap, as the two-number groups already read. */
  function RenderIntended(ps: seq<int>): string
    requires |ps| >= 1
  {
    Render(Runs(ps), ',')
  }

  /** The text so far while the last run is still open: everything up to its first number. */
  function Open(rs: seq<Run>, sep: char): string
    requires |rs| >= 1
  {
    if |rs| == 1 then IntToString(rs[0].start)
    else Render(rs[..|rs| - 1], sep) + [sep] + IntToString(rs[|rs| - 1].start)
  }

  /** Closing the open run completes the text. */
  lemma OpenThenClose(rs: seq<Run>, sep: char)
    requires |rs| >= 1
    ensures Render(rs, sep) == Open(rs, sep) + Close(rs[|rs| - 1])
  {
  }

  /** A number one above the end of the open run extends that run and leaves the text so far as it is. */
  lemma OpenRunsExtend(qs: seq<int>, c: int, sep: char)
    requires |qs| >= 1 && c == Runs(qs)[|Runs(qs)| - 1].end + 1
    ensures Open(Runs(qs + [c]), sep) == Open(Runs(qs), sep)
    ensures Runs(qs + [c])[|Runs(qs + [c])| - 1] == Run(Runs(qs)[|Runs(qs)| - 1].start, c)
  {
    var rs := Runs(qs);
    var n := |rs|;
    var next := Runs(qs + [c]);
    assert next == rs[..n - 1] + [Run(rs[n - 1].start, c)] by { RunsSnoc(qs, c); }
    assert next[..n - 1] == rs[..n - 1];
  }

  /** Any other number closes the open run, writes the separator and opens a run of its own. */
  lemma OpenRunsBreak(qs: seq<int>, c: int, sep: char)
    requires |qs| >= 1 && c != Runs(qs)[|Runs(qs)| - 1].end + 1
    ensures Open(Runs(qs + [c]), sep) == Open(Runs(qs), sep) + Close(Runs(qs)[|Runs(qs)| - 1]) + [sep] + IntToString(c)
    ensures Runs(qs + [c])[|Runs(qs + [c])| - 1] == Run(c, c)
  {
    var rs := Runs(qs);
    var next := Runs(qs + [c]);
    assert next == rs + [Run(c, c)] by { RunsSnoc(qs, c); }
    assert next[..|rs|] == rs;
    assert Open(next, sep) == Render(rs, sep) + [sep] + IntToString(c);
    OpenThenClose(rs, sep);
  }

  /** The run still open after the numbers `qs`. */
  function LastRun(qs: seq<int>): (r: Run)
    requires |qs| >= 1
    ensures r.start <= r.end == qs[|qs| - 1]
  {
    Runs(qs)[|Runs(qs)| - 1]
  }

  /** OpenRunsExtend for the prefixes of one sequence. */
  lemma OpenPrefixExtend(ps: seq<int>, i: nat, sep: char)
    requires 1 <= i < |ps| && ps[i] == LastRun(ps[..i]).end + 1
    ensures Open(Runs(ps[..i + 1]), sep) == Open(Runs(ps[..i]), sep)
    ensures LastRun(ps[..i + 1]) == Run(LastRun(ps[..i]).start, ps[i])
  {
    assert ps[..i + 1] == ps[..i] + [ps[i]];
    OpenRunsExtend(ps[..i], ps[i], sep);
  }

  /** OpenRunsBreak for the prefixes of one sequence. */
  lemma OpenPrefixBreak(ps: seq<int>, i: nat, sep: char)
    requires 1 <= i < |ps| && ps[i] != LastRun(ps[..i]).end + 1
    ensures Open(Runs(ps[..i + 1]), sep) == Open(Runs(ps[..i]), sep) + Close(LastRun(ps[..i])) + [sep] + IntToString(ps[i])
    ensures LastRun(ps[..i + 1]) == Run(ps[i], ps[i])
  {
    assert ps[..i + 1] == ps[..i] + [ps[i]];
    OpenRunsBreak(ps[..i], ps[i], sep);
  }

  /** The text of all the numbers is the open text of all of them with the last run closed. */
  lemma OpenWhole(ps: seq<int>, sep: char)
    requires |ps| >= 1
    ensures Render(Runs(ps), sep) == Open(Runs(ps[..|ps|]), sep) + Close(LastRun(ps[..|ps|]))
  {
    assert ps[..|ps|] == ps;
    OpenThenClose(Runs(ps), sep);
  }

  /** The text of one number is the number. */
  lemma OpenFirst(ps: seq<int>, sep: char)
    requires |ps| >= 1
    ensures Open(Runs(ps[..1]), sep) == IntToString(ps[0]) && LastRun(ps[..1]) == Run(ps[0], ps[0])
  {
    assert ps[..1] == [ps[0]];
  }

  /** The text begins with the first of the numbers. */
  lemma {:induction false} RenderStartsWithFirst(ps: seq<int>, sep: char)
    requires |ps| >= 1
    ensures IntToString(ps[0]) <= Render(Runs(ps), sep)
  {
    RenderStartsWithGroup(Runs(ps), sep);
  }

  lemma {:induction false} RenderStartsWithGroup(rs: seq<Run>, sep: char)
    requires |rs| >= 1
    ensures IntToString(rs[0].start) <= Render(rs, sep)
  {
    if |rs| > 1 {
      RenderStartsWithGroup(rs[..|rs| - 1], sep);
    }
  }

  /** Longer texts are cut to 17 characters followed by "...". */
  function Truncate(t: string): (r: string)
    ensures |r| <= 20
    ensures |t| <= 20 ==> r == t
    ensures |t| > 20 ==> r == t[..17] + "..."
  {
    if |t| > 20 then t[..17] + "..." else t
  }

  /** A prefix of at most 17 characters survives truncation. */
  lemma TruncateKeepsPrefix(p: string, t: string)
    requires p <= t && |p| <= 17
    ensures p <= Truncate(t)
  {
    if |t| > 20 {
      assert Truncate(t)[..|p|] == t[..|p|];
    }
  }

  /**
   * After sorting, the text begins with the smallest of the positions, and
   * so does its truncation when that number has at most 17 characters.
   */
  lemma TextStartsWithSmallest(ps: seq<int>)
    requires |ps| >= 1
    ensures var sorted := SortAscending(ps);
            && sorted[0] in ps && (forall i :: 0 <= i < |ps| ==> sorted[0] <= ps[i])
            && IntToString(sorted[0]) <= RenderAsWritten(sorted)
            && (|IntToString(sorted[0])| <= 17 ==> IntToString(sorted[0]) <= Truncate(RenderAsWritten(sorted)))
  {
    var sorted := SortAscending(ps);
    assert sorted[0] in multiset(sorted);
    forall i | 0 <= i < |ps|
      ensures sorted[0] <= ps[i]
    {
      assert ps[i] in multiset(ps);
      var j :| 0 <= j < |sorted| && sorted[j] == ps[i];
    }
    RenderStartsWithFirst(sorted, '-');
    if |IntToString(sorted[0])| <= 17 {
      TruncateKeepsPrefix(IntToString(sorted[0]), RenderAsWritten(sorted));
    }
  }

  /** Truncating twice is truncating once, so a cached result comes back unchanged. */
  lemma TruncateIdempotent(t: string)
    ensures Truncate(Truncate(t)) == Truncate(t)
  {
  }

  /** Different non-negative positions have different intended texts. */
  lemma IntendedInjective(ps: seq<int>, qs: seq<int>)
    requires |ps| >= 1 && forall i :: 0 <= i < |ps| ==> ps[i] >= 0
    requires |qs| >= 1 && forall i :: 0 <= i < |qs| ==> qs[i] >= 0
    requires ps != qs
    ensures RenderIntended(ps) != RenderIntended(qs)
  {
    IntendedDecodes(ps);
    IntendedDecodes(qs);
  }

  /**
   * As written, a gap reads like a run: positions a and a+2 give the same
   * text as a, a+1 and a+2, e.g. "1-3" for both [1, 3] and [1, 2, 3]; the
   * intended texts of the two differ.
   */
  lemma AsWrittenGapLooksLikeRun(gap: seq<int>, run: seq<int>)
    requires |gap| == 2 && gap[1] == gap[0] + 2 && gap[0] >= 0
    requires |run| == 3 && run[0] == gap[0] && run[1] == gap[0] + 1 && run[2] == gap[0] + 2
    ensures gap != run
    ensures RenderAsWritten(gap) == RenderAsWritten(run) == IntToString(gap[0]) + "-" + IntToString(gap[1])
    ensures RenderIntended(gap) != RenderIntended(run)
  {
    AsWrittenSameText(gap, run);
    assert |gap| != |run|;
    IntendedInjective(gap, run);
  }

  lemma AsWrittenSameText(gap: seq<int>, run: seq<int>)
    requires |gap| == 2 && gap[1] == gap[0] + 2
    requires |run| == 3 && run[0] == gap[0] && run[1] == gap[0] + 1 && run[2] == gap[0] + 2
    ensures RenderAsWritten(gap) == RenderAsWritten(run) == IntToString(gap[0]) + "-" + IntToString(gap[1])
  {
    var x, z := IntToString(gap[0]), IntToString(gap[1]);
    RunsOfGap(gap);
    RunsOfThree(run);
    TwoSingles(gap[0], gap[1], '-');
    SpanGroup(run[0], run[2]);
    assert RenderAsWritten(run) == Group(Run(run[0], run[2]));
  }

  /** Two single numbers are written with the separator between them. */
  lemma TwoSingles(a: int, b: int, sep: char)
    ensures Render([Run(a, a), Run(b, b)], sep) == IntToString(a) + [sep] + IntToString(b)
  {
    var rs := [Run(a, a), Run(b, b)];
    assert rs[..1] == [Run(a, a)];
    assert Group(Run(a, a)) == IntToString(a) && Group(Run(b, b)) == IntToString(b);
  }

  /** A run of three or more numbers is written "a-b". */
  lemma SpanGroup(a: int, b: int)
    requires b >= a + 2
    ensures Group(Run(a, b)) == IntToString(a) + "-" + IntToString(b)
  {
    var x, z := IntToString(a), IntToString(b);
    assert Close(Run(a, b)) == "-" + z;
    assert x + ("-" + z) == x + "-" + z;
  }

  lemma RunsOfGap(ps: seq<int>)
    requires |ps| == 2 && ps[1] == ps[0] + 2
    ensures Runs(ps) == [Run(ps[0], ps[0]), Run(ps[1], ps[1])]
  {
    assert ps[..1] + [ps[1]] == ps;
    RunsSnoc(ps[..1], ps[1]);
  }

  lemma RunsOfThree(ps: seq<int>)
    requires |ps| == 3 && ps[1] == ps[0] + 1 && ps[2] == ps[0] + 2
    ensures Runs(ps) == [Run(ps[0], ps[2])]
  {
    var two := ps[..2];
    assert two[..1] + [two[1]] == two;
    RunsSnoc(two[..1], two[1]);
    assert two + [ps[2]] == ps;
    RunsSnoc(two, ps[2]);
  }

  /** One group of the intended text, split at commas. */
  function GroupPieces(r: Run): seq<string> {
    if r.end == r.start then [IntToString(r.start)]
    else if r.end == r.start + 1 then [IntToString(r.start), IntToString(r.end)]
    else [IntToString(r.start) + "-" + IntToString(r.end)]
  }

  /** The intended text of the runs, split at commas. */
  function Pieces(rs: seq<Run>): seq<string> {
    if rs == [] then [] else Pieces(rs[..|rs| - 1]) + GroupPieces(rs[|rs| - 1])
  }

  /** A comma-separated piece: a number, or "a-b" for the numbers from a to b. */
  function DecodePiece(p: string): Option<seq<int>> {
    if '-' in p then
      var halves := SplitAll(p, '-');
      if |halves| == 2 then
        match (ParseNat(halves[0]), ParseNat(halves[1]))
        case (Some(a), Some(b)) => if a <= b then Some(Range(a, b)) else None
        case _ => None
      else None
    else
      match ParseNat(p)
      case Some(n) => Some([n])
      case None => None
  }

  /** The numbers of all the pieces, in order; `None` if a piece is malformed. */
  function DecodePieces(parts: seq<string>): Option<seq<int>> {
    if parts == [] then Some([])
    else
      match (DecodePieces(parts[..|parts| - 1]), DecodePiece(parts[|parts| - 1]))
      case (Some(xs), Some(ys)) => Some(xs + ys)
      case _ => None
  }

  /** Reads a position text with `,` between groups back into positions. */
  function DecodePositions(s: string): Option<seq<int>> {
    DecodePieces(SplitAll(s, ','))
  }

  function Combine(a: Option<seq<int>>, b: Option<seq<int>>): Option<seq<int>> {
    if a.Some? && b.Some? then Some(a.value + b.value) else None
  }

  lemma {:induction false} DecodePiecesAppend(a: seq<string>, b: seq<string>)
    ensures DecodePieces(a + b) == Combine(DecodePieces(a), DecodePieces(b))
    decreases |b|
  {
    if b == [] {
      assert a + b == a;
      if DecodePieces(a).Some? {
        assert DecodePieces(a).value + [] == DecodePieces(a).value;
      }
    } else {
      var b' := b[..|b| - 1];
      DecodePiecesAppend(a, b');
      assert (a + b)[..|a + b| - 1] == a + b';
      assert (a + b)[|a + b| - 1] == b[|b| - 1];
      var da, db' := DecodePieces(a), DecodePieces(b');
      if da.Some? && db'.Some? {
        ConcatAssociative(da.value, db'.value, if DecodePiece(b[|b| - 1]).Some? then DecodePiece(b[|b| - 1]).value else []);
      }
    }
  }

  /** The digits of a non-negative number hold neither separator. */
  lemma DigitsHaveNoSeparators(n: int)
    requires n >= 0
    ensures ',' !in IntToString(n) && '-' !in IntToString(n)
  {
    var s := IntToString(n);
    forall i | 0 <= i < |s|
      ensures s[i] != ',' && s[i] != '-'
    {
      assert IsDigit(s[i]);
    }
  }

  /** A single number decodes to itself. */
  lemma NumberDecodes(n: int)
    requires n >= 0
    ensures DecodePieces([IntToString(n)]) == Some([n])
  {
    ParseNatToString(n);
    DigitsHaveNoSeparators(n);
    assert DecodePiece(IntToString(n)) == Some([n]);
    assert [IntToString(n)][..0] == [];
    assert [] + [n] == [n];
  }

  /** Two numbers joined by a hyphen split at the hyphen into the two numbers. */
  lemma SplitSpan(a: int, b: int)
    requires 0 <= a && 0 <= b
    ensures '-' in IntToString(a) + "-" + IntToString(b)
    ensures SplitAll(IntToString(a) + "-" + IntToString(b), '-') == [IntToString(a), IntToString(b)]
  {
    var x, y := IntToString(a), IntToString(b);
    DigitsHaveNoSeparators(a);
    DigitsHaveNoSeparators(b);
    assert (x + "-" + y)[|x|] == '-';
    SplitAppend(x, '-', y);
    SplitNoSep(x, '-');
    SplitNoSep(y, '-');
  }

  /** "a-b" decodes to the numbers from a to b. */
  lemma SpanDecodes(a: int, b: int)
    requires 0 <= a <= b
    ensures DecodePieces([IntToString(a) + "-" + IntToString(b)]) == Some(Range(a, b))
  {
    var x, y := IntToString(a), IntToString(b);
    ParseNatToString(a);
    ParseNatToString(b);
    SplitSpan(a, b);
    var t := x + "-" + y;
    assert DecodePiece(t) == Some(Range(a, b));
    assert [t][..0] == [];
    assert [] + Range(a, b) == Range(a, b);
  }

  /** Each group of a run of non-negative numbers decodes to the run. */
  lemma GroupPiecesDecode(r: Run)
    requires 0 <= r.start <= r.end
    ensures DecodePieces(GroupPieces(r)) == Some(Range(r.start, r.end))
  {
    if r.end == r.start {
      NumberDecodes(r.start);
    } else if r.end == r.start + 1 {
      NumberDecodes(r.start);
      NumberDecodes(r.end);
      var a, b := IntToString(r.start), IntToString(r.end);
      DecodePiecesAppend([a], [b]);
      assert [a] + [b] == [a, b];
      assert Range(r.start, r.end) == [r.start, r.end];
    } else {
      SpanDecodes(r.start, r.end);
    }
  }

  /** The group of a run of non-negative numbers splits at commas into its pieces. */
  lemma GroupSplits(r: Run)
    requires 0 <= r.start <= r.end
    ensures SplitAll(Group(r), ',') == GroupPieces(r)
  {
    var a, b := IntToString(r.start), IntToString(r.end);
    DigitsHaveNoSeparators(r.start);
    DigitsHaveNoSeparators(r.end);
    if r.end == r.start {
      assert Group(r) == a;
      SplitNoSep(a, ',');
    } else if r.end == r.start + 1 {
      assert Group(r) == a + [','] + b;
      SplitAppend(a, ',', b);
      SplitNoSep(a, ',');
      SplitNoSep(b, ',');
    } else {
      var t := a + "-" + b;
      assert Group(r) == t;
      forall i | 0 <= i < |t|
        ensures t[i] != ','
      {
        if i < |a| { assert t[i] == a[i]; } else if i > |a| { assert t[i] == b[i - |a| - 1]; }
      }
      SplitNoSep(t, ',');
    }
  }

  /** The intended text of runs of non-negative numbers splits at commas into the pieces of its groups. */
  lemma {:induction false} SplitRender(rs: seq<Run>)
    requires |rs| >= 1 && forall k :: 0 <= k < |rs| ==> 0 <= rs[k].start <= rs[k].end
    ensures SplitAll(Render(rs, ','), ',') == Pieces(rs)
  {
    var n := |rs|;
    var r := rs[n - 1];
    GroupSplits(r);
    if n == 1 {
      assert Pieces(rs) == Pieces(rs[..0]) + GroupPieces(r);
    } else {
      SplitRender(rs[..n - 1]);
      SplitAppend(Render(rs[..n - 1], ','), ',', Group(r));
    }
  }

  /** The pieces of runs of non-negative numbers decode to the numbers the runs stand for. */
  lemma {:induction false} PiecesDecode(rs: seq<Run>)
    requires forall k :: 0 <= k < |rs| ==> 0 <= rs[k].start <= rs[k].end
    ensures DecodePieces(Pieces(rs)) == Some(Expand(rs))
  {
    if rs != [] {
      var n := |rs|;
      var front, r := rs[..n - 1], rs[n - 1];
      PiecesDecode(front);
      GroupPiecesDecode(r);
      DecodePiecesAppend(Pieces(front), GroupPieces(r));
    }
  }

  /**
   * With a `,` after a gap the text determines the positions: reading it
   * back gives the sorted positions again.
   */
  lemma IntendedDecodes(ps: seq<int>)
    requires |ps| >= 1 && forall i :: 0 <= i < |ps| ==> ps[i] >= 0
    ensures DecodePositions(RenderIntended(ps)) == Some(ps)
  {
    RunsAbove(ps, 0);
    SplitRender(Runs(ps));
    PiecesDecode(Runs(ps));
    ExpandRuns(ps);
  }
}
