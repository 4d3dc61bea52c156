/** read_clippings: the export is cut into clippings at every separator line.
    The file is given as the sequence of lines that iterating over it yields,
    each with its line terminator. */
module Splitter {
  import opened Text

  /** The marker line between two clippings of the export. */
  const Separator: string := "=========="

  /** The test read_clippings applies to each line: does it strip to the marker?
      The functions below take the test as a parameter `isSep`. */
  function IsSeparator(u: Unicode): (isSep: string -> bool)
  {
    line => Strip(u, line) == Separator
  }

  /** The maximal runs of consecutive non-separator lines of `lines`, in
      order: the groups of lines that read_clippings joins into clippings. */
  function Runs(isSep: string -> bool, lines: seq<string>): (gs: seq<seq<string>>)
    ensures forall i :: 0 <= i < |gs| ==> gs[i] != []
    ensures forall i, j :: 0 <= i < |gs| && 0 <= j < |gs[i]| ==> !isSep(gs[i][j])
    ensures lines != [] && !isSep(lines[|lines| - 1]) ==> gs != []
    decreases |lines|
  {
    if lines == [] then []
    else
      var init, last := lines[..|lines| - 1], lines[|lines| - 1];
      var gs := Runs(isSep, init);
      if isSep(last) then gs
      else if init != [] && !isSep(init[|init| - 1]) then gs[..|gs| - 1] + [gs[|gs| - 1] + [last]]
      else gs + [[last]]
  }

  /** The clippings read_clippings returns for `lines`. */
  function Clippings(isSep: string -> bool, lines: seq<string>): seq<string>
  {
    ConcatEach(Runs(isSep, lines))
  }

  /** The lines of `lines` that are not separators, in order. */
  function NonSeparators(isSep: string -> bool, lines: seq<string>): seq<string>
  {
    if lines == [] then []
    else (if isSep(lines[0]) then [] else [lines[0]]) + NonSeparators(isSep, lines[1..])
  }

  /** Position i is where a run of non-separator lines begins. */
  predicate StartsRun(isSep: string -> bool, lines: seq<string>, i: int)
    requires 0 <= i < |lines|
  {
    !isSep(lines[i]) && (i == 0 || isSep(lines[i - 1]))
  }

  function RunStarts(isSep: string -> bool, lines: seq<string>): set<int>
  {
    set i | 0 <= i < |lines| && StartsRun(isSep, lines, i)
  }

  /** The loop of read_clippings: a separator line flushes the accumulated
      lines when there are any, every other line is accumulated verbatim, and
      what is left at the end is flushed. */
  method ReadClippings(u: Unicode, lines: seq<string>) returns (clippings: seq<string>)
    ensures clippings == Clippings(IsSeparator(u), lines)
  {
    var isSep := IsSeparator(u);
    clippings := [];
    var current: seq<string> := [];
    ghost var groups: seq<seq<string>> := [];
    var i := 0;
    while i < |lines|
      invariant 0 <= i <= |lines|
      invariant Runs(isSep, lines[..i]) == (if |current| == 0 then groups else groups + [current])
      invariant |current| > 0 <==> i > 0 && !isSep(lines[i - 1])
      invariant clippings == ConcatEach(groups)
    {
      var line := lines[i];
      RunsStep(isSep, lines, i, groups, current);
      if isSep(line) {
        if current != [] {
          ConcatEachAppend(groups, current);
          clippings := clippings + [Concat(current)];
          groups := groups + [current];
          current := [];
        }
      } else {
        current := current + [line];
      }
      i := i + 1;
    }
    if current != [] {
      ConcatEachAppend(groups, current);
      clippings := clippings + [Concat(current)];
      groups := groups + [current];
    }
    assert lines[..i] == lines;
  }

  /** One step of read_clippings's loop keeps the runs of the lines read so
      far equal to the flushed groups followed by the pending one. */
  lemma RunsStep(isSep: string -> bool, lines: seq<string>, i: nat, groups: seq<seq<string>>, current: seq<string>)
    requires i < |lines|
    requires Runs(isSep, lines[..i]) == (if |current| == 0 then groups else groups + [current])
    requires |current| > 0 <==> i > 0 && !isSep(lines[i - 1])
    ensures isSep(lines[i]) ==> Runs(isSep, lines[..i + 1]) == (if |current| == 0 then groups else groups + [current])
    ensures !isSep(lines[i]) ==> Runs(isSep, lines[..i + 1]) == groups + [current + [lines[i]]]
  {
    assert lines[..i + 1][..i] == lines[..i];
    if !isSep(lines[i]) && |current| == 0 {
      assert current + [lines[i]] == [lines[i]];
    }
  }

  lemma {:induction false} NonSeparatorsAppend(isSep: string -> bool, a: seq<string>, b: seq<string>)
    ensures NonSeparators(isSep, a + b) == NonSeparators(isSep, a) + NonSeparators(isSep, b)
  {
    if a == [] {
      assert a + b == b;
    } else {
      assert (a + b)[1..] == a[1..] + b;
      NonSeparatorsAppend(isSep, a[1..], b);
    }
  }

  /** Nothing is lost or reordered: the runs, one after the other, are the
      non-separator lines of the input in input order. */
  lemma {:induction false} RunsKeepEveryLine(isSep: string -> bool, lines: seq<string>)
    ensures Concat(Runs(isSep, lines)) == NonSeparators(isSep, lines)
    decreases |lines|
  {
    if lines != [] {
      var init, last := lines[..|lines| - 1], lines[|lines| - 1];
      assert lines == init + [last];
      RunsKeepEveryLine(isSep, init);
      NonSeparatorsAppend(isSep, init, [last]);
      assert NonSeparators(isSep, [last]) == (if isSep(last) then [] else [last]);
      var gs := Runs(isSep, init);
      if isSep(last) {
      } else if init != [] && !isSep(init[|init| - 1]) {
        var front, run := gs[..|gs| - 1], gs[|gs| - 1];
        assert gs == front + [run];
        ConcatExtendLast(front, run, last);
      } else {
        ConcatSnoc(gs, [last]);
      }
    }
  }

  /** The text of the clippings, concatenated, is the text of the
      non-separator lines, concatenated. */
  lemma ClippingsKeepEveryLine(isSep: string -> bool, lines: seq<string>)
    ensures Concat(Clippings(isSep, lines)) == Concat(NonSeparators(isSep, lines))
  {
    RunsKeepEveryLine(isSep, lines);
    ConcatOfConcatEach(Runs(isSep, lines));
  }

  /** The input has exactly one run per position at which a run starts, so
      leading, trailing and repeated separators produce no run. */
  lemma {:induction false} RunsCount(isSep: string -> bool, lines: seq<string>)
    ensures |Runs(isSep, lines)| == |RunStarts(isSep, lines)|
    decreases |lines|
  {
    if lines != [] {
      var n := |lines| - 1;
      var init, last := lines[..n], lines[n];
      RunsCount(isSep, init);
      assert forall i :: 0 <= i < n ==> (StartsRun(isSep, lines, i) <==> StartsRun(isSep, init, i));
      var before := RunStarts(isSep, init);
      assert n !in before;
      if StartsRun(isSep, lines, n) {
        assert RunStarts(isSep, lines) == before + {n};
        assert |Runs(isSep, lines)| == |Runs(isSep, init)| + 1;
      } else {
        assert RunStarts(isSep, lines) == before;
        assert |Runs(isSep, lines)| == |Runs(isSep, init)|;
      }
    }
  }

  /** File iteration never yields an empty line, and then no clipping is
      empty either, so every clipping has a first line. */
  lemma ClippingsNonEmpty(isSep: string -> bool, lines: seq<string>)
    requires forall i :: 0 <= i < |lines| ==> lines[i] != []
    ensures forall i :: 0 <= i < |Clippings(isSep, lines)| ==> Clippings(isSep, lines)[i] != []
  {
    var gs := Runs(isSep, lines);
    RunsTakeInputLines(isSep, lines);
    forall i | 0 <= i < |gs|
      ensures Concat(gs[i]) != []
    {
      ConcatEmpty(gs[i]);
      assert gs[i][0] in lines;
    }
  }

  /** Where the runs lie: the i-th run is the slice lines[s..e] of the input,
      beginning where a run starts and ending just before a separator line or
      at the end of the input. Only the last run can reach the end, and it
      does when the last line is not a separator. */
  lemma {:induction false} RunBounds(isSep: string -> bool, lines: seq<string>, i: nat) returns (s: nat, e: nat)
    requires i < |Runs(isSep, lines)|
    ensures s < e <= |lines| && Runs(isSep, lines)[i] == lines[s..e]
    ensures StartsRun(isSep, lines, s)
    ensures e == |lines| || isSep(lines[e])
    ensures e == |lines| ==> i == |Runs(isSep, lines)| - 1
    ensures i == |Runs(isSep, lines)| - 1 && !isSep(lines[|lines| - 1]) ==> e == |lines|
    decreases |lines|, 1
  {
    var n := |lines| - 1;
    if isSep(lines[n]) {
      s, e := RunBoundsAtSeparator(isSep, lines, i);
    } else if n > 0 && !isSep(lines[n - 1]) {
      s, e := RunBoundsExtending(isSep, lines, i);
    } else {
      s, e := RunBoundsStarting(isSep, lines, i);
    }
  }

  /** RunBounds when the last line is a separator: the runs are those of the
      lines before it. */
  lemma RunBoundsAtSeparator(isSep: string -> bool, lines: seq<string>, i: nat) returns (s: nat, e: nat)
    requires i < |Runs(isSep, lines)| && isSep(lines[|lines| - 1])
    ensures s < e <= |lines| && Runs(isSep, lines)[i] == lines[s..e]
    ensures StartsRun(isSep, lines, s)
    ensures e == |lines| || isSep(lines[e])
    ensures e == |lines| ==> i == |Runs(isSep, lines)| - 1
    decreases |lines|, 0
  {
    var n := |lines| - 1;
    var init := lines[..n];
    var gs := Runs(isSep, init);
    assert Runs(isSep, lines) == gs;
    s, e := RunBounds(isSep, init, i);
    SliceOfPrefix(lines, s, e, n);
    StartsRunInPrefix(isSep, lines, s, n);
    assert Runs(isSep, lines)[i] == gs[i] == lines[s..e];
  }

  /** RunBounds when the last two lines are not separators: the last line
      extends the last run. */
  lemma RunBoundsExtending(isSep: string -> bool, lines: seq<string>, i: nat) returns (s: nat, e: nat)
    requires i < |Runs(isSep, lines)| && |lines| > 1
    requires !isSep(lines[|lines| - 1]) && !isSep(lines[|lines| - 2])
    ensures s < e <= |lines| && Runs(isSep, lines)[i] == lines[s..e]
    ensures StartsRun(isSep, lines, s)
    ensures e == |lines| || isSep(lines[e])
    ensures e == |lines| <==> i == |Runs(isSep, lines)| - 1
    decreases |lines|, 0
  {
    var n := |lines| - 1;
    var init, last := lines[..n], lines[n];
    var gs := Runs(isSep, init);
    var m := |gs| - 1;
    assert Runs(isSep, lines) == gs[..m] + [gs[m] + [last]];
    if i < m {
      s, e := RunBounds(isSep, init, i);
      SliceOfPrefix(lines, s, e, n);
      StartsRunInPrefix(isSep, lines, s, n);
      assert Runs(isSep, lines)[i] == gs[i] == lines[s..e];
    } else {
      var s0, e0 := RunBounds(isSep, init, m);
      assert i == m && e0 == n && gs[m] == init[s0..n];
      s, e := s0, n + 1;
      SliceExtend(lines, s, n);
      StartsRunInPrefix(isSep, lines, s, n);
      assert Runs(isSep, lines)[i] == gs[m] + [last] == lines[s..e];
    }
  }

  /** RunBounds when the last line is not a separator and the one before it
      is, or there is none: the last line starts a run of its own. */
  lemma RunBoundsStarting(isSep: string -> bool, lines: seq<string>, i: nat) returns (s: nat, e: nat)
    requires i < |Runs(isSep, lines)| && !isSep(lines[|lines| - 1])
    requires |lines| == 1 || isSep(lines[|lines| - 2])
    ensures s < e <= |lines| && Runs(isSep, lines)[i] == lines[s..e]
    ensures StartsRun(isSep, lines, s)
    ensures e == |lines| || isSep(lines[e])
    ensures e == |lines| <==> i == |Runs(isSep, lines)| - 1
    decreases |lines|, 0
  {
    var n := |lines| - 1;
    var init, last := lines[..n], lines[n];
    var gs := Runs(isSep, init);
    assert Runs(isSep, lines) == gs + [[last]];
    if i < |gs| {
      s, e := RunBounds(isSep, init, i);
      SliceOfPrefix(lines, s, e, n);
      StartsRunInPrefix(isSep, lines, s, n);
      assert Runs(isSep, lines)[i] == gs[i] == lines[s..e];
    } else {
      s, e := n, n + 1;
    }
  }

  lemma StartsRunInPrefix(isSep: string -> bool, lines: seq<string>, s: nat, n: nat)
    requires s < n <= |lines|
    ensures StartsRun(isSep, lines[..n], s) <==> StartsRun(isSep, lines, s)
  {
  }

  lemma SliceOfPrefix<T>(xs: seq<T>, s: nat, e: nat, n: nat)
    requires s <= e <= n <= |xs|
    ensures xs[s..e] == xs[..n][s..e]
  {
  }

  lemma SliceExtend<T>(xs: seq<T>, s: nat, n: nat)
    requires s <= n < |xs|
    ensures xs[s..n + 1] == xs[..n][s..n] + [xs[n]]
  {
  }

  /** run is a block of consecutive lines of `lines` that begins where a
      run starts and ends just before a separator line or at the end. */
  ghost predicate IsBlock(isSep: string -> bool, lines: seq<string>, run: seq<string>)
  {
    exists s, e :: 0 <= s < e <= |lines| && run == lines[s..e] && StartsRun(isSep, lines, s) && (e == |lines| || isSep(lines[e]))
  }

  /** Every run is such a block. */
  lemma RunsAreBlocks(isSep: string -> bool, lines: seq<string>)
    ensures forall i :: 0 <= i < |Runs(isSep, lines)| ==> IsBlock(isSep, lines, Runs(isSep, lines)[i])
  {
    forall i | 0 <= i < |Runs(isSep, lines)|
      ensures IsBlock(isSep, lines, Runs(isSep, lines)[i])
    {
      var s, e := RunBounds(isSep, lines, i);
    }
  }

  /** Every line of every run is a line of the input. */
  lemma {:induction false} RunsTakeInputLines(isSep: string -> bool, lines: seq<string>)
    ensures forall i, j :: 0 <= i < |Runs(isSep, lines)| && 0 <= j < |Runs(isSep, lines)[i]| ==> Runs(isSep, lines)[i][j] in lines
    decreases |lines|
  {
    if lines != [] {
      var init := lines[..|lines| - 1];
      RunsTakeInputLines(isSep, init);
      assert forall l :: l in init ==> l in lines;
    }
  }
}
