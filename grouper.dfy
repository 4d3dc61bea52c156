/** separate_clippings_by_title: the clippings are collected into a dict
    keyed by title. A new list is started whenever the title differs from the
    title of the clipping just before, so a title that comes back after
    another title loses its earlier clippings. */
module Grouper {
  import opened Text
  import opened OrderedDict

  /** The dict from title to clippings; its keys are the books. */
  type BookDict = Dict<string, seq<string>>

  /** What separate_clippings_by_title produces: the dict, or the IndexError
      that clipping.splitlines()[0] raises for the first clipping with no
      lines, which is the empty clipping. */
  datatype Grouping = Grouped(books: BookDict) | IndexError(at: nat)

  /** The title of a clipping: its first line, stripped. */
  function Title(u: Unicode, clipping: string): string
  {
    Strip(u, FirstLine(u, clipping))
  }

  /** The title of each clipping, in order. */
  function Titles(u: Unicode, clippings: seq<string>): seq<string>
  {
    seq(|clippings|, i requires 0 <= i < |clippings| => Title(u, clippings[i]))
  }

  /** Positions a to b (exclusive) are the last maximal run of k in ts: all
      of them hold k, the one before does not, and no later one does. */
  predicate IsLastRun(ts: seq<string>, k: string, a: int, b: int)
  {
    && 0 <= a < b <= |ts|
    && (forall i :: a <= i < b ==> ts[i] == k)
    && (a == 0 || ts[a - 1] != k)
    && (forall i :: b <= i < |ts| ==> ts[i] != k)
  }

  /** The distinct elements of ts, in the order in which each first appears. */
  function FirstAppearances(ts: seq<string>): (ks: seq<string>)
    ensures forall k :: k in ks <==> k in ts
    ensures forall i, j :: 0 <= i < j < |ks| ==> ks[i] != ks[j]
  {
    if ts == [] then []
    else
      var ks := FirstAppearances(ts[..|ts| - 1]);
      assert forall k :: k in ts <==> k in ts[..|ts| - 1] || k == ts[|ts| - 1] by {
        assert ts == ts[..|ts| - 1] + [ts[|ts| - 1]];
      }
      if ts[|ts| - 1] in ks then ks else ks + [ts[|ts| - 1]]
  }

  /** Appending a title t leaves the last run of every other title where it was. */
  lemma LastRunAppendOther(s: seq<string>, t: string, k: string, a: int, b: int)
    requires k != t
    ensures IsLastRun(s + [t], k, a, b) <==> IsLastRun(s, k, a, b)
  {
    var s' := s + [t];
    assert forall i :: 0 <= i < |s| ==> s'[i] == s[i];
    assert s'[|s|] == t;
  }

  /** Appending a title t either extends the run of t that ends the sequence,
      or starts a new last run of t at the end. */
  lemma LastRunAppendSame(s: seq<string>, t: string, a: int, b: int)
    ensures IsLastRun(s + [t], t, a, b) <==>
      b == |s| + 1 &&
      if s != [] && s[|s| - 1] == t then a < |s| && IsLastRun(s, t, a, |s|) else a == |s|
  {
    var s' := s + [t];
    assert forall i :: 0 <= i < |s| ==> s'[i] == s[i];
    if IsLastRun(s', t, a, b) {
      assert s'[|s|] == t;
      if a < |s| {
        assert s'[|s| - 1] == t;
      }
    }
  }

  /** The dict after the clippings cs with titles ts: a clipping whose
      title repeats the previous clipping's title is appended to that
      title's list; any other clipping replaces the list under its title by
      a list of its own. */
  function Group(ts: seq<string>, cs: seq<string>): (books: BookDict)
    requires |ts| == |cs|
    ensures books.Valid()
    decreases |ts|
  {
    if ts == [] then Empty()
    else
      var n := |ts| - 1;
      var before := Group(ts[..n], cs[..n]);
      var run := if n > 0 && ts[n - 1] == ts[n] then GetOr(before, ts[n], []) else [];
      Put(before, ts[n], run + [cs[n]])
  }

  /** The keys of the dict are the titles in the order in which each first appears. */
  lemma {:induction false} GroupKeys(ts: seq<string>, cs: seq<string>)
    requires |ts| == |cs|
    ensures Group(ts, cs).keys == FirstAppearances(ts)
    decreases |ts|
  {
    if ts != [] {
      var n := |ts| - 1;
      GroupKeys(ts[..n], cs[..n]);
    }
  }

  /** One step of separate_clippings_by_title's loop: after the clippings
      before position i, the dict is Group of them; resetting the title's list
      when the title changes and then appending the clipping gives Group of
      the clippings up to and including position i. */
  lemma GroupStep(ts: seq<string>, cs: seq<string>, i: nat, books: BookDict)
    requires i < |ts| == |cs|
    requires books == Group(ts[..i], cs[..i])
    ensures !(i > 0 && ts[i - 1] == ts[i]) ==>
      var reset := Put(books, ts[i], []);
      Put(reset, ts[i], Get(reset, ts[i]).value + [cs[i]]) == Group(ts[..i + 1], cs[..i + 1])
    ensures i > 0 && ts[i - 1] == ts[i] ==>
      Get(books, ts[i]).Some? && Put(books, ts[i], Get(books, ts[i]).value + [cs[i]]) == Group(ts[..i + 1], cs[..i + 1])
  {
    assert ts[..i + 1][..i] == ts[..i] && cs[..i + 1][..i] == cs[..i];
    if i > 0 && ts[i - 1] == ts[i] {
      GroupKeys(ts[..i], cs[..i]);
      assert ts[i] in ts[..i];
    } else {
      var reset := Put(books, ts[i], []);
      assert Get(reset, ts[i]).value == [];
      PutTwice(books, ts[i], [], [] + [cs[i]]);
      assert Group(ts[..i + 1], cs[..i + 1]) == Put(books, ts[i], [] + [cs[i]]);
    }
  }

  /** The loop of separate_clippings_by_title. */
  method SeparateByTitle(u: Unicode, clippings: seq<string>) returns (r: Grouping)
    ensures r.IndexError? <==> exists i :: 0 <= i < |clippings| && clippings[i] == []
    ensures r.IndexError? ==>
      r.at < |clippings| && clippings[r.at] == [] && forall j :: 0 <= j < r.at ==> clippings[j] != []
    ensures r.Grouped? ==> r.books == Group(Titles(u, clippings), clippings)
  {
    ghost var ts := Titles(u, clippings);
    var books: BookDict := Empty();
    var current: Option<string> := None;
    var i := 0;
    while i < |clippings|
      invariant 0 <= i <= |clippings|
      invariant forall j :: 0 <= j < i ==> |clippings[j]| > 0
      invariant current == if i == 0 then None else Some(ts[i - 1])
      invariant books == Group(ts[..i], clippings[..i])
    {
      var clipping := clippings[i];
      if |clipping| == 0 {
        r := IndexError(i);
        return;
      }
      assert forall j :: 0 <= j < i + 1 ==> |clippings[j]| > 0;
      var title := Title(u, clipping);
      assert title == ts[i] && clipping == clippings[i];
      assert current == Some(title) <==> i > 0 && ts[i - 1] == ts[i];
      GroupStep(ts, clippings, i, books);
      ghost var next := Group(ts[..i + 1], clippings[..i + 1]);
      if current != Some(title) {
        current := Some(title);
        books := Put(books, title, []);
      }
      books := Put(books, title, Get(books, title).value + [clipping]);
      assert books == next;
      i := i + 1;
    }
    assert ts[..i] == ts && clippings[..i] == clippings;
    r := Grouped(books);
  }

  /** What the grouping means: its keys are the titles in order of first
      appearance, and each title holds exactly its last run of clippings. */
  lemma GroupHoldsLastRuns(ts: seq<string>, cs: seq<string>)
    requires |ts| == |cs|
    ensures forall k, a, b :: IsLastRun(ts, k, a, b) ==> Get(Group(ts, cs), k) == Some(cs[a..b])
  {
    PrefixHoldsLastRuns(ts, cs, |ts|);
    assert ts[..|ts|] == ts && cs[..|cs|] == cs;
  }

  /** GroupHoldsLastRuns for the first i clippings, by induction on i. */
  lemma {:induction false} PrefixHoldsLastRuns(ts: seq<string>, cs: seq<string>, i: nat)
    requires i <= |ts| == |cs|
    ensures forall k, a, b :: IsLastRun(ts[..i], k, a, b) ==> Get(Group(ts[..i], cs[..i]), k) == Some(cs[a..b])
  {
    if i > 0 {
      var n := i - 1;
      PrefixHoldsLastRuns(ts, cs, n);
      var start := 0;
      if n > 0 {
        start := PreviousRun(ts, n);
      }
      GroupAt(ts, cs, n);
      LastRunsAfterStep(ts, cs, n, start, Group(ts[..n], cs[..n]), Group(ts[..i], cs[..i]));
    }
  }

  /** Group after the first i + 1 clippings, looked up: only the title of
      clipping i has changed. */
  lemma GroupAt(ts: seq<string>, cs: seq<string>, i: nat)
    requires i < |ts| == |cs|
    ensures Get(Group(ts[..i + 1], cs[..i + 1]), ts[i]) ==
      Some((if i > 0 && ts[i - 1] == ts[i] then GetOr(Group(ts[..i], cs[..i]), ts[i], []) else []) + [cs[i]])
    ensures forall k :: k != ts[i] ==> Get(Group(ts[..i + 1], cs[..i + 1]), k) == Get(Group(ts[..i], cs[..i]), k)
  {
    assert ts[..i + 1][..i] == ts[..i] && cs[..i + 1][..i] == cs[..i];
  }

  /** The properties of separate_clippings_by_title's dict, for the titles of the clippings. */
  lemma GroupedByLastRun(u: Unicode, clippings: seq<string>)
    ensures Group(Titles(u, clippings), clippings).keys == FirstAppearances(Titles(u, clippings))
    ensures forall k, a, b :: IsLastRun(Titles(u, clippings), k, a, b) ==>
      Get(Group(Titles(u, clippings), clippings), k) == Some(clippings[a..b])
    ensures forall k :: k in Group(Titles(u, clippings), clippings).keys ==>
      Get(Group(Titles(u, clippings), clippings), k).Some? &&
      Get(Group(Titles(u, clippings), clippings), k).value != [] &&
      forall c :: c in Get(Group(Titles(u, clippings), clippings), k).value ==> Title(u, c) == k
  {
    GroupKeys(Titles(u, clippings), clippings);
    GroupHoldsLastRuns(Titles(u, clippings), clippings);
    ListsHoldTheirTitle(u, clippings, Group(Titles(u, clippings), clippings));
  }

  /** A dict that holds the last run of every title holds, under each key, a
      non-empty list of clippings that all have that key as their title. */
  lemma ListsHoldTheirTitle(u: Unicode, clippings: seq<string>, books: BookDict)
    requires books.Valid() && books.keys == FirstAppearances(Titles(u, clippings))
    requires forall k, a, b :: IsLastRun(Titles(u, clippings), k, a, b) ==> Get(books, k) == Some(clippings[a..b])
    ensures forall k :: k in books.keys ==>
      Get(books, k).Some? && Get(books, k).value != [] &&
      forall c :: c in Get(books, k).value ==> Title(u, c) == k
  {
    var ts := Titles(u, clippings);
    forall k | k in books.keys
      ensures Get(books, k).Some? && Get(books, k).value != []
      ensures forall c :: c in Get(books, k).value ==> Title(u, c) == k
    {
      var a, b := LastRunOf(ts, k);
      assert Get(books, k).value == clippings[a..b];
      RunHasTitle(u, clippings, k, a, b);
    }
  }

  /** The clippings of a run of title k all have title k. */
  lemma RunHasTitle(u: Unicode, clippings: seq<string>, k: string, a: int, b: int)
    requires IsLastRun(Titles(u, clippings), k, a, b)
    ensures forall c :: c in clippings[a..b] ==> Title(u, c) == k
  {
    forall c | c in clippings[a..b]
      ensures Title(u, c) == k
    {
      var j :| 0 <= j < b - a && clippings[a..b][j] == c;
      assert clippings[a + j] == c && Titles(u, clippings)[a + j] == Title(u, c);
    }
  }

  /** One step of the loop: when the dict held the last run of every title
      among the first i clippings, and the step stores the extended or the
      new run under title ts[i] and touches no other key, the dict holds the
      last run of every title among the first i + 1 clippings. */
  lemma LastRunsAfterStep(ts: seq<string>, cs: seq<string>, i: nat, start: nat, before: BookDict, after: BookDict)
    requires i < |ts| == |cs|
    requires forall k, a, b :: IsLastRun(ts[..i], k, a, b) ==> Get(before, k) == Some(cs[a..b])
    requires i > 0 ==> start < i && IsLastRun(ts[..i], ts[i - 1], start, i)
    requires forall k :: k != ts[i] ==> Get(after, k) == Get(before, k)
    requires Get(after, ts[i]) == Some((if i > 0 && ts[i - 1] == ts[i] then GetOr(before, ts[i], []) else []) + [cs[i]])
    ensures forall k, a, b :: IsLastRun(ts[..i + 1], k, a, b) ==> Get(after, k) == Some(cs[a..b])
  {
    if i > 0 && ts[i - 1] == ts[i] {
      assert GetOr(before, ts[i], []) == cs[start..i];
      assert cs[start..i + 1] == cs[start..i] + [cs[i]];
    } else {
      assert [] + [cs[i]] == cs[i..i + 1];
    }
    var prefix, t := ts[..i], ts[i];
    assert ts[..i + 1] == prefix + [t];
    forall k, a, b | IsLastRun(ts[..i + 1], k, a, b)
      ensures Get(after, k) == Some(cs[a..b])
    {
      if k == t {
        LastRunAppendSame(prefix, t, a, b);
        if i > 0 && prefix[i - 1] == t {
          LastRunUnique(prefix, t, a, i, start, i);
        }
      } else {
        LastRunAppendOther(prefix, t, k, a, b);
      }
    }
  }

  /** Every title of the input has a last run. */
  lemma {:induction false} LastRunOf(ts: seq<string>, k: string) returns (a: nat, b: nat)
    requires k in ts
    ensures IsLastRun(ts, k, a, b)
    decreases |ts|
  {
    var s, t := ts[..|ts| - 1], ts[|ts| - 1];
    assert ts == s + [t];
    if t == k {
      if s != [] && s[|s| - 1] == k {
        a, b := LastRunOf(s, k);
        assert b == |s|;
        LastRunAppendSame(s, k, a, b + 1);
        b := b + 1;
      } else {
        a, b := |s|, |s| + 1;
        LastRunAppendSame(s, k, a, b);
      }
    } else {
      a, b := LastRunOf(s, k);
      LastRunAppendOther(s, t, k, a, b);
    }
  }

  /** The clipping before position n ends a run: the last run of its title. */
  lemma PreviousRun(ts: seq<string>, n: nat) returns (start: nat)
    requires 0 < n <= |ts|
    ensures start < n && IsLastRun(ts[..n], ts[n - 1], start, n)
  {
    assert ts[..n][n - 1] == ts[n - 1];
    var b;
    start, b := LastRunOf(ts[..n], ts[n - 1]);
  }

  /** A title has only one last run, so the list under each key is determined. */
  lemma LastRunUnique(ts: seq<string>, k: string, a: int, b: int, a': int, b': int)
    requires IsLastRun(ts, k, a, b) && IsLastRun(ts, k, a', b')
    ensures a == a' && b == b'
  {
    assert ts[b - 1] == k && ts[b' - 1] == k;
    assert b == b';
    assert ts[a] == k && ts[a'] == k;
  }

  /** Titles A, A, B, A: the dict lists A before B, but the last block of A
      is the final clipping alone, so that is all it keeps under A. */
  lemma OverwriteExample(cs: seq<string>)
    requires |cs| == 4
    ensures Get(Group(["A", "A", "B", "A"], cs), "A") == Some([cs[3]])
    ensures Get(Group(["A", "A", "B", "A"], cs), "B") == Some([cs[2]])
  {
    var ts := ["A", "A", "B", "A"];
    GroupHoldsLastRuns(ts, cs);
    assert ts[3] == "A" && ts[2] == "B" && ts[1] == "A";
    assert IsLastRun(ts, "A", 3, 4) && IsLastRun(ts, "B", 2, 3);
    assert cs[3..4] == [cs[3]] && cs[2..3] == [cs[2]];
  }
}
