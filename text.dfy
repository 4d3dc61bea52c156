/** Values shared by every stage of the parser: an optional value, the
    Unicode character classes that Python's string methods and regular
    expressions consult, and the string operations built on them. */
module Text {

  datatype Option<T> = None | Some(value: T)

  /** The parts of Python's Unicode database that the parser depends on.
      They are left abstract: every property proved below holds for any
      choice of tables. */
  datatype Unicode = Unicode(
    isSpace: char -> bool,       // str.isspace, which is also what \s matches in a str pattern
    isWord: char -> bool,        // what \w matches in a str pattern (letters and digits of every script, and _)
    isLineBreak: char -> bool,   // a line boundary of str.splitlines
    asciiFold: string -> string  // unicodedata.normalize("NFKD", s).encode("ASCII", "ignore").decode()
  )

  /** s with its leading whitespace removed (str.lstrip). */
  function TrimStart(u: Unicode, s: string): (r: string)
  {
    if s != [] && u.isSpace(s[0]) then TrimStart(u, s[1..]) else s
  }

  /** s with its trailing whitespace removed (str.rstrip). */
  function TrimEnd(u: Unicode, s: string): (r: string)
  {
    if s != [] && u.isSpace(s[|s| - 1]) then TrimEnd(u, s[..|s| - 1]) else s
  }

  /** str.strip: s without its leading and trailing whitespace. */
  function Strip(u: Unicode, s: string): string
  {
    TrimEnd(u, TrimStart(u, s))
  }

  /** lstrip removes exactly the leading whitespace: what it drops is all
      whitespace, and what it keeps is a suffix that does not start with any. */
  lemma {:induction false} TrimStartRemovesLeading(u: Unicode, s: string)
    ensures |TrimStart(u, s)| <= |s| && TrimStart(u, s) == s[|s| - |TrimStart(u, s)|..]
    ensures TrimStart(u, s) != [] ==> !u.isSpace(TrimStart(u, s)[0])
    ensures forall i :: 0 <= i < |s| - |TrimStart(u, s)| ==> u.isSpace(s[i])
  {
    if s != [] && u.isSpace(s[0]) {
      TrimStartRemovesLeading(u, s[1..]);
      assert forall i :: 1 <= i < |s| ==> s[1..][i - 1] == s[i];
    }
  }

  /** rstrip removes exactly the trailing whitespace. */
  lemma {:induction false} TrimEndRemovesTrailing(u: Unicode, s: string)
    ensures |TrimEnd(u, s)| <= |s| && TrimEnd(u, s) == s[..|TrimEnd(u, s)|]
    ensures TrimEnd(u, s) != [] ==> !u.isSpace(TrimEnd(u, s)[|TrimEnd(u, s)| - 1])
    ensures forall i :: |TrimEnd(u, s)| <= i < |s| ==> u.isSpace(s[i])
  {
    if s != [] && u.isSpace(s[|s| - 1]) {
      TrimEndRemovesTrailing(u, s[..|s| - 1]);
    }
  }

  /** strip keeps a contiguous part of s with no whitespace at either end,
      and drops only whitespace. */
  lemma StripTrims(u: Unicode, s: string)
    ensures exists a, b ::
      && 0 <= a <= b <= |s| && Strip(u, s) == s[a..b]
      && (forall i :: 0 <= i < a ==> u.isSpace(s[i]))
      && (forall i :: b <= i < |s| ==> u.isSpace(s[i]))
    ensures Strip(u, s) != [] ==> !u.isSpace(Strip(u, s)[0]) && !u.isSpace(Strip(u, s)[|Strip(u, s)| - 1])
  {
    var t := TrimStart(u, s);
    TrimStartRemovesLeading(u, s);
    TrimEndRemovesTrailing(u, t);
    var r := Strip(u, s);
    var a, b := |s| - |t|, |s| - |t| + |r|;
    assert r == s[a..b];
    assert forall i :: b <= i < |s| ==> s[i] == t[i - a];
    if r != [] {
      assert r[0] == t[0];
    }
  }

  /** The first element of str.splitlines for a non-empty s: the characters
      before the first line boundary. */
  function FirstLine(u: Unicode, s: string): (r: string)
    ensures |r| <= |s| && r == s[..|r|]
    ensures forall i :: 0 <= i < |r| ==> !u.isLineBreak(r[i])
    ensures |r| < |s| ==> u.isLineBreak(s[|r|])
  {
    if s == [] || u.isLineBreak(s[0]) then [] else [s[0]] + FirstLine(u, s[1..])
  }

  /** The concatenation of a sequence of sequences, in order ("".join for strings). */
  function Concat<T>(ss: seq<seq<T>>): seq<T>
  {
    if ss == [] then [] else ss[0] + Concat(ss[1..])
  }

  /** Concat of each element of a sequence of sequences of sequences. */
  function ConcatEach<T>(gs: seq<seq<seq<T>>>): seq<seq<T>>
  {
    seq(|gs|, i requires 0 <= i < |gs| => Concat(gs[i]))
  }

  lemma ConcatEachAppend<T>(gs: seq<seq<seq<T>>>, g: seq<seq<T>>)
    ensures ConcatEach(gs + [g]) == ConcatEach(gs) + [Concat(g)]
  {
  }

  lemma {:induction false} ConcatAppend<T>(a: seq<seq<T>>, b: seq<seq<T>>)
    ensures Concat(a + b) == Concat(a) + Concat(b)
  {
    if a == [] {
      assert a + b == b;
    } else {
      assert (a + b)[0] == a[0];
      assert (a + b)[1..] == a[1..] + b;
      ConcatAppend(a[1..], b);
    }
  }

  /** Joining after one more part. */
  lemma ConcatSnoc<T>(ss: seq<seq<T>>, t: seq<T>)
    ensures Concat(ss + [t]) == Concat(ss) + t
  {
    ConcatAppend(ss, [t]);
    assert Concat([t]) == t + Concat([t][1..]);
    assert t + [] == t;
  }

  /** Joining after one more element is added to the last part. */
  lemma ConcatExtendLast<T>(front: seq<seq<T>>, t: seq<T>, x: T)
    ensures Concat(front + [t + [x]]) == Concat(front + [t]) + [x]
  {
    ConcatSnoc(front, t);
    ConcatSnoc(front, t + [x]);
  }

  /** Joining each group and then the results is joining everything at once. */
  lemma {:induction false} ConcatOfConcatEach<T>(gs: seq<seq<seq<T>>>)
    ensures Concat(ConcatEach(gs)) == Concat(Concat(gs))
  {
    if gs != [] {
      assert ConcatEach(gs)[1..] == ConcatEach(gs[1..]);
      ConcatOfConcatEach(gs[1..]);
      ConcatAppend(gs[0], Concat(gs[1..]));
    }
  }

  /** A sequence is empty exactly when every part of it is. */
  lemma {:induction false} ConcatEmpty<T>(ss: seq<seq<T>>)
    ensures Concat(ss) == [] <==> forall i :: 0 <= i < |ss| ==> ss[i] == []
  {
    if ss != [] {
      ConcatEmpty(ss[1..]);
      assert forall i :: 1 <= i < |ss| ==> ss[i] == ss[1..][i - 1];
    }
  }

  /** r keeps some of the elements of s, in their order. */
  predicate IsSubsequence<T(==)>(r: seq<T>, s: seq<T>)
    decreases |s|
  {
    r == [] || (s != [] && if r[0] == s[0] then IsSubsequence(r[1..], s[1..]) else IsSubsequence(r, s[1..]))
  }
}
