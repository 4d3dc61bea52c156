/** clean_title: the name of a book's output file is its title with every
    character removed that is not a word character, whitespace or a hyphen.
    The function also builds an ASCII-folded copy of the title with slashes
    and colons replaced, but it returns the filtered original title, so that
    copy has no effect on the result. */
module Sanitizer {
  import opened Text

  /** The characters the pattern [^\w\s-] does not match. */
  predicate IsSafe(u: Unicode, c: char)
  {
    u.isWord(c) || u.isSpace(c) || c == '-'
  }

  /** re.sub(r"[^\w\s-]", "", s): the safe characters of s, in order. */
  function KeepSafe(u: Unicode, s: string): (r: string)
    ensures |r| <= |s|
    ensures forall i :: 0 <= i < |r| ==> IsSafe(u, r[i])
  {
    if s == [] then [] else (if IsSafe(u, s[0]) then [s[0]] else []) + KeepSafe(u, s[1..])
  }

  /** The filter keeps every occurrence of each safe character and none of
      any other character. */
  lemma {:induction false} KeepSafeCounts(u: Unicode, s: string)
    ensures forall c :: multiset(KeepSafe(u, s))[c] == if IsSafe(u, c) then multiset(s)[c] else 0
  {
    if s != [] {
      KeepSafeCounts(u, s[1..]);
      assert s == [s[0]] + s[1..];
    }
  }

  /** s.replace(from, to) for single characters. */
  function Replace(s: string, from: char, to: char): (r: string)
    ensures |r| == |s|
    ensures forall i :: 0 <= i < |s| ==> r[i] == if s[i] == from then to else s[i]
  {
    if s == [] then [] else [if s[0] == from then to else s[0]] + Replace(s[1..], from, to)
  }

  /** clean_title(title). */
  function CleanTitle(u: Unicode, title: string): string
  {
    var normalized := u.asciiFold(title);
    var replaced := Replace(Replace(normalized, '/', '-'), ':', '_');
    KeepSafe(u, title)
  }

  /** The filter keeps a subsequence of its input. */
  lemma {:induction false} KeepSafeIsSubsequence(u: Unicode, s: string)
    ensures IsSubsequence(KeepSafe(u, s), s)
  {
    if s != [] {
      KeepSafeIsSubsequence(u, s[1..]);
      var rest := KeepSafe(u, s[1..]);
      if IsSafe(u, s[0]) {
        assert KeepSafe(u, s) == [s[0]] + rest;
        assert ([s[0]] + rest)[1..] == rest;
      } else {
        // the next kept character is safe, so it cannot be s[0]
        assert KeepSafe(u, s) == rest;
        assert rest == [] || rest[0] != s[0];
      }
    }
  }

  /** Filtering a concatenation filters each part. */
  lemma {:induction false} KeepSafeAppend(u: Unicode, a: string, b: string)
    ensures KeepSafe(u, a + b) == KeepSafe(u, a) + KeepSafe(u, b)
  {
    if a == [] {
      assert a + b == b;
    } else {
      assert (a + b)[0] == a[0];
      assert (a + b)[1..] == a[1..] + b;
      KeepSafeAppend(u, a[1..], b);
    }
  }

  /** The filter leaves a string alone exactly when all its characters are safe. */
  lemma KeepSafeFixed(u: Unicode, s: string)
    ensures KeepSafe(u, s) == s <==> forall i :: 0 <= i < |s| ==> IsSafe(u, s[i])
  {
    if forall i :: 0 <= i < |s| ==> IsSafe(u, s[i]) {
      AllSafeKept(u, s);
    }
  }

  lemma {:induction false} AllSafeKept(u: Unicode, s: string)
    requires forall i :: 0 <= i < |s| ==> IsSafe(u, s[i])
    ensures KeepSafe(u, s) == s
  {
    if s != [] {
      assert IsSafe(u, s[0]);
      assert forall i :: 0 <= i < |s[1..]| ==> s[1..][i] == s[i + 1];
      AllSafeKept(u, s[1..]);
      assert [s[0]] + s[1..] == s;
    }
  }

  /** clean_title applied to its own result changes nothing. */
  lemma CleanTitleIdempotent(u: Unicode, title: string)
    ensures CleanTitle(u, CleanTitle(u, title)) == CleanTitle(u, title)
  {
    KeepSafeFixed(u, KeepSafe(u, title));
  }

  /** clean_title is the filter: its result keeps, in order, every word
      character, whitespace character and hyphen of the title, and nothing else. */
  lemma CleanTitleIsFilter(u: Unicode, title: string)
    ensures |CleanTitle(u, title)| <= |title|
    ensures IsSubsequence(CleanTitle(u, title), title)
    ensures forall i :: 0 <= i < |CleanTitle(u, title)| ==> IsSafe(u, CleanTitle(u, title)[i])
    ensures forall c :: multiset(CleanTitle(u, title))[c] == if IsSafe(u, c) then multiset(title)[c] else 0
  {
    KeepSafeIsSubsequence(u, title);
    KeepSafeCounts(u, title);
  }

  /** The folded and replaced copy is discarded: any folding table gives the same name. */
  lemma CleanTitleIgnoresFolding(u: Unicode, fold: string -> string, title: string)
    ensures CleanTitle(u.(asciiFold := fold), title) == CleanTitle(u, title)
  {
    assert forall c :: IsSafe(u.(asciiFold := fold), c) == IsSafe(u, c);
    KeepSafeSameClasses(u, u.(asciiFold := fold), title);
  }

  /** The filter depends only on which characters are safe. */
  lemma {:induction false} KeepSafeSameClasses(u: Unicode, v: Unicode, s: string)
    requires forall c :: IsSafe(u, c) == IsSafe(v, c)
    ensures KeepSafe(u, s) == KeepSafe(v, s)
  {
    if s != [] {
      KeepSafeSameClasses(u, v, s[1..]);
    }
  }

  /** Slashes and colons are neither word characters nor whitespace, so a
      name never contains them: they are deleted rather than replaced. */
  lemma CleanTitleDropsSeparators(u: Unicode, title: string)
    requires !u.isWord('/') && !u.isSpace('/') && !u.isWord(':') && !u.isSpace(':')
    ensures '/' !in CleanTitle(u, title) && ':' !in CleanTitle(u, title)
  {
    var r := CleanTitle(u, title);
    assert forall i :: 0 <= i < |r| ==> r[i] != '/' && r[i] != ':';
  }

  /** "Café: Life/Times" becomes "Café LifeTimes": the accented letter is a
      word character and is kept, the colon and the slash are deleted. */
  lemma CleanTitleExample(u: Unicode)
    requires u.isWord('C') && u.isWord('a') && u.isWord('f') && u.isWord('é')
    requires u.isWord('L') && u.isWord('i') && u.isWord('e') && u.isWord('T') && u.isWord('m') && u.isWord('s')
    requires u.isSpace(' ')
    requires !u.isWord('/') && !u.isSpace('/') && !u.isWord(':') && !u.isSpace(':')
    ensures CleanTitle(u, "Café" + ":" + " Life" + "/" + "Times") == "Café" + " Life" + "Times"
  {
    var cafe, life, times := "Café", " Life", "Times";
    assert cafe[0] == 'C' && cafe[1] == 'a' && cafe[2] == 'f' && cafe[3] == 'é';
    AllSafeKept(u, cafe);
    assert life[0] == ' ' && life[1] == 'L' && life[2] == 'i' && life[3] == 'f' && life[4] == 'e';
    AllSafeKept(u, life);
    assert times[0] == 'T' && times[1] == 'i' && times[2] == 'm' && times[3] == 'e' && times[4] == 's';
    AllSafeKept(u, times);
    assert KeepSafe(u, ":") == [] && KeepSafe(u, "/") == [];
    KeepSafeDropsBetween(u, cafe, ":", life, "/", times);
  }

  /** Filtering a + b + c + d + e when b and d are dropped and the rest kept. */
  lemma KeepSafeDropsBetween(u: Unicode, a: string, b: string, c: string, d: string, e: string)
    requires KeepSafe(u, a) == a && KeepSafe(u, b) == [] && KeepSafe(u, c) == c
    requires KeepSafe(u, d) == [] && KeepSafe(u, e) == e
    ensures KeepSafe(u, a + b + c + d + e) == a + c + e
  {
    var ab := a + b;
    KeepSafeAppend(u, a, b);
    assert KeepSafe(u, ab) == a;
    var abc := ab + c;
    KeepSafeAppend(u, ab, c);
    var abcd := abc + d;
    KeepSafeAppend(u, abc, d);
    assert KeepSafe(u, abcd) == a + c;
    KeepSafeAppend(u, abcd, e);
  }
}
