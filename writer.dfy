/** save_clippings_to_md_files: every book of the dict is written to the
    file named after its cleaned title in the output directory. A file that
    already exists is appended to; otherwise it is created. The file system
    is a map from path to file contents. */
module Writer {
  import opened Text
  import opened OrderedDict
  import opened Sanitizer
  import opened Grouper

  const Extension: string := ".md"

  /** os.path.join(dir, name) on a POSIX system: an absolute name replaces
      the directory, and a slash is inserted unless the directory is empty
      or already ends with one. */
  function PathJoin(dir: string, name: string): (path: string)
    ensures name != [] && name[0] == '/' ==> path == name
    ensures !(name != [] && name[0] == '/') ==> |name| <= |path| && path[|path| - |name|..] == name
  {
    if name != [] && name[0] == '/' then name
    else if dir == [] || dir[|dir| - 1] == '/' then dir + name
    else dir + "/" + name
  }

  /** filename = clean_title(title) + ".md" */
  function FileName(u: Unicode, title: string): string
  {
    CleanTitle(u, title) + Extension
  }

  /** filepath = os.path.join(output_dir, filename) */
  function FilePath(u: Unicode, dir: string, title: string): string
  {
    PathJoin(dir, FileName(u, title))
  }

  /** The output file of each title, as a function of the title. */
  function FilePathOf(u: Unicode, dir: string): (pathOf: string -> string)
  {
    title => FilePath(u, dir, title)
  }

  /** What is written for one clipping: a newline, the clipping, and the separator line. */
  function Entry(clipping: string): string
  {
    "\n" + clipping + "\n---\n"
  }

  /** What is written for a list of clippings, in order. */
  function Render(clippings: seq<string>): string
  {
    if clippings == [] then "" else Render(clippings[..|clippings| - 1]) + Entry(clippings[|clippings| - 1])
  }

  /** The contents of path, or nothing when there is no such file. */
  function Existing(files: map<string, string>, path: string): string
  {
    if path in files then files[path] else ""
  }

  /** book_dict.items(), in order. */
  function Items(books: BookDict): seq<(string, seq<string>)>
    requires books.Valid()
  {
    seq(|books.keys|, i requires 0 <= i < |books.keys| => (books.keys[i], books.values[books.keys[i]]))
  }

  /** The files after saving the books `items` into `files`, one after the
      other, when book t goes to file pathOf(t): each book's entries are
      added after what its file held. */
  function SaveItems(pathOf: string -> string, files: map<string, string>, items: seq<(string, seq<string>)>): map<string, string>
  {
    if items == [] then files
    else
      var before := SaveItems(pathOf, files, items[..|items| - 1]);
      var path := pathOf(items[|items| - 1].0);
      before[path := Existing(before, path) + Render(items[|items| - 1].1)]
  }

  /** The files after save_clippings_to_md_files(books, dir). */
  function SaveAll(u: Unicode, dir: string, files: map<string, string>, books: BookDict): map<string, string>
    requires books.Valid()
  {
    SaveItems(FilePathOf(u, dir), files, Items(books))
  }

  /** The entries that saving `items` adds to the file at path: those of
      every book whose file is path, in order. */
  function Collected(pathOf: string -> string, items: seq<(string, seq<string>)>, path: string): string
  {
    if items == [] then ""
    else
      var last := items[|items| - 1];
      Collected(pathOf, items[..|items| - 1], path) + (if pathOf(last.0) == path then Render(last.1) else "")
  }

  /** The paths that saving `items` writes to. */
  function Paths(pathOf: string -> string, items: seq<(string, seq<string>)>): set<string>
  {
    set i | 0 <= i < |items| :: pathOf(items[i].0)
  }

  lemma RenderStep(clippings: seq<string>, j: nat)
    requires j < |clippings|
    ensures Render(clippings[..j + 1]) == Render(clippings[..j]) + Entry(clippings[j])
  {
    assert clippings[..j + 1][..j] == clippings[..j];
  }

  /** Writing the three parts of an entry after text already written. */
  lemma WriteEntry(existing: string, rendered: string, clipping: string)
    ensures existing + rendered + "\n" + clipping + "\n---\n" == existing + (rendered + Entry(clipping))
  {
  }

  lemma SaveItemsStep(pathOf: string -> string, files: map<string, string>, items: seq<(string, seq<string>)>, i: nat)
    requires i < |items|
    ensures SaveItems(pathOf, files, items[..i + 1]) ==
      var before := SaveItems(pathOf, files, items[..i]);
      var path := pathOf(items[i].0);
      before[path := Existing(before, path) + Render(items[i].1)]
  {
    assert items[..i + 1][..i] == items[..i];
  }

  /** How open(path, mode) is called: "w" truncates or creates, "a" keeps or creates. */
  datatype Mode = Write | Append

  /** The file system, as seen by the writer: a map from path to contents. */
  class FileStore {
    var files: map<string, string>

    constructor(initial: map<string, string>)
      ensures files == initial
    {
      files := initial;
    }

    /** os.path.exists(path) */
    method Exists(path: string) returns (b: bool)
      ensures b <==> path in files
    {
      b := path in files;
    }

    /** open(path, mode): both modes create a missing file; "w" also empties an existing one. */
    method Open(path: string, mode: Mode)
      modifies this
      ensures files == if mode == Write || path !in old(files) then old(files)[path := ""] else old(files)
    {
      if mode == Write || path !in files {
        files := files[path := ""];
      }
    }

    /** file.write(text) on the file opened at path. */
    method WriteText(path: string, text: string)
      requires path in files
      modifies this
      ensures files == old(files)[path := old(files)[path] + text]
    {
      files := files[path := files[path] + text];
    }
  }

  /** The body of the with statement: each clipping is written to the open
      file as a newline, the clipping and the separator line. */
  method WriteClippings(fs: FileStore, filepath: string, clippings: seq<string>)
    requires filepath in fs.files
    modifies fs
    ensures fs.files == old(fs.files)[filepath := old(fs.files)[filepath] + Render(clippings)]
  {
    ghost var start := fs.files;
    var j := 0;
    assert clippings[..0] == [] && start[filepath] + "" == start[filepath];
    assert start[filepath := start[filepath] + Render(clippings[..0])] == start;
    while j < |clippings|
      invariant 0 <= j <= |clippings|
      invariant fs.files == start[filepath := start[filepath] + Render(clippings[..j])]
    {
      ghost var written := start[filepath] + Render(clippings[..j]);
      fs.WriteText(filepath, "\n");
      fs.WriteText(filepath, clippings[j]);
      fs.WriteText(filepath, "\n---\n");
      RenderStep(clippings, j);
      WriteEntry(start[filepath], Render(clippings[..j]), clippings[j]);
      assert fs.files == start[filepath := written + "\n" + clippings[j] + "\n---\n"];
      j := j + 1;
    }
    assert clippings[..j] == clippings;
  }

  /** One book: the file is opened for appending when it exists and for
      writing otherwise, and the book's clippings are written to it. */
  method SaveBook(fs: FileStore, filepath: string, clippings: seq<string>)
    modifies fs
    ensures fs.files == old(fs.files)[filepath := Existing(old(fs.files), filepath) + Render(clippings)]
  {
    var present := fs.Exists(filepath);
    var mode := if present then Append else Write;
    fs.Open(filepath, mode);
    if present {
      assert old(fs.files)[filepath := old(fs.files)[filepath]] == old(fs.files);
    }
    WriteClippings(fs, filepath, clippings);
  }

  /** The loop of save_clippings_to_md_files. */
  method SaveClippingsToMdFiles(fs: FileStore, u: Unicode, books: BookDict, dir: string)
    requires books.Valid()
    modifies fs
    ensures fs.files == SaveAll(u, dir, old(fs.files), books)
  {
    ghost var items := Items(books);
    ghost var pathOf := FilePathOf(u, dir);
    var i := 0;
    while i < |books.keys|
      invariant 0 <= i <= |books.keys|
      invariant fs.files == SaveItems(pathOf, old(fs.files), items[..i])
    {
      var title := books.keys[i];
      var clippings := books.values[title];
      var filename := CleanTitle(u, title) + Extension;
      var filepath := PathJoin(dir, filename);
      assert items[i] == (title, clippings) && filepath == pathOf(title);
      SaveBook(fs, filepath, clippings);
      SaveItemsStep(pathOf, old(fs.files), items, i);
      assert fs.files == SaveItems(pathOf, old(fs.files), items[..i + 1]);
      i := i + 1;
    }
    assert items[..i] == items;
  }

  /** Rendering a concatenation renders each part. */
  lemma {:induction false} RenderAppend(a: seq<string>, b: seq<string>)
    ensures Render(a + b) == Render(a) + Render(b)
    decreases |b|
  {
    if b == [] {
      assert a + b == a;
    } else {
      var n := |b| - 1;
      assert (a + b)[..|a + b| - 1] == a + b[..n];
      RenderAppend(a, b[..n]);
    }
  }

  /** The files after saving: the file at any path holds what it held
      before, followed by the entries of every book whose file it is, in order. */
  lemma {:induction false} SavedContents(pathOf: string -> string, files: map<string, string>, items: seq<(string, seq<string>)>, path: string)
    ensures Existing(SaveItems(pathOf, files, items), path) == Existing(files, path) + Collected(pathOf, items, path)
  {
    if items == [] {
      assert Existing(files, path) + "" == Existing(files, path);
    } else {
      var n := |items| - 1;
      var init, last := items[..n], items[n];
      SavedContents(pathOf, files, init, path);
      var before := SaveItems(pathOf, files, init);
      var p := pathOf(last.0);
      assert SaveItems(pathOf, files, items) == before[p := Existing(before, p) + Render(last.1)];
      var earlier := Collected(pathOf, init, path);
      if p == path {
        assert Collected(pathOf, items, path) == earlier + Render(last.1);
        AppendAssociates(Existing(files, path), earlier, Render(last.1));
      } else {
        assert Collected(pathOf, items, path) == earlier + "";
        assert earlier + "" == earlier;
      }
    }
  }

  lemma EmptyAppend(s: string)
    ensures s + "" == s && "" + s == s
  {
  }

  lemma AppendAssociates(a: string, b: string, c: string)
    ensures a + b + c == a + (b + c)
  {
  }

  /** A file exists after saving exactly when it existed before or some book's file is at that path. */
  lemma {:induction false} SavedPaths(pathOf: string -> string, files: map<string, string>, items: seq<(string, seq<string>)>, path: string)
    ensures path in SaveItems(pathOf, files, items) <==> path in files || path in Paths(pathOf, items)
  {
    if items != [] {
      SavedPaths(pathOf, files, items[..|items| - 1], path);
      PathsLast(pathOf, items);
    }
  }

  /** A path that no book's file is at receives nothing. */
  lemma {:induction false} UnusedPath(pathOf: string -> string, items: seq<(string, seq<string>)>, path: string)
    requires path !in Paths(pathOf, items)
    ensures Collected(pathOf, items, path) == ""
  {
    if items != [] {
      var n := |items| - 1;
      PathsLast(pathOf, items);
      UnusedPath(pathOf, items[..n], path);
      assert Collected(pathOf, items, path) == "" + "";
    }
  }

  lemma PathsLast(pathOf: string -> string, items: seq<(string, seq<string>)>)
    requires items != []
    ensures Paths(pathOf, items) == Paths(pathOf, items[..|items| - 1]) + {pathOf(items[|items| - 1].0)}
  {
    var n := |items| - 1;
    forall p | p in Paths(pathOf, items)
      ensures p in Paths(pathOf, items[..n]) + {pathOf(items[n].0)}
    {
      var i :| 0 <= i < |items| && p == pathOf(items[i].0);
      if i < n {
        assert items[..n][i] == items[i];
      }
    }
    forall p | p in Paths(pathOf, items[..n])
      ensures p in Paths(pathOf, items)
    {
      var i :| 0 <= i < n && p == pathOf(items[..n][i].0);
      assert items[..n][i] == items[i];
    }
  }

  /** When no two books share a file, each book's file receives exactly that
      book's entries. */
  lemma {:induction false} CollectedOneBook(pathOf: string -> string, items: seq<(string, seq<string>)>, k: nat)
    requires k < |items|
    requires forall i, j :: 0 <= i < j < |items| ==> pathOf(items[i].0) != pathOf(items[j].0)
    ensures Collected(pathOf, items, pathOf(items[k].0)) == Render(items[k].1)
  {
    var n := |items| - 1;
    var path := pathOf(items[k].0);
    var init := items[..n];
    assert forall i, j :: 0 <= i < j < |init| ==> pathOf(init[i].0) != pathOf(init[j].0) by {
      assert forall i :: 0 <= i < |init| ==> init[i] == items[i];
    }
    if k < n {
      assert init[k] == items[k];
      CollectedOneBook(pathOf, init, k);
      assert Collected(pathOf, items, path) == Collected(pathOf, init, path) + "";
      EmptyAppend(Collected(pathOf, init, path));
    } else {
      NoOtherBook(pathOf, items, n);
      assert Collected(pathOf, items, path) == "" + Render(items[k].1);
      EmptyAppend(Render(items[k].1));
    }
  }

  /** The books before the last one do not write to the last one's file. */
  lemma NoOtherBook(pathOf: string -> string, items: seq<(string, seq<string>)>, n: nat)
    requires n == |items| - 1
    requires forall i, j :: 0 <= i < j < |items| ==> pathOf(items[i].0) != pathOf(items[j].0)
    ensures Collected(pathOf, items[..n], pathOf(items[n].0)) == ""
  {
    var path := pathOf(items[n].0);
    assert path !in Paths(pathOf, items[..n]) by {
      forall i | 0 <= i < n
        ensures pathOf(items[..n][i].0) != path
      {
        assert items[..n][i] == items[i];
      }
    }
    UnusedPath(pathOf, items[..n], path);
  }

  /** Running the writer twice on the same books appends every entry twice. */
  lemma SaveTwice(pathOf: string -> string, files: map<string, string>, items: seq<(string, seq<string>)>, path: string)
    ensures Existing(SaveItems(pathOf, SaveItems(pathOf, files, items), items), path) ==
      Existing(files, path) + Collected(pathOf, items, path) + Collected(pathOf, items, path)
  {
    SavedContents(pathOf, files, items, path);
    SavedContents(pathOf, SaveItems(pathOf, files, items), items, path);
  }

  /** Joining the same directory with two relative names gives the same path
      exactly when the names are equal. */
  lemma PathJoinInjective(dir: string, a: string, b: string)
    requires !(a != [] && a[0] == '/') && !(b != [] && b[0] == '/')
    ensures PathJoin(dir, a) == PathJoin(dir, b) <==> a == b
  {
    if PathJoin(dir, a) == PathJoin(dir, b) {
      var p := PathJoin(dir, a);
      assert |a| == |b|;
      assert a == p[|p| - |a|..] == b;
    }
  }

  /** Two titles share an output file exactly when they clean to the same
      name: the file name never starts with a slash, because a slash is not
      a word character or whitespace and is removed. */
  lemma SharedFile(u: Unicode, dir: string, t1: string, t2: string)
    requires !u.isWord('/') && !u.isSpace('/')
    ensures FilePath(u, dir, t1) == FilePath(u, dir, t2) <==> CleanTitle(u, t1) == CleanTitle(u, t2)
  {
    var n1, n2 := FileName(u, t1), FileName(u, t2);
    assert n1 != [] && n1[0] != '/' by {
      if CleanTitle(u, t1) != [] {
        assert n1[0] == CleanTitle(u, t1)[0];
      } else {
        assert n1 == Extension;
      }
    }
    assert n2 != [] && n2[0] != '/' by {
      if CleanTitle(u, t2) != [] {
        assert n2[0] == CleanTitle(u, t2)[0];
      } else {
        assert n2 == Extension;
      }
    }
    PathJoinInjective(dir, n1, n2);
    if n1 == n2 {
      assert CleanTitle(u, t1) == n1[..|n1| - |Extension|] == CleanTitle(u, t2);
    }
  }

  /** When no two books' titles clean to the same name, saving leaves each
      book's file holding what it held before, followed by the entries of
      that book's clippings and of no other book. */
  lemma SavedBook(u: Unicode, dir: string, files: map<string, string>, books: BookDict, k: nat)
    requires books.Valid() && k < |books.keys|
    requires !u.isWord('/') && !u.isSpace('/')
    requires forall i, j :: 0 <= i < j < |books.keys| ==> CleanTitle(u, books.keys[i]) != CleanTitle(u, books.keys[j])
    ensures var path := FilePath(u, dir, books.keys[k]);
      Existing(SaveAll(u, dir, files, books), path) == Existing(files, path) + Render(books.values[books.keys[k]])
  {
    var items := Items(books);
    var pathOf := FilePathOf(u, dir);
    forall i, j | 0 <= i < j < |items|
      ensures pathOf(items[i].0) != pathOf(items[j].0)
    {
      SharedFile(u, dir, books.keys[i], books.keys[j]);
    }
    CollectedOneBook(pathOf, items, k);
    SavedContents(pathOf, files, items, pathOf(items[k].0));
  }
}
