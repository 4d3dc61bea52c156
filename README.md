# Kindle clippings parser, modelled in Dafny

The parser turns a Kindle "My Clippings.txt" export into one Markdown file
per book. It works in three stages, plus the title cleaning the writer relies on:

1. **Splitting** (`read_clippings`) cuts the export into clippings at every
   line that strips to the ten-character marker `==========`. Each clipping
   is the concatenation of the consecutive non-marker lines, with their line
   terminators. Runs with no lines produce nothing.
2. **Grouping** (`separate_clippings_by_title`) collects the clippings into
   an insertion-ordered dict keyed by title. A clipping's title is its first
   line, stripped. A new, empty list is started whenever a clipping's title
   differs from the one before it. So a book whose clippings come back after
   another book's keeps only its last block of consecutive clippings, in the
   dict position where it first appeared.
3. **Cleaning** (`clean_title`) deletes every character of the title that
   the regular expression `[^\w\s-]` matches. The function also builds an
   ASCII-folded copy with `/` and `:` replaced, but it filters the
   *original* title and throws that copy away.
4. **Writing** (`save_clippings_to_md_files`) visits the books in dict order.
   It opens `os.path.join(dir, clean_title(title) + ".md")` in append mode
   when the file exists and in write mode otherwise. Each clipping is
   written as a newline, the clipping and `\n---\n`.

The model has one Dafny module per stage (`Splitter`, `Grouper`,
`Sanitizer`, `Writer`) and two shared modules:

- `Text` holds `Option`, the Unicode tables and the `str` operations.
- `OrderedDict` models Python's insertion-ordered dict.

The Unicode facts the program depends on are a parameter `u: Unicode` of
function fields, and every property holds for any choice of tables:

- what `str.isspace` (and `\s`) accepts;
- what `\w` accepts;
- where `str.splitlines` breaks lines;
- the NFKD-and-ASCII fold.

The file system is a `FileStore` object whose field `files` maps paths to
contents.

Each loop of the source is a Dafny method with loop invariants:

- `Splitter.ReadClippings` (the loop over the lines);
- `Grouper.SeparateByTitle` (the loop over the clippings);
- `Writer.SaveClippingsToMdFiles` (the loop over the books);
- `Writer.WriteClippings` (the loop over one book's clippings).

`Writer.SaveBook` has no loop. It models the choice between append and
write mode on lines 99-107, then calls `Writer.WriteClippings`.

The methods are proved equal to specification functions: `Clippings`,
`Group`, `SaveAll` and `Render`. The properties below are lemmas about those
functions.

Accented letters are kept in file names. Python 3's `\w` matches letters of
every script, and the pattern on line 77 is applied to the unnormalised
`title`, not to the folded copy. `Sanitizer.CleanTitleExample` keeps the
accent of "Café", and `Sanitizer.CleanTitleIgnoresFolding` proves that the
folding table has no effect at all.

Calling `clipping.splitlines()[0]` on an empty clipping raises IndexError.
The model returns this as `Grouping.IndexError`. Clippings produced by the
splitter are never empty (`Splitter.ClippingsNonEmpty`), because file
iteration never yields an empty line.

## Model

| member | source | states |
|---|---|---|
| Text.FirstLine | clippings-parser.py:53 | the first element of `splitlines()` is the longest prefix with no line break, and it stops exactly at the first break |
| Text.TrimStartRemovesLeading | clippings-parser.py:53 | lstrip drops only whitespace and keeps a suffix that does not begin with whitespace |
| Text.TrimEndRemovesTrailing | clippings-parser.py:53 | rstrip drops only whitespace and keeps a prefix that does not end with whitespace |
| Text.StripTrims | clippings-parser.py:22 | `strip()` returns a contiguous slice with only whitespace cut from both sides, and no whitespace at either end |
| Text.Strip | clippings-parser.py:22 | definition of `str.strip` as rstrip after lstrip; its properties are in `Text.StripTrims` |
| Text.Concat | clippings-parser.py:25 | definition of `"".join` on lines 25 and 32: the parts one after the other |
| Text.ConcatEmpty | clippings-parser.py:25 | a join is empty exactly when every joined part is empty |
| Text.ConcatOfConcatEach | clippings-parser.py:25 | joining each group and then joining the results is joining everything at once |
| Splitter.IsSeparator | clippings-parser.py:22 | definition of the marker test: a line is a marker when it strips to `==========` |
| Splitter.Clippings | clippings-parser.py:24-32 | definition of the result: each run of lines joined into one string |
| Splitter.ReadClippings | clippings-parser.py:17-34 | the loop returns exactly the joined maximal runs of non-marker lines, including the run flushed after the last line |
| Splitter.Runs | clippings-parser.py:21-32 | the runs are never empty and contain no marker line, and a non-empty input whose last line is not a marker has at least one run |
| Splitter.RunBounds | clippings-parser.py:21-32 | the i-th run is the slice of consecutive input lines from a run start up to the next marker line or the end of the input; only the last run can reach the end, and it does when the last line is not a marker |
| Splitter.RunsAreBlocks | clippings-parser.py:21-32 | every run is such a block, bounded on both sides by a marker line or an end of the input |
| Splitter.RunsStep | clippings-parser.py:22-28 | proof step for `Splitter.ReadClippings`: one loop step either flushes the pending lines at a marker or adds the line to them |
| Splitter.RunsKeepEveryLine | clippings-parser.py:21-32 | concatenating the runs gives every non-marker line of the input, in order: nothing is lost, duplicated or reordered |
| Splitter.ClippingsKeepEveryLine | clippings-parser.py:24-32 | the clippings' text, joined, is the input's non-marker text |
| Splitter.RunsCount | clippings-parser.py:22-32 | there is one clipping per position where a non-marker line follows a marker or starts the file |
| Splitter.ClippingsNonEmpty | clippings-parser.py:24-32 | when no input line is empty, no clipping is empty |
| Splitter.RunsTakeInputLines | clippings-parser.py:28 | every line of every clipping is a line of the input |
| OrderedDict.Empty | clippings-parser.py:48 | `{}` has no keys |
| OrderedDict.Get | clippings-parser.py:61 | a lookup succeeds exactly for the keys of the dict |
| OrderedDict.Put | clippings-parser.py:58 | assignment keeps the dict well formed, appends a new key at the end, keeps an old key's position, sets the value and changes no other key |
| OrderedDict.PutTwice | clippings-parser.py:58-61 | assigning a key twice is the same as assigning the second value |
| Grouper.Title | clippings-parser.py:53 | definition of a clipping's title as its first line, stripped; the first line is characterised by `Text.FirstLine` and the stripping by `Text.StripTrims` |
| Grouper.FirstAppearances | clippings-parser.py:58 | each title appears once, and exactly the titles of the input appear |
| Grouper.Group | clippings-parser.py:48-63 | the grouping is a well-formed dict |
| Grouper.GroupKeys | clippings-parser.py:56-58 | the dict's keys are the titles in order of first appearance |
| Grouper.GroupStep | clippings-parser.py:56-61 | proof step for `Grouper.SeparateByTitle`: one loop step, with a reset when the title changes and an append either way, is one step of the specification |
| Grouper.SeparateByTitle | clippings-parser.py:48-63 | raises IndexError exactly when some clipping is empty, at the first empty one; otherwise returns the grouping of the clippings by title |
| Grouper.GroupHoldsLastRuns | clippings-parser.py:56-61 | the list under each title is the title's last maximal block of consecutive clippings |
| Grouper.PrefixHoldsLastRuns | clippings-parser.py:51-61 | the same holds after every prefix of the loop |
| Grouper.GroupAt | clippings-parser.py:56-61 | proof step for `Grouper.PrefixHoldsLastRuns`: after one step, the current title's list is its old list (same title) or empty (new title), plus the clipping; every other title is unchanged |
| Grouper.LastRunsAfterStep | clippings-parser.py:56-61 | one step keeps every title's last block in the dict |
| Grouper.GroupedByLastRun | clippings-parser.py:48-63 | the returned dict lists the titles in order of first appearance, each with its last block, and every list is non-empty and holds only clippings of that title |
| Grouper.ListsHoldTheirTitle | clippings-parser.py:53-61 | every list is non-empty and holds only clippings whose title is its key |
| Grouper.RunHasTitle | clippings-parser.py:53 | the clippings of a title's block all have that title |
| Grouper.LastRunOf | clippings-parser.py:56-58 | every title of the input has a last block |
| Grouper.PreviousRun | clippings-parser.py:56-58 | the clipping just before a position ends its title's last block so far |
| Grouper.LastRunUnique | clippings-parser.py:56-58 | a title has exactly one last block |
| Grouper.LastRunAppendOther | clippings-parser.py:56-58 | a clipping of another title leaves a title's last block unchanged |
| Grouper.LastRunAppendSame | clippings-parser.py:56-61 | a clipping of the same title extends the previous block or starts a new one |
| Grouper.OverwriteExample | clippings-parser.py:56-61 | for titles A, A, B, A the dict holds only the fourth clipping under A and the third under B |
| Sanitizer.KeepSafe | clippings-parser.py:77 | the substitution removes characters only, and every character left is a word character, whitespace or a hyphen |
| Sanitizer.KeepSafeCounts | clippings-parser.py:77 | every occurrence of a kept character survives and every other character disappears |
| Sanitizer.Replace | clippings-parser.py:73-75 | `replace` for one character changes exactly the matching positions |
| Sanitizer.KeepSafeIsSubsequence | clippings-parser.py:77 | the result is a subsequence of the title |
| Sanitizer.KeepSafeAppend | clippings-parser.py:77 | the substitution works character by character: filtering a concatenation filters each part |
| Sanitizer.KeepSafeFixed | clippings-parser.py:77 | a string is unchanged exactly when all its characters are safe |
| Sanitizer.AllSafeKept | clippings-parser.py:77 | a string of safe characters is unchanged |
| Sanitizer.KeepSafeSameClasses | clippings-parser.py:77 | the result depends only on which characters are safe |
| Sanitizer.CleanTitle | clippings-parser.py:66-79 | definition of `clean_title`: the folded and replaced copy is computed and discarded, and the result is the filter of the original title; its properties are in the lemmas below |
| Sanitizer.CleanTitleIdempotent | clippings-parser.py:66-79 | cleaning a cleaned title changes nothing |
| Sanitizer.CleanTitleIsFilter | clippings-parser.py:77-79 | the cleaned title is an order-preserving filter of the title that keeps exactly its word, whitespace and hyphen characters |
| Sanitizer.CleanTitleIgnoresFolding | clippings-parser.py:69-77 | the NFKD-folded, replaced copy is discarded, so any folding table gives the same name |
| Sanitizer.CleanTitleDropsSeparators | clippings-parser.py:73-77 | slashes and colons are deleted, not replaced, so no name contains them |
| Sanitizer.KeepSafeDropsBetween | clippings-parser.py:77 | proof step for `Sanitizer.CleanTitleExample`: filtering five parts when the second and fourth are dropped entirely |
| Sanitizer.CleanTitleExample | clippings-parser.py:66-79 | "Café: Life/Times" becomes "Café LifeTimes", with the accent kept |
| Writer.PathJoin | clippings-parser.py:97 | an absolute name replaces the directory; otherwise the path ends with the name |
| Writer.FileName | clippings-parser.py:96 | definition of the file name: the cleaned title followed by `.md` |
| Writer.FilePath | clippings-parser.py:97 | definition of the file path: the directory joined with the file name |
| Writer.Entry | clippings-parser.py:109-111 | definition of what is written for one clipping: a newline, the clipping and `\n---\n` |
| Writer.Render | clippings-parser.py:108-111 | definition of what is written for a book: the entries of its clippings in order |
| Writer.SaveItems | clippings-parser.py:95-111 | specification of the loop: the books saved one after the other, each appending its entries to what its file held |
| Writer.SaveAll | clippings-parser.py:82-111 | specification of `save_clippings_to_md_files`: `Writer.SaveItems` over the dict's items in order |
| Writer.FileStore.constructor | clippings-parser.py:91-93 | the store starts with the given files |
| Writer.FileStore.Exists | clippings-parser.py:100 | reports whether the path is a file |
| Writer.FileStore.Open | clippings-parser.py:100-107 | write mode creates or empties the file; append mode keeps an existing file and creates a missing one |
| Writer.FileStore.WriteText | clippings-parser.py:109-111 | a write adds the text at the end of the open file and changes nothing else |
| Writer.WriteClippings | clippings-parser.py:108-111 | the file is extended by a newline, the clipping and `\n---\n` for each clipping in order, and nothing else changes |
| Writer.SaveBook | clippings-parser.py:99-111 | after one book the file holds its previous contents (nothing if it did not exist) followed by the book's entries |
| Writer.SaveClippingsToMdFiles | clippings-parser.py:95-111 | the file system after the loop is the specification's result of saving every book in dict order |
| Writer.SaveItemsStep | clippings-parser.py:95-111 | proof step for `Writer.SaveClippingsToMdFiles`: saving one more book updates only that book's file |
| Writer.RenderStep | clippings-parser.py:108-111 | proof step for `Writer.WriteClippings`: the entries of one more clipping follow the earlier ones |
| Writer.RenderAppend | clippings-parser.py:108-111 | the entries of two lists, one after the other, are the entries of the joined list |
| Writer.SavedContents | clippings-parser.py:95-111 | every file ends as its previous contents followed by the entries of every book whose file it is, in dict order |
| Writer.SavedPaths | clippings-parser.py:100-107 | a file exists afterwards exactly when it existed before or some book's file is at that path |
| Writer.UnusedPath | clippings-parser.py:95-111 | a path that is no book's file receives nothing |
| Writer.CollectedOneBook | clippings-parser.py:95-111 | when no two books share a file, each book's file receives exactly that book's entries |
| Writer.NoOtherBook | clippings-parser.py:95-111 | when no two books share a file, no earlier book writes to the last book's file |
| Writer.SaveTwice | clippings-parser.py:99-105 | saving the same books a second time appends every entry again, because existing files are opened for appending |
| Writer.PathJoinInjective | clippings-parser.py:97 | two relative names joined to the same directory give the same path exactly when they are equal |
| Writer.SharedFile | clippings-parser.py:96-97 | two titles share an output file exactly when they clean to the same name |
| Writer.SavedBook | clippings-parser.py:95-111 | when no two titles clean to the same name, each book's file ends as its previous contents followed by that book's entries |

## Left out

- Reading and writing real files is not modelled. The export is given as the sequence of lines that iterating over the open file yields. Decoding and newline translation (UTF-8, universal newlines) happen before that sequence and are not modelled.
- The file system is only a map from path to contents. `os.makedirs` (lines 91-93) is not modelled: directories do not exist in the map, so creating one has no visible effect. Errors from open or write (permissions, a missing or non-directory parent) are not modelled, nor is the encoding argument.
- Closing the file at the end of each `with` block has no effect in the map, so it is not modelled.
- Which characters are whitespace, word characters and line boundaries, and the NFKD-plus-ASCII fold, are parameters rather than Python's Unicode database. The fold has no effect on the result, as proved.
- The default `output_dir="clippings"` (line 82) is not modelled. The directory is always a parameter of `Writer.SaveClippingsToMdFiles`, and every property holds for any directory.
- `Writer.PathJoin` follows POSIX `os.path.join`. Windows path rules are not modelled.
- The `__main__` block (lines 114-117) only chains the three stages on a fixed file name and directory, so it is not modelled.
- Interleaving with other processes that change the files, and crashes part-way through a write, are not modelled.
- Two titles that clean to the same name share one file. The model states what then happens (`Writer.SavedContents`, `Writer.SharedFile`) but does not prevent it, because the program does not either.
