# organize-pdf, modelled in Dafny

`organize.py` rewrites every PDF in a directory so that pages scanned twice
appear only once. It reads the printed page number from each page's text and
keeps one page per printed number. It processes the files in parallel and
shows one progress row per file on the terminal.

This project models the deterministic core of that script:

- `page_label.dfy` (module `PageLabel`) models `get_real_page_num`. It reads
  the text before the first `/` on the last line of the page text. Lines are
  split exactly as Python's `str.splitlines()` splits them.
- `page_table.dfy` (module `PageTable`) models the page table of
  `organize_file`. This is an `OrderedDict` from label to page index. In the
  model it is a class holding a key-order `seq` and an index `map`.
  `Reorder` runs the two loops of the source. It is proved equal to the
  specification function `Reordered`, and the lemmas below are proved about
  `Reordered`.
- `organizer.dfy` (module `Organizer`) models the page loop of `organize_file`.
  Each page's text is an input, and the result is the sequence of source page
  indices that are written out.
- `display.dfy` (module `Display`) models `Logger`. It is a class over the
  reserved terminal rows plus the cursor's row and column. `log` is built from
  the four cursor actions that its escape sequences perform.
- `batch.dfy` (module `Batch`) models the main block. It covers the `.pdf`
  filter, `sorted` with Python's string order, the `enumerate` slots and the
  `Logger` sized to the file count.
- `wrappers.dfy` holds the `Option` type. `None` stands for the `IndexError`
  raised by `get_real_page_num`.

The script, as written, behaves as follows, and the model does the same:

- Pages are written in the order in which each label was first seen. They are
  not sorted by printed number. For example, labels "2", "1" keep their order.
- The label comes from the last element of `splitlines()`, not from the last
  non-empty line. Text ending in "\n\n" therefore gives an empty label.
- A line without `/` is not an error: the whole line is the label. Only empty
  page text fails. It raises `IndexError`, which ends that file's worker with
  no output file. The code has no fallback label.
- A failing worker's exception is re-raised by `Pool.map` in the main
  process, so the script ends with a traceback and a non-zero exit status.
  The progress row of the failed file shows no failure mark, and failures of
  later files are not reported.

## Model

| member | source | states |
|---|---|---|
| PageTable.FirstSeen | organize.py:79-85 | The table's key order holds every label of the file exactly once, in first-insertion order, and it is no longer than the file |
| PageTable.LastIndex | organize.py:83 | The page kept for a label carries that label, and no later page carries it |
| PageTable.Organized | organize.py:84-85 | The output document is never longer than the source document |
| PageTable.OrderedTable.constructor | organize.py:79 | A fresh `OrderedDict` has no keys |
| PageTable.OrderedTable.Put | organize.py:83 | `pages[page_num] = i` maps the label to i and leaves every other entry as it was; a new label goes to the end of the order, and a known label keeps its place |
| PageTable.Reorder | organize.py:79-85 | The two loops over the table produce exactly `Reordered(labels)` |
| PageTable.ReorderedStep | organize.py:80-83 | One more page either appends its index (a new label) or replaces the earlier survivor of its label in that survivor's position |
| PageTable.ReorderedCount | organize.py:79-85 | The output has one page per distinct label, so it is at most as long as the source; no pages give no pages |
| PageTable.ReorderedLastWins | organize.py:83 | Every label survives exactly once, as its last page, and no source page is written twice |
| PageTable.FirstSeenOrder | organize.py:79-85 | Keys keep the order of their first occurrences in the source |
| PageTable.ReorderedOrder | organize.py:79-85 | One output page precedes another exactly when its label first appears earlier in the source; there is no numeric sort |
| PageTable.FirstSeenDistinct | organize.py:79-83 | Without repeated labels, the key order is the page order |
| PageTable.ReorderedDistinct | organize.py:79-85 | Distinct labels leave the pages 0..n-1 unchanged |
| PageTable.ReorderedAllSame | organize.py:83 | If every page has the same label, only the last page is kept |
| PageTable.SurvivorLabels | organize.py:84-85 | The labels of the output pages, in output order, are the distinct labels in first-seen order |
| PageTable.OrganizeIdempotent | organize.py:79-85 | Organizing the output again, with its pages' own labels, changes nothing |
| PageTable.ExampleNoSort | organize.py:79-85 | Labels "2", "1" give pages [0, 1] |
| PageTable.ExampleDuplicate | organize.py:79-85 | Labels "1", "2", "1", "3" give pages [2, 1, 3] |
| PageTable.DistinctCardinality | organize.py:79-85 | A key order without repeats has as many keys as distinct labels |
| PageLabel.LineEnd | organize.py:64 | The first line ends at the first line boundary, or at the end of the text |
| PageLabel.SplitLines | organize.py:64 | `splitlines()` returns lines that contain no line boundary |
| PageLabel.BeforeSlash | organize.py:64 | `split("/")[0]` is a prefix of the line without `/`, and it stops only at a `/` |
| PageLabel.RealPageNum | organize.py:56-65 | Extraction fails exactly for empty text; otherwise the label is the text of the last line before its first `/`: a prefix without `/` that is followed by `/` unless it is the whole line |
| PageLabel.SplitJoin | organize.py:64 | Lines joined with "\n" split back into the same lines, empty ones included |
| PageLabel.JoinSplit | organize.py:64 | For "\n"-terminated text, splitting and re-joining gives the text back, plus a final "\n" when the text had none |
| PageLabel.SplitLinesBreak | organize.py:64 | A line followed by one line boundary (any single break character, or "\r\n" as one boundary; a lone "\r" when no "\n" follows it) is split off as the first line, and the rest is split on its own |
| PageLabel.SplitLinesCons | organize.py:64 | A line followed by "\n" is split off as the first line |
| PageLabel.SplitLinesSingle | organize.py:64 | A non-empty text without line boundaries is a single line |
| PageLabel.ExampleCrLf | organize.py:64 | "a\r\nb" splits into "a", "b": "\r\n" is one boundary |
| PageLabel.ExampleCrCrLf | organize.py:64 | "a\r\r\n" splits into "a", "": a "\r" before "\r\n" is a boundary of its own |
| PageLabel.ExampleLastLine | organize.py:64 | "Index\n1/3" gives label "1": only the last line is read |
| PageLabel.ExampleTrailingBreak | organize.py:64 | "1/3\n" gives "1": a trailing terminator adds no empty line |
| PageLabel.ExampleEmptyLastLine | organize.py:64 | "1/3\n\n" gives "": the empty last line is used, not the last non-empty one |
| PageLabel.ExampleNoSlash | organize.py:64 | "iv" gives "iv": a missing `/` is not an error |
| Organizer.OrganizeFile | organize.py:78-85 | The file fails exactly when some page text is empty; otherwise the output is the page table's result for the pages' labels, and it has at most `num_pages` pages |
| Display.Count | organize.py:26 | A cursor movement always moves at least one row, and it moves exactly n rows for n >= 1 |
| Display.Overwrite | organize.py:28 | Printing puts the message at the cursor column; the rest of the row is kept, and gaps are filled with spaces |
| Display.Logger.constructor | organize.py:12-18 | The `num` reserved rows are blank, the cursor is just below them and it is hidden |
| Display.Logger.PrecedingLine | organize.py:26 | `ESC[nF` moves the cursor up n rows, to column 0 |
| Display.Logger.EraseLine | organize.py:27 | `ESC[2K` clears the cursor's row and changes nothing else |
| Display.Logger.Write | organize.py:28 | Printing overwrites the cursor's row from the cursor column, and the cursor moves past the message |
| Display.Logger.NextLine | organize.py:29 | `ESC[nE` moves the cursor down n rows, to column 0 |
| Display.Logger.Log | organize.py:20-29 | For 0 <= line < num, row `line` becomes the message, every other row is unchanged, and the cursor ends where it started |
| Display.ReplayRow | organize.py:20-29 | After a series of `log` calls, each row shows the last message sent to it, or its old text if none was sent |
| Display.InterleavingIrrelevant | organize.py:107-108 | Workers that each write only their own row leave the same display, whatever order their calls interleave in |
| Batch.PdfFiles | organize.py:104 | A directory entry is kept exactly when it is a regular file whose name ends in the literal, case-sensitive ".pdf"; duplicates are kept as listed |
| Batch.PdfNameExamples | organize.py:104 | "scan.pdf" and ".pdf" pass the filter; "scan.PDF", "pdf" and "scan.pdf.bak" do not |
| Batch.LessEqTotal | organize.py:108 | Python's string order compares any two names |
| Batch.LessEqTransitive | organize.py:108 | Python's string order is transitive |
| Batch.LessEqAntisymmetric | organize.py:108 | Two names that are each at most the other are equal |
| Batch.LessEqReflexive | organize.py:108 | Every name is at most itself |
| Batch.SortedPairwise | organize.py:108 | In sorted order, every name is at most every later name |
| Batch.Insert | organize.py:108 | Inserting a name into a sorted list keeps it sorted and adds exactly that name |
| Batch.Sort | organize.py:108 | `sorted(files)` is in ascending order and is a permutation of `files` |
| Batch.SortedUnique | organize.py:108 | Only one sorted ordering of a list of names exists |
| Batch.SortedHeads | organize.py:108 | Two sorted orderings of the same names start with the same name |
| Batch.Slots | organize.py:108 | `enumerate(sorted(files))` has one task per file |
| Batch.SlotsAddressable | organize.py:105-108 | The slots are pairwise distinct and lie in [0, files_num), which is the range `Logger(files_num).log` accepts; the files are in ascending name order, so a smaller row always holds a name that is at most the name in a larger row, and each file appears as often as it was found |
| Batch.SlotsIgnoreListingOrder | organize.py:104-108 | Every file gets the same row whatever order the directory is listed in |
| Batch.Plan | organize.py:104-108 | The Logger is sized to the number of `.pdf` files, and every task's row is one it can address |

## Left out

- PyPDF2 is not modelled: opening the reader, `getPage`, `extractText`, the writer and `write`. Each page's text is an input string, and pages are their indices.
- `parse_args`, `os.path.exists`, `os.makedirs`, `os.listdir`, `os.path.isfile` and opening files are I/O and are not modelled. The listing is an input sequence, and the regular-file test is an input predicate on names.
- Batch.PdfFiles: `os.listdir` returns the bytes of an undecodable file name as lone surrogates (U+DC80 to U+DCFF), which a Dafny `char` cannot hold, so such names are outside the model.
- `multiprocessing.Pool`, `init_pool` and the global `logger` are concurrency and are not modelled. Their effect on the display is stated by `Display.InterleavingIrrelevant`, which assumes that each `log` call's four prints (organize.py:26-29, flushed only by the fourth) reach the terminal as one indivisible unit; the source takes no lock, so prints of two workers could interleave inside one call. `Pool(0)` raises when no file is found, and that is not modelled.
- The progress messages are not modelled: the spinner glyphs at lines 74 and 81 and the completion line at line 90. The completion line's percentage is a floating-point division, and it divides by zero when a file has no pages. That happens after the output file was written.
- `Logger.__del__` (restoring the cursor at garbage collection) is not modelled.
- Logger escape sequences are modelled by their effect: rows, cursor row and column. Bytes are not modelled. Neither are control characters inside a message, nor wrapping of a message wider than the terminal.
- Display.Logger.Log: a row outside the reserved block (line < 0 or line >= num) is not modelled, and the method requires 0 <= line < num. The source's only caller passes an `enumerate` slot, and `Batch.SlotsAddressable` proves it is in range.
- Display.Logger.Log: the terminal is assumed to be at least num + 1 rows tall. On a shorter terminal `ESC[nF` stops at the top visible row (scrollback cannot be reached), so `log` for a small line rewrites a different row than row `line`.
- Organizer.OrganizeFile: the source reads a page's label and stores it in the table in the same loop iteration. The model reads all labels first and then fills the table. The result is the same, because the first failing page aborts the whole file.
