# ls and wc, modelled in Dafny

This project models two small Ruby command-line scripts of the
ruby-practices repository and proves properties of the model.

- `ls` (06.wc/test/ls.rb) lists the entries of the working directory.
  - Its options are `-a` (include names starting with `.`), `-r` (reverse the
    order) and `-l` (long format).
  - The names are sorted with `Array#sort` and reversed in place with
    `reverse!` under `-r`.
  - The short format cuts the ordered names into slices of `ceil(n / 3)` names
    and pads every slice with `nil` to the longest one. The slices are the
    columns. It transposes them into rows and prints every cell left-justified
    to the length of the longest name plus 15, each row ending with `"\n"`.
  - The long format prints `total <blocks>`, then one line per entry:
    - the type label and the 9-character permission string, built from the
      last three octal digits of the mode;
    - the link count, right-justified to the digits of the largest link count;
    - owner, group, and the size, right-justified to the digits of the largest
      size;
    - the modification time and the name.
- `wc` (06.wc/wc.rb) prints, for every file argument, its line, word and byte
  counts, each right-justified to 8 characters, and then the file name.
  - `-l` prints only the line count.
  - A `total` row follows when there are two files or more.
  - Without file arguments it prints the counts of standard input. That row
    has no name and no final newline, and it counts lines with `lines.count`.

Files:
- `ruby.dfy` (module `Ruby`): the pieces of Ruby's core library the scripts
  use, such as `Integer#to_s`, `Integer#digits`, `String#rjust`/`ljust`,
  `Array#reverse`, `take`, `flatten` and `Enumerable#max_by`. It also holds
  three helpers that the scripts do not call; they serve only to state
  properties:
  - `Compact`, which drops nils like `Array#compact`;
  - `StripLeadingSpaces`, which drops leading blanks like `String#lstrip`;
  - `EndsWith`.
- `ls_order.dfy` (`LsOrder`): the order of the listing.
- `ls_grid.dfy` (`LsGrid`): `list_of_elements`, the transposition and the
  printed grid.
- `ls_long.dfy` (`LsLong`): the permission string, the column widths, the
  detail lines and the total line.
- `ls.dfy` (`Ls`): the `Ls` object as the class `Lister`, whose field
  `elements` is `@elements`. Its loops (`PrintRows`, `PrintCells`,
  `ShowElementDetails`, `ListOfElements`) are proved against the functions
  above. So are `Collect`, `ShowLs` and `Execute`, which have no loop.
- `wc.dfy` (`Wc`): counting, the rows and `main`.

Everything printed is modelled as a string. In `ls`, a run that raises is a
`Run` value: the text printed before the exception, and which exception it was.

Behaviour of the scripts that is easy to miss:
- `"  a   b\tc\n"` counts four words, not three. `split(/\s+/)` keeps the empty
  field in front of leading white space.
- The grid does not always have three columns: four names give two columns of
  two (`LsGrid.FourNamesTwoColumns`).
- A `nil` cell is printed as a full field of blanks, not skipped.
- An empty directory makes `ls` raise:
  - the short format raises because `each_slice(0)` is invalid;
  - `ls -l` prints `total 0`, then raises in `File.stat(nil)`.

## Model

| member | source | states |
|---|---|---|
| LsOrder.LessEq | 06.wc/test/ls.rb:36 | String#<=> as used by sort: a total order, stated by LsOrder.LessEqTotal, LessEqReflexive, LessEqTransitive and LessEqAntisymmetric |
| LsOrder.LessEqTotal | 06.wc/test/ls.rb:36 | any two names are comparable |
| LsOrder.LessEqReflexive | 06.wc/test/ls.rb:36 | every name is at most itself |
| LsOrder.LessEqTransitive | 06.wc/test/ls.rb:36 | the order is transitive |
| LsOrder.LessEqAntisymmetric | 06.wc/test/ls.rb:36 | names that are each at most the other are equal |
| LsOrder.Sort | 06.wc/test/ls.rb:36-38 | the sorted names ascend under String#<=> and are a permutation of the input |
| LsOrder.AscendingPermutationIsSort | 06.wc/test/ls.rb:36-38 | any ascending permutation of the names equals Sort, so the order does not depend on the sorting algorithm |
| LsOrder.Ordered | 06.wc/test/ls.rb:36-40 | the order of the listing, sort then reverse! under -r; its contract is LsOrder.OrderedIsSortedPermutation and LsOrder.ReverseListing |
| LsOrder.OrderedIsSortedPermutation | 06.wc/test/ls.rb:35-40 | the listed names are a permutation of the found ones, ascending without -r and descending with -r |
| LsOrder.ReverseListing | 06.wc/test/ls.rb:40 | the -r listing is the ascending listing read backwards, and reversing it again restores the ascending listing |
| LsOrder.ReverseListingStrict | 06.wc/test/ls.rb:40 | with distinct directory entries, the -r listing strictly descends |
| Ruby.Reverse | 06.wc/test/ls.rb:40 | reversal keeps the length and puts element i at position n - 1 - i |
| Ruby.ReverseReverse | 06.wc/test/ls.rb:40 | reversing twice gives the sequence back |
| Ruby.ReversePermutes | 06.wc/test/ls.rb:40 | reversal keeps every element with its multiplicity |
| Ls.VisibleOnly | 06.wc/test/ls.rb:35-39 | Dir.glob without File::FNM_DOTMATCH; stated by Ls.VisibleOnlyCounts |
| Ls.Glob | 06.wc/test/ls.rb:35-39 | the glob with or without -a; stated by Ls.ListedNames |
| Ls.Names | 06.wc/test/ls.rb:35-40 | the names a run prints; stated by Ls.ListedNames, Ls.ListingIgnoresReadOrder and LsOrder.OrderedIsSortedPermutation |
| Ls.VisibleOnlyCounts | 06.wc/test/ls.rb:35-39 | without -a, a name starting with '.' is never listed and any other name is listed as often as the directory has it |
| Ls.ListedNames | 06.wc/test/ls.rb:35-40 | a name is listed iff the directory has it and either -a is given or it does not start with '.' |
| Ls.ShortRun | 06.wc/test/ls.rb:67-79 | show_ls on the listed names: raises on an empty directory, otherwise prints the grid; its contract is Ls.Lister.ShowLs and the LsGrid.ShortListing lemmas |
| Ls.Listing | 06.wc/test/ls.rb:33-48 | what main prints; stated by Ls.ListingIgnoresReadOrder, Ls.ListingSucceeds and Ls.Lister.Execute |
| Ls.ListingIgnoresReadOrder | 06.wc/test/ls.rb:33-47 | two directory listings with the same entries in another order give the same names and the same output |
| Ls.ListingSucceeds | 06.wc/test/ls.rb:42-47 | a run prints everything iff the listing is not empty and, with -l, every listed mode has three octal digits |
| Ls.ReverseKeepsTotal | 06.wc/test/ls.rb:81-89 | -r prints the same total line as the plain long listing |
| LsGrid.SliceLength | 06.wc/test/ls.rb:53 | the slice length k is ceil(n / 3): n <= 3k, 3(k - 1) < n, and 1 <= k <= n for n >= 1 |
| LsGrid.EachSlice | 06.wc/test/ls.rb:57 | each_slice(k) gives no slice iff the input is empty, and ceil(n / k) slices otherwise; EachSliceAt and ConcatEachSlice state the contents |
| LsGrid.EachSliceAt | 06.wc/test/ls.rb:57 | slice c of each_slice(k) holds elements c * k up to (c + 1) * k or the end |
| LsGrid.ConcatEachSlice | 06.wc/test/ls.rb:57 | the slices joined give the sequence back |
| LsGrid.ValuesAt | 06.wc/test/ls.rb:62 | values_at(0...m); stated by LsGrid.ValuesAtFull (a list of m entries is unchanged) and LsGrid.CompactPadded (padding adds only nils) |
| LsGrid.ValuesAtFull | 06.wc/test/ls.rb:62 | padding a list that already has m entries changes nothing |
| LsGrid.CompactPadded | 06.wc/test/ls.rb:62 | padding a slice of at most m names and dropping the nils gives the slice back |
| LsGrid.MaxSize | 06.wc/test/ls.rb:61 | `lists.map(&:size).max` is at least every list's size and equals the size of one of them |
| LsGrid.SlicesShape | 06.wc/test/ls.rb:53-57 | there are between one and three slices, the first holds exactly k names, none holds more, and the largest size is k |
| LsGrid.Layout | 06.wc/test/ls.rb:50-65 | list_of_elements has between one and three columns of exactly k entries each |
| LsGrid.FourNamesTwoColumns | 06.wc/test/ls.rb:53-57 | four names give slices of two and two columns |
| LsGrid.LayoutCell | 06.wc/test/ls.rb:57-63 | column c, row r of the layout holds names[c * k + r], or nil once that index is past the end |
| LsGrid.LayoutPaddingAtEnd | 06.wc/test/ls.rb:57-63 | every column but the last is full, and in the last column a nil is followed only by nils |
| LsGrid.LayoutPartition | 06.wc/test/ls.rb:57-63 | with the nil padding removed, the columns joined are exactly the ordered names |
| LsGrid.Transpose | 06.wc/test/ls.rb:69 | Array#transpose on a rectangular array: as many rows as the input has columns, each as long as the input has rows, and cell (r, c) is input cell (c, r); stated also by LsGrid.TransposeTwice, and for the listing by LsGrid.GridAt and LsGrid.GridCell |
| LsGrid.Grid | 06.wc/test/ls.rb:69 | the transposed layout; stated by LsGrid.GridCell, GridShowsName and GridShowsNameOnce |
| LsGrid.TransposeTwice | 06.wc/test/ls.rb:69 | transposing a non-empty rectangular array twice gives it back, and the transpose is rectangular |
| LsGrid.GridCell | 06.wc/test/ls.rb:69 | the transposed grid has k rows of equally many cells, and cell (r, c) holds names[c * k + r] or nil |
| LsGrid.GridShowsName | 06.wc/test/ls.rb:69 | name i is shown in row i % k, column i / k |
| LsGrid.GridShowsNameOnce | 06.wc/test/ls.rb:69 | with distinct names, that cell is the only one showing name i |
| Ruby.Concat | 06.wc/test/ls.rb:71 | Array#flatten of the grid; stated by Ruby.ConcatMembership, Ruby.ConcatAppend and LsGrid.ConcatEachSlice |
| Ruby.ConcatMembership | 06.wc/test/ls.rb:71 | an element is in the flattened array iff it is in one of the rows |
| Ruby.ConcatAppend | 06.wc/test/ls.rb:71 | flattening two arrays of rows joined is joining their flattenings |
| LsGrid.CellText | 06.wc/test/ls.rb:75 | s.to_s on a cell, "" for nil; stated by LsGrid.LongestCellIsName and LsGrid.RenderCellsAt |
| LsGrid.CellIsName | 06.wc/test/ls.rb:69-71 | every non-nil cell of the flattened grid is one of the names |
| LsGrid.LongestCellIsName | 06.wc/test/ls.rb:71 | the cell max_by picks is never nil and is one of the names |
| LsGrid.FieldWidth | 06.wc/test/ls.rb:71-72 | the length of the longest cell plus 15; stated by LsGrid.FieldWidthIsLongestName |
| LsGrid.FieldWidthIsLongestName | 06.wc/test/ls.rb:71-72 | the field width is at least every name's length plus 15 and equals the longest name's length plus 15 |
| Ruby.LJust | 06.wc/test/ls.rb:75 | ljust keeps the text in front, pads with blanks up to the width and never truncates |
| LsGrid.RenderCells | 06.wc/test/ls.rb:74-76 | the inner loop; stated by LsGrid.RenderCellsAt and Ls.Lister.PrintCells |
| LsGrid.RenderRow | 06.wc/test/ls.rb:73-78 | one row then "\n"; stated by LsGrid.RenderRowAt |
| LsGrid.RenderGrid | 06.wc/test/ls.rb:73-78 | the outer loop; stated by LsGrid.RenderGridAt and Ls.Lister.PrintRows |
| LsGrid.RenderGridAt | 06.wc/test/ls.rb:73-78 | when every printed row has the same length, the printed grid is the rows one after another: line r is row r printed |
| LsGrid.ShortListing | 06.wc/test/ls.rb:67-79 | what show_ls prints; stated by LsGrid.ShortListingLines, ShortListingCell and ShortListingLineEnd |
| LsGrid.RenderCellsAt | 06.wc/test/ls.rb:74-76 | a row of cells that fit prints one field of exactly the width per cell; field c is cell c left-justified, and a nil cell is a full field of blanks |
| LsGrid.RenderRowAt | 06.wc/test/ls.rb:73-78 | a printed row is its fields followed by one "\n" |
| LsGrid.ShortListingLines | 06.wc/test/ls.rb:73-78 | the short listing is k lines of equal length, and line r is grid row r printed |
| LsGrid.ShortListingCell | 06.wc/test/ls.rb:69-77 | field c of line r is names[c * k + r] left-justified to the field width, or a full field of blanks past the last name |
| LsGrid.ShortListingLineEnd | 06.wc/test/ls.rb:77 | every line of the short listing ends with "\n" |
| LsGrid.PadAll | 06.wc/test/ls.rb:62 | map! with values_at(0...m) pads or cuts every list to m entries, in order |
| Ls.Lister.ListOfElements | 06.wc/test/ls.rb:50-65 | the slice-push-pad loop returns Layout(elements), and raises exactly for an empty directory |
| Ls.Lister.ShowLs | 06.wc/test/ls.rb:67-79 | show_ls prints the short listing of @elements, and raises exactly for an empty directory |
| Ls.Lister.PrintRows | 06.wc/test/ls.rb:73-78 | the outer loop prints the grid rows in order, each followed by "\n" |
| Ls.Lister.PrintCells | 06.wc/test/ls.rb:74-76 | the inner loop prints every cell of a row left-justified to the width |
| Ls.Lister.Collect | 06.wc/test/ls.rb:35-40 | @elements becomes the glob result sorted, then reversed in place under -r |
| Ls.Lister.Execute | 06.wc/test/ls.rb:33-48 | main leaves @elements as the listed names and prints the long or the short listing |
| LsLong.TypeLabel | 06.wc/test/ls.rb:9-14 | the FILE_TYPE_LABELS lookup at line 99; stated by LsLong.TypeLabelOfType |
| LsLong.TypeLabelOfType | 06.wc/test/ls.rb:9-14 | a directory prints "d", a file "-", a link "l", and any other type prints nothing |
| LsLong.PermissionLabelsAreTriads | 06.wc/test/ls.rb:16-26 | PERMISSION_LABELS has an entry exactly for 0..7, and entry d is the rwx triad of d: 'r' iff bit 4, 'w' iff bit 2, 'x' iff bit 1 |
| Ruby.ToS | 06.wc/test/ls.rb:97 | to_s(base) is a numeral of base digits with no leading zero, one digit long iff n < base |
| Ruby.Digits | 06.wc/test/ls.rb:101 | Integer#digits gives at least one digit, each below 10 |
| Ruby.FromDigits | 06.wc/test/ls.rb:101 | the number a least-significant-first digit list stands for; stated by Ruby.DigitsRoundTrip |
| Ruby.DigitsRoundTrip | 06.wc/test/ls.rb:101 | Integer#digits loses nothing: the digits, least significant first, stand for n, and the last one is zero only for n == 0 |
| Ruby.DigitsStep | 06.wc/test/ls.rb:101 | for v >= 1, the digits of 10v + d are d followed by the digits of v |
| Ruby.Take | 06.wc/test/ls.rb:101 | take(k) is the prefix of length min(k, size) |
| LsLong.OctalAsDecimalDigits | 06.wc/test/ls.rb:97-101 | reading the octal numeral as decimal and taking its digits gives the octal digits of the mode, least significant first |
| LsLong.PermissionDigits | 06.wc/test/ls.rb:97-101 | the last three of the octal digits of the mode read as decimal; stated by LsLong.PermissionDigitsOfMode |
| LsLong.PermissionDigitsOfMode | 06.wc/test/ls.rb:97-101 | for mode >= 64 the permission digits are [(mode / 64) % 8, (mode / 8) % 8, mode % 8], and there are fewer than three below 64 |
| LsLong.PermissionString | 06.wc/test/ls.rb:101-105 | the three PERMISSION_LABELS lookups joined, nil for a mode below 64; stated by LsLong.PermissionStringOfMode |
| LsLong.PermissionStringOfMode | 06.wc/test/ls.rb:101-105 | the permission string exists iff mode >= 64, and then it is the owner, group and other triads, nine characters |
| LsLong.PermissionIgnoresHighBits | 06.wc/test/ls.rb:97-105 | two modes of at least 64 that agree in their low nine bits have the same permission string (below 64 there is no string: the script raises) |
| LsLong.ExecutablePermission | 06.wc/test/ls.rb:97-105 | a mode with low bits 0o755, such as 0o100755, shows "rwxr-xr-x" |
| LsLong.ReadablePermission | 06.wc/test/ls.rb:97-105 | a mode with low bits 0o644, such as 0o100644, shows "rw-r--r--" |
| Ruby.MaxBy | 06.wc/test/ls.rb:92-93 | max_by is nil only for an empty array; otherwise it is the first element whose key is the largest |
| Ruby.RJust | 06.wc/test/ls.rb:108 | rjust puts blanks in front up to the width, keeps the text at the end and never truncates |
| Ruby.ToSLengthMonotone | 06.wc/test/ls.rb:92-93 | a larger number never has a shorter decimal numeral |
| LsLong.LinkWidth | 06.wc/test/ls.rb:92 | the digits of the largest link count; stated by LsLong.WidthsOfLargest and LsLong.FieldsAligned |
| LsLong.SizeWidth | 06.wc/test/ls.rb:93 | the digits of the largest size; stated by LsLong.WidthsOfLargest and LsLong.FieldsAligned |
| LsLong.WidthsOfLargest | 06.wc/test/ls.rb:92-93 | the link and size widths are the digit counts of the largest link count and the largest size |
| LsLong.FieldsAligned | 06.wc/test/ls.rb:108-113 | every entry's right-justified link count and size are exactly as wide as the widths |
| LsLong.DetailLine | 06.wc/test/ls.rb:96-118 | one entry of show_element_details; stated by LsLong.DetailLineFails and LsLong.DetailLineShape |
| LsLong.DetailLineFails | 06.wc/test/ls.rb:99-105 | a detail line raises iff the mode is below 64, and has then printed only the type label |
| LsLong.DetailLineShape | 06.wc/test/ls.rb:96-118 | for a mode >= 64, the line starts with the type label and the permission string and ends with " " + name + "\n" |
| LsLong.DetailLines | 06.wc/test/ls.rb:95-119 | the each loop, stopping at the first entry that raises; stated by LsLong.DetailLinesSucceed |
| LsLong.ElementDetails | 06.wc/test/ls.rb:91-120 | show_element_details; stated by Ls.Lister.ShowElementDetails and LsLong.LongListingSucceeds |
| LsLong.DetailLinesSucceed | 06.wc/test/ls.rb:95-119 | the detail lines print completely iff every mode is at least 64 |
| Ls.Lister.ShowElementDetails | 06.wc/test/ls.rb:91-120 | the loop prints the detail lines in order and stops at the first entry that raises; for an empty directory it raises at once |
| LsLong.TotalBlocks | 06.wc/test/ls.rb:82-87 | the sum of the blocks; stated by LsLong.TotalBlocksAppend and LsLong.TotalBlocksReverse |
| LsLong.TotalLine | 06.wc/test/ls.rb:81-89 | show_total_blocks; stated by Ls.ReverseKeepsTotal and LsLong.EmptyLongListing |
| LsLong.TotalBlocksAppend | 06.wc/test/ls.rb:82-87 | the block sum of two lists joined is the sum of their sums |
| LsLong.TotalBlocksReverse | 06.wc/test/ls.rb:82-87 | the block sum does not depend on the order |
| LsLong.LongListing | 06.wc/test/ls.rb:42-44 | the total line then the details; stated by LsLong.LongListingSucceeds and LsLong.EmptyLongListing |
| LsLong.LongListingSucceeds | 06.wc/test/ls.rb:42-44 | ls -l runs to the end iff the directory is not empty and every mode is at least 64 |
| LsLong.EmptyLongListing | 06.wc/test/ls.rb:81-92 | on an empty directory ls -l prints "total 0\n" and then raises in File.stat(nil) |
| Wc.CountLine | 06.wc/wc.rb:41-43 | the number of newlines; stated by Wc.CountLineAppend, Wc.LinesCount and Wc.TotalsOfJoinedContent |
| Wc.CountBytesize | 06.wc/wc.rb:49-51 | the number of bytes; stated by Wc.TotalsOfJoinedContent |
| Wc.CountLineAppend | 06.wc/wc.rb:41-43 | the newline count of two contents joined is the sum of their counts |
| Wc.Lines | 06.wc/wc.rb:25 | String#lines; stated by Wc.LinesCount, Wc.LinesConcat and Wc.LinesShape |
| Wc.LinesCount | 06.wc/wc.rb:25 | lines.count is the number of newlines, plus one for non-empty input that does not end with a newline |
| Wc.LinesConcat | 06.wc/wc.rb:25 | the lines joined give the input back |
| Wc.LinesShape | 06.wc/wc.rb:25 | every line is non-empty with a newline at most at its end, and all but the last end with one |
| Wc.UnterminatedLastLine | 06.wc/wc.rb:25 | "a\nb" counts one line as a file and two on standard input |
| Wc.Split | 06.wc/wc.rb:28 | split(/\s+/) with trailing empty fields dropped; stated by Wc.SplitWithoutLeadingSpace |
| Wc.CountWord | 06.wc/wc.rb:45-47 | the size of the split; stated by Wc.WordCountIsRuns, Wc.NoWordsIffBlank and Wc.LeadingBlankCountsExtra |
| Wc.SplitWithoutLeadingSpace | 06.wc/wc.rb:46 | for content that does not start with white space, split gives one string per word |
| Wc.WordCountIsRuns | 06.wc/wc.rb:46 | split(/\s+/).size is the number of words, plus one when the content starts with white space and has a word |
| Wc.NoWordsIffBlank | 06.wc/wc.rb:46 | the word count is zero iff the content is empty or all white space |
| Wc.LeadingBlankCountsExtra | 06.wc/wc.rb:46 | "  a   b\tc\n" has three words but counts four |
| Ruby.DecimalValue | 06.wc/test/ls.rb:101 | String#to_i on the octal numeral; stated by Ruby.DecimalRoundTrip and LsLong.OctalAsDecimalDigits |
| Ruby.DecimalRoundTrip | 06.wc/wc.rb:33 | reading the decimal numeral of n back gives n |
| Wc.Field | 06.wc/wc.rb:33-36 | a count right-justified to 8; stated by Wc.FieldRoundTrip and Wc.FieldHasNoNewline |
| Wc.FieldRoundTrip | 06.wc/wc.rb:33-36 | a count field is max(digits, 8) wide, exactly 8 below 10^8, never truncates, and stripped of its blanks reads back as the count |
| Wc.FieldHasNoNewline | 06.wc/wc.rb:33-36 | a count field holds no newline |
| Wc.TotalLines | 06.wc/wc.rb:62-64 | count_total_lines; stated by Wc.TotalWordsAppend and Wc.TotalsOfJoinedContent |
| Wc.TotalWords | 06.wc/wc.rb:66-68 | count_total_words; stated by Wc.TotalWordsAppend and Wc.WordTotalIsNotJoinedCount |
| Wc.TotalBytesizes | 06.wc/wc.rb:70-72 | count_total_bytesizes; stated by Wc.TotalWordsAppend and Wc.TotalsOfJoinedContent |
| Wc.TotalWordsAppend | 06.wc/wc.rb:62-72 | each total of two file lists joined is the sum of their totals |
| Wc.TotalsOfJoinedContent | 06.wc/wc.rb:62-72 | the total line and byte counts are those of all the files' contents joined |
| Wc.WordTotalIsNotJoinedCount | 06.wc/wc.rb:66-68 | the word total is not the word count of the joined contents: "a" and "b" give 2, "ab" gives 1 |
| Wc.FileRow | 06.wc/wc.rb:32-39 | show_wc_format; stated by Wc.FileRowEnd, Wc.NewlinesInFileRow and Wc.LinesOnlyDropsWordsAndBytes |
| Wc.StdinRow | 06.wc/wc.rb:22-30 | show_stdin: the fields of standard input with no name and no newline; stated by Wc.FieldsSplice and Wc.OutputLines |
| Wc.TotalRow | 06.wc/wc.rb:53-60 | total_wc_format; stated by Wc.TotalRowEnd and Wc.NewlinesInTotalRow |
| Wc.FileRows | 06.wc/wc.rb:14-16 | the files.each loop of rows; stated by Wc.FileRowsAppend, Wc.SingleFileRow and Wc.NewlinesInFileRows |
| Wc.NewlinesInFileRows | 06.wc/wc.rb:14-16 | when no path holds a newline, the file rows hold exactly one newline per file |
| Wc.FileRowsAppend | 06.wc/wc.rb:14-16 | the rows of two file lists joined are the rows of each list, in argument order |
| Wc.SingleFileRow | 06.wc/wc.rb:14-16 | one file prints its own row |
| Wc.LinesOnlyDropsWordsAndBytes | 06.wc/wc.rb:32-38 | a full file row is the -l row with the word and byte fields inserted after the line field |
| Wc.FieldsSplice | 06.wc/wc.rb:53-58 | for any counts, with -l the word and byte fields are cut out after the line field and nothing else changes |
| Wc.Puts | 06.wc/wc.rb:38 | Kernel#puts on one string; stated by Wc.PutsAddsNewline |
| Wc.PutsAddsNewline | 06.wc/wc.rb:38 | puts adds exactly one newline to a text that holds none |
| Wc.FileRowEnd | 06.wc/wc.rb:38 | for a path that holds no newline, a file row ends with " " + path + "\n" (puts adds no second newline to a path ending in one) |
| Wc.TotalRowEnd | 06.wc/wc.rb:59 | the total row ends with " total\n" |
| Wc.NewlinesInFileRow | 06.wc/wc.rb:32-39 | a file row whose path has no newline holds exactly one newline |
| Wc.NewlinesInTotalRow | 06.wc/wc.rb:53-60 | the total row holds exactly one newline |
| Wc.WcOutput | 06.wc/wc.rb:7-20 | what main prints; stated by Wc.OutputLines, Wc.StdinUnreadWithFiles and Wc.Execute |
| Wc.OutputLines | 06.wc/wc.rb:11-19 | when no path holds a newline, the output has one newline per file, one more for the total iff there are two files or more, and none for standard input |
| Wc.StdinUnreadWithFiles | 06.wc/wc.rb:11-19 | with file arguments the output does not depend on standard input |
| Wc.ShowFileRows | 06.wc/wc.rb:14-16 | the each loop prints the file rows in argument order |
| Wc.Execute | 06.wc/wc.rb:7-20 | main prints the stdin row without files; otherwise the file rows, then the total row iff there are two files or more |

## Left out

- Option parsing with `ARGV.getopts` is not modelled. The parsed switches are
  an `Options` record for `ls` and a `linesOnly` flag for `wc`.
- `Dir.glob('*')` is not modelled. The directory's entries are an input list,
  in any order; without `-a` the names starting with `.` are dropped. Which
  special entries (`.`, `..`) the directory reports is part of that input.
- `File.stat`, `Etc.getpwuid`, `Etc.getgrgid` and `File.mtime` are not
  modelled. They become a function from a name to a `Stat` record (type, mode,
  link count, owner name, group name, size, blocks, formatted time), and the
  model assumes every name can be stat-ed. A missing file and the exception it
  raises happen in the operating system. Owner and group ids that
  `Etc.getpwuid` or `Etc.getgrgid` cannot resolve raise `ArgumentError`;
  that case is not modelled, since `Stat` holds names that are already
  resolved.
- `strftime('%b %e %H:%M')` is left out because it depends on the clock and
  the time zone. It is an opaque string inside the `Stat` record.
- `File.stat` follows symbolic links, so `'link'` never arises in practice.
  The model accepts any type string; an unknown one prints nothing, like the
  `nil` the table gives for it.
- The kind of exception is not modelled: `nil + String` in the permission
  concatenation, `each_slice(0)` and `File.stat(nil)` are each a named
  `Failure` value. Ruby's exception classes and messages are not modelled.
- LsGrid.SliceLength: `(n.to_f / 3).ceil` is modelled as the exact integer
  ceiling `(n + 2) / 3`. The two agree for every directory size up to 2^53.
  Above that, the float quotient can round down to an integer, and Ruby's
  result is then one less. For example, n = 3 * 2^52 + 4 gives one less in
  Ruby. Such sizes are not modelled.
- `String#<=>` is modelled as comparing characters left to right, a proper
  prefix first. Ruby compares the bytes of the UTF-8 encoding, which gives the
  same order.
- `File.read` and `$stdin.read` are given: the program reads each file
  several times, and the model takes its content once, as bytes. Read errors
  are not modelled.
- The invalid-UTF-8 exceptions of `String#count` and `split` are not
  modelled: content is bytes, assumed to be valid UTF-8, and `\s` is the six
  ASCII white-space bytes. `count` runs first and also under `-l`, where
  `split` is never called.
- `print` and `puts` are not modelled as output: what they print is collected
  into the string each operation returns.
- Ruby.ToSLengthMonotone: stated for base 10 only, the one base it is used
  with; the other bases are not needed.
