/** The `wc` script: for every file argument a row with its line, word and
    byte counts (only the line count with -l) and the file's name, then a
    "total" row when there are at least two files; with no file arguments,
    the counts of standard input with no name and no final newline. */
module Wc {
  import opened Ruby

  newtype Byte = b: int | 0 <= b < 256

  const NEWLINE: Byte := 10

  /** `\s` in a Ruby regular expression: space, \t, \n, \v, \f and \r. No
      byte of a multi-byte UTF-8 character is one of them. */
  predicate IsSpace(b: Byte)
  {
    b == 32 || 9 <= b <= 13
  }

  /** `count_line`: `count("\n")`, the number of newline bytes. */
  function CountLine(content: seq<Byte>): nat
  {
    multiset(content)[NEWLINE]
  }

  /** `count_bytesize`: `bytesize`. */
  function CountBytesize(content: seq<Byte>): nat
  {
    |content|
  }

  // ---------------------------------------------------------------------
  // String#lines, which the standard-input row counts

  /** The length of the first line, its newline included. */
  function FirstLineLength(s: seq<Byte>): (k: nat)
    ensures k <= |s|
    ensures s != [] ==> k >= 1
    ensures forall i :: 0 <= i < k - 1 ==> s[i] != NEWLINE
    ensures 1 <= k < |s| ==> s[k - 1] == NEWLINE
  {
    if s == [] then 0 else if s[0] == NEWLINE then 1 else 1 + FirstLineLength(s[1..])
  }

  /** String#lines: the pieces after which a newline ends, and the text
      after the last newline if there is any. */
  function Lines(s: seq<Byte>): seq<seq<Byte>>
    decreases |s|
  {
    if s == [] then []
    else
      var k := FirstLineLength(s);
      [s[..k]] + Lines(s[k..])
  }

  lemma NoNewlineCount(s: seq<Byte>)
    requires forall i :: 0 <= i < |s| ==> s[i] != NEWLINE
    ensures multiset(s)[NEWLINE] == 0
  {
    assert NEWLINE !in s;
  }

  lemma CountLineAppend(a: seq<Byte>, b: seq<Byte>)
    ensures CountLine(a + b) == CountLine(a) + CountLine(b)
  {
    assert multiset(a + b) == multiset(a) + multiset(b);
  }

  /** The first line holds one newline if it ends with one, none otherwise. */
  lemma FirstLineNewlines(s: seq<Byte>)
    requires s != []
    ensures var k := FirstLineLength(s);
      multiset(s[..k])[NEWLINE] == if s[k - 1] == NEWLINE then 1 else 0
  {
    var k := FirstLineLength(s);
    NoNewlineCount(s[..k - 1]);
    assert s[..k] == s[..k - 1] + [s[k - 1]];
  }

  /** `input.lines.count` is the number of newlines, plus one when the input
      does not end with a newline and is not empty. */
  lemma {:induction false} LinesCount(s: seq<Byte>)
    ensures |Lines(s)| == CountLine(s) + if s != [] && s[|s| - 1] != NEWLINE then 1 else 0
    decreases |s|
  {
    if s != [] {
      var k := FirstLineLength(s);
      LinesCount(s[k..]);
      LinesStep(s);
    }
  }

  /** Splitting off the first line: one line fewer, that line's newlines
      fewer, and the same last byte if anything is left. */
  lemma LinesStep(s: seq<Byte>)
    requires s != []
    ensures var k := FirstLineLength(s);
      |Lines(s)| == 1 + |Lines(s[k..])| &&
      CountLine(s) == (if s[k - 1] == NEWLINE then 1 else 0) + CountLine(s[k..]) &&
      (k < |s| ==> s[k..] != [] && s[k..][|s[k..]| - 1] == s[|s| - 1])
  {
    var k := FirstLineLength(s);
    LinesLength(s);
    FirstLineNewlines(s);
    SplitCount(s, k);
    if k < |s| {
      LastOfSuffix(s, k);
    }
  }

  /** String#lines splits off one line at a time. */
  lemma LinesLength(s: seq<Byte>)
    requires s != []
    ensures |Lines(s)| == 1 + |Lines(s[FirstLineLength(s)..])|
  {
  }

  lemma LastOfSuffix(s: seq<Byte>, k: nat)
    requires k < |s|
    ensures s[k..] != [] && s[k..][|s[k..]| - 1] == s[|s| - 1]
  {
    assert |s[k..]| == |s| - k;
  }

  lemma SplitCount(s: seq<Byte>, k: nat)
    requires k <= |s|
    ensures CountLine(s) == CountLine(s[..k]) + CountLine(s[k..])
  {
    assert s == s[..k] + s[k..];
    CountLineAppend(s[..k], s[k..]);
  }

  /** Joining the lines gives the input back. */
  lemma {:induction false} LinesConcat(s: seq<Byte>)
    ensures Concat(Lines(s)) == s
    decreases |s|
  {
    if s != [] {
      var k := FirstLineLength(s);
      LinesConcat(s[k..]);
      ConcatCons(s[..k], Lines(s[k..]));
      SplitJoin(s, k);
    }
  }

  /** No newline before the last byte. */
  predicate NewlineOnlyAtEnd(line: seq<Byte>)
  {
    forall i :: 0 <= i < |line| - 1 ==> line[i] != NEWLINE
  }

  /** Every line is non-empty and holds a newline at most at its end; all
      but the last end with one. */
  lemma {:induction false} LinesShape(s: seq<Byte>)
    ensures forall i :: 0 <= i < |Lines(s)| ==> Lines(s)[i] != [] && NewlineOnlyAtEnd(Lines(s)[i])
    ensures forall i :: 0 <= i < |Lines(s)| - 1 ==> EndsWith(Lines(s)[i], NEWLINE)
    decreases |s|
  {
    if s != [] {
      var k := FirstLineLength(s);
      var first, rest := s[..k], s[k..];
      LinesShape(rest);
      var lines := Lines(s);
      assert lines == [first] + Lines(rest);
      assert first != [] && NewlineOnlyAtEnd(first);
      forall i | 0 <= i < |lines|
        ensures lines[i] != [] && NewlineOnlyAtEnd(lines[i])
        ensures i < |lines| - 1 ==> EndsWith(lines[i], NEWLINE)
      {
        if i > 0 {
          assert lines[i] == Lines(rest)[i - 1];
        } else if 0 < |lines| - 1 {
          assert rest != [];
        }
      }
    }
  }

  // ---------------------------------------------------------------------
  // String#split(/\s+/), which counts the words

  /** The number of leading bytes that are not white space. */
  function WordLength(s: seq<Byte>): (k: nat)
    ensures k <= |s|
    ensures forall i :: 0 <= i < k ==> !IsSpace(s[i])
    ensures k < |s| ==> IsSpace(s[k])
  {
    if s == [] || IsSpace(s[0]) then 0 else 1 + WordLength(s[1..])
  }

  /** The number of leading white-space bytes. */
  function SpaceLength(s: seq<Byte>): (k: nat)
    ensures k <= |s|
    ensures forall i :: 0 <= i < k ==> IsSpace(s[i])
    ensures k < |s| ==> !IsSpace(s[k])
    ensures s != [] && IsSpace(s[0]) ==> k >= 1
  {
    if s == [] || !IsSpace(s[0]) then 0 else 1 + SpaceLength(s[1..])
  }

  /** The pieces between maximal runs of white space, an empty first piece
      when the content starts with white space and an empty last piece
      when it ends with it. */
  function Fields(s: seq<Byte>): seq<seq<Byte>>
    decreases |s|
  {
    var w := WordLength(s);
    if w == |s| then [s]
    else
      var rest := s[w..];
      [s[..w]] + Fields(rest[SpaceLength(rest)..])
  }

  /** split drops trailing empty strings. */
  function DropTrailingEmpty(fs: seq<seq<Byte>>): seq<seq<Byte>>
  {
    if fs == [] then []
    else if fs[|fs| - 1] == [] then DropTrailingEmpty(fs[..|fs| - 1])
    else fs
  }

  /** `split(/\s+/)` */
  function Split(s: seq<Byte>): seq<seq<Byte>>
  {
    DropTrailingEmpty(Fields(s))
  }

  /** `count_word`: `split(/\s+/).size`. */
  function CountWord(content: seq<Byte>): nat
  {
    |Split(content)|
  }

  /** The number of maximal runs of non-white-space bytes, counted from a
      position that does (afterSpace) or does not follow white space. */
  function WordStarts(s: seq<Byte>, afterSpace: bool): nat
  {
    if s == [] then 0
    else (if afterSpace && !IsSpace(s[0]) then 1 else 0) + WordStarts(s[1..], IsSpace(s[0]))
  }

  /** The number of words in the usual sense. */
  function WordRuns(s: seq<Byte>): nat
  {
    WordStarts(s, true)
  }

  lemma {:induction false} SkipWord(s: seq<Byte>, k: nat, afterSpace: bool)
    requires 1 <= k <= |s| && forall i :: 0 <= i < k ==> !IsSpace(s[i])
    ensures WordStarts(s, afterSpace) == (if afterSpace then 1 else 0) + WordStarts(s[k..], false)
  {
    if k > 1 {
      SkipWord(s[1..], k - 1, false);
      assert s[1..][k - 1..] == s[k..];
    }
  }

  lemma {:induction false} SkipSpace(s: seq<Byte>, k: nat, afterSpace: bool)
    requires 1 <= k <= |s| && forall i :: 0 <= i < k ==> IsSpace(s[i])
    ensures WordStarts(s, afterSpace) == WordStarts(s[k..], true)
  {
    if k > 1 {
      SkipSpace(s[1..], k - 1, true);
      assert s[1..][k - 1..] == s[k..];
    }
  }

  /** Putting a piece in front of the pieces: the trailing empty ones are
      dropped as before, and the new piece survives unless it is empty and
      nothing else does. */
  lemma {:induction false} DropTrailingEmptyCons(a: seq<Byte>, fs: seq<seq<Byte>>)
    ensures DropTrailingEmpty([a] + fs) ==
      if a == [] && DropTrailingEmpty(fs) == [] then [] else [a] + DropTrailingEmpty(fs)
    decreases |fs|
  {
    if fs == [] {
      assert [a][..0] == [];
    } else if fs[|fs| - 1] == [] {
      assert ([a] + fs)[..|fs|] == [a] + fs[..|fs| - 1];
      DropTrailingEmptyCons(a, fs[..|fs| - 1]);
    }
  }

  /** For content that does not start with white space, split gives one
      string per word. */
  lemma {:induction false} SplitWithoutLeadingSpace(s: seq<Byte>)
    requires s == [] || !IsSpace(s[0])
    ensures |Split(s)| == WordRuns(s)
    decreases |s|
  {
    var w := WordLength(s);
    if s == [] {
      assert Fields(s) == [[]];
    } else if w == |s| {
      SkipWord(s, w, true);
    } else {
      var rest := s[w..];
      var t := rest[SpaceLength(rest)..];
      SplitWithoutLeadingSpace(t);
      DropTrailingEmptyCons(s[..w], Fields(t));
      SkipWord(s, w, true);
      SkipSpace(rest, SpaceLength(rest), false);
    }
  }

  /** split(/\s+/).size is the number of words, plus one for the empty
      string in front when the content starts with white space and has a
      word at all; empty or all-blank content has none. */
  lemma WordCountIsRuns(s: seq<Byte>)
    ensures CountWord(s) == WordRuns(s) + if s != [] && IsSpace(s[0]) && WordRuns(s) > 0 then 1 else 0
  {
    if s != [] && IsSpace(s[0]) {
      var k := SpaceLength(s);
      var t := s[k..];
      assert s[..0] == [] && s[0..] == s;
      assert Fields(s) == [[]] + Fields(t);
      SplitWithoutLeadingSpace(t);
      DropTrailingEmptyCons([], Fields(t));
      SkipSpace(s, k, true);
    } else {
      SplitWithoutLeadingSpace(s);
    }
  }

  /** split finds no field exactly when every byte is white space; the
      empty content included. */
  lemma NoWordsIffBlank(s: seq<Byte>)
    ensures CountWord(s) == 0 <==> forall i :: 0 <= i < |s| ==> IsSpace(s[i])
  {
    WordCountIsRuns(s);
    NoStartsIffBlank(s);
  }

  lemma {:induction false} NoStartsIffBlank(s: seq<Byte>)
    ensures WordStarts(s, true) == 0 <==> forall i :: 0 <= i < |s| ==> IsSpace(s[i])
    decreases |s|
  {
    if s != [] {
      NoStartsIffBlank(s[1..]);
      if IsSpace(s[0]) {
        assert forall i :: 1 <= i < |s| ==> s[i] == s[1..][i - 1];
      }
    }
  }

  /** Counting word starts from position k: the byte at k, then the rest. */
  lemma StartsStep(s: seq<Byte>, k: nat, afterSpace: bool)
    requires k < |s|
    ensures WordStarts(s[k..], afterSpace) ==
      (if afterSpace && !IsSpace(s[k]) then 1 else 0) + WordStarts(s[k + 1..], IsSpace(s[k]))
  {
    assert s[k..][1..] == s[k + 1..];
  }

  /** "  a   b\tc\n" has three words but counts four. */
  lemma LeadingBlankCountsExtra(s: seq<Byte>)
    requires |s| == 10 && s[0] == 32 && s[1] == 32 && s[2] == 97 && s[3] == 32 && s[4] == 32
    requires s[5] == 32 && s[6] == 98 && s[7] == 9 && s[8] == 99 && s[9] == 10
    ensures WordRuns(s) == 3
    ensures CountWord(s) == 4
  {
    WordCountIsRuns(s);
    LeadingBlankRuns(s);
  }

  /** The word starts of "  a   b\tc\n", counted byte by byte from the end. */
  lemma LeadingBlankRuns(s: seq<Byte>)
    requires |s| == 10 && s[0] == 32 && s[1] == 32 && s[2] == 97 && s[3] == 32 && s[4] == 32
    requires s[5] == 32 && s[6] == 98 && s[7] == 9 && s[8] == 99 && s[9] == 10
    ensures WordRuns(s) == 3
  {
    assert s[10..] == [];
    StartsStep(s, 9, false);
    assert WordStarts(s[9..], false) == 0;
    StartsStep(s, 8, true);
    assert WordStarts(s[8..], true) == 1;
    StartsStep(s, 7, false);
    assert WordStarts(s[7..], false) == 1;
    StartsStep(s, 6, true);
    assert WordStarts(s[6..], true) == 2;
    StartsStep(s, 5, true);
    assert WordStarts(s[5..], true) == 2;
    StartsStep(s, 4, true);
    assert WordStarts(s[4..], true) == 2;
    StartsStep(s, 3, false);
    assert WordStarts(s[3..], false) == 2;
    StartsStep(s, 2, true);
    assert WordStarts(s[2..], true) == 3;
    StartsStep(s, 1, true);
    assert WordStarts(s[1..], true) == 3;
    StartsStep(s, 0, true);
    assert s[0..] == s;
  }

  /** "a\nb" is one line as a file and two on standard input. */
  lemma UnterminatedLastLine(s: seq<Byte>)
    requires s == [97, 10, 98]
    ensures CountLine(s) == 1
    ensures |Lines(s)| == 2
  {
    assert s == [97] + [NEWLINE] + [98];
    LinesCount(s);
  }

  // ---------------------------------------------------------------------
  // Rows

  /** The width every count is right-justified to. */
  const FIELD_WIDTH: nat := 8

  /** `n.to_s.rjust(8)` */
  function Field(n: nat): string
  {
    RJust(ToS(n, 10), FIELD_WIDTH)
  }

  lemma {:induction false} StripSpaces(k: nat, s: string)
    requires s != [] && s[0] != ' '
    ensures StripLeadingSpaces(Spaces(k) + s) == s
  {
    if k > 0 {
      assert (Spaces(k) + s)[1..] == Spaces(k - 1) + s;
      StripSpaces(k - 1, s);
    } else {
      assert Spaces(k) + s == s;
    }
  }

  /** A count field is at least eight characters wide, never truncates, and
      reads back as the count: blanks, then the decimal numeral. */
  lemma FieldRoundTrip(n: nat)
    ensures |Field(n)| == Max(|ToS(n, 10)|, FIELD_WIDTH)
    ensures n < 100000000 ==> |Field(n)| == FIELD_WIDTH
    ensures StripLeadingSpaces(Field(n)) == ToS(n, 10)
    ensures IsDigitString(StripLeadingSpaces(Field(n))) && DecimalValue(StripLeadingSpaces(Field(n))) == n
  {
    FieldIsPadded(n);
    FieldStrip(n);
    DecimalRoundTrip(n);
    if n < 100000000 {
      ToSLengthMonotone(n, 99999999);
      ToSNines();
    }
  }

  /** Stripping the blanks off a count field leaves the numeral. */
  lemma FieldStrip(n: nat)
    ensures StripLeadingSpaces(Field(n)) == ToS(n, 10)
  {
    var s := ToS(n, 10);
    FieldIsPadded(n);
    assert s[0] != ' ';
    StripSpaces(|Field(n)| - |s|, s);
  }

  /** A count field is its numeral with blanks in front. */
  lemma FieldIsPadded(n: nat)
    ensures |Field(n)| == Max(|ToS(n, 10)|, FIELD_WIDTH)
    ensures Field(n) == Spaces(|Field(n)| - |ToS(n, 10)|) + ToS(n, 10)
  {
    var s := ToS(n, 10);
    if |s| >= FIELD_WIDTH {
      assert Spaces(0) + s == s;
    }
  }

  lemma ToSNines()
    ensures |ToS(99999999, 10)| == 8
  {
    ToSLast(99999999, 10);
    ToSLast(9999999, 10);
    ToSLast(999999, 10);
    ToSLast(99999, 10);
    ToSLast(9999, 10);
    ToSLast(999, 10);
    ToSLast(99, 10);
  }

  /** A count field holds only blanks and digits, never a newline. */
  lemma FieldHasNoNewline(n: nat)
    ensures '\n' !in Field(n)
  {
    var s, f := ToS(n, 10), Field(n);
    forall i | 0 <= i < |f|
      ensures f[i] != '\n'
    {
      if i >= |f| - |s| {
        assert f[i] == f[|f| - |s|..][i - (|f| - |s|)];
      }
    }
  }

  /** Kernel#puts: a newline is added unless the text already ends with one. */
  function Puts(text: string): (r: string)
  {
    if EndsWith(text, '\n') then text else text + "\n"
  }

  /** The count fields of a row: the line count, then, unless -l is given,
      the word count and the byte count. */
  function CountFields(lines: nat, words: nat, bytes: nat, linesOnly: bool): string
  {
    Field(lines) + if linesOnly then "" else Field(words) + Field(bytes)
  }

  /** A file argument together with what File.read returns for it. */
  datatype InputFile = InputFile(path: string, content: seq<Byte>)

  /** `show_wc_format` */
  function FileRow(file: InputFile, linesOnly: bool): string
  {
    CountFields(CountLine(file.content), CountWord(file.content), CountBytesize(file.content), linesOnly) +
    Puts(" " + file.path)
  }

  /** `show_stdin`: lines counted with String#lines, and no name and no
      newline after the fields. */
  function StdinRow(input: seq<Byte>, linesOnly: bool): string
  {
    CountFields(|Lines(input)|, CountWord(input), CountBytesize(input), linesOnly)
  }

  /** `count_total_lines` */
  function TotalLines(files: seq<InputFile>): nat
  {
    if files == [] then 0 else TotalLines(files[..|files| - 1]) + CountLine(files[|files| - 1].content)
  }

  /** `count_total_words` */
  function TotalWords(files: seq<InputFile>): nat
  {
    if files == [] then 0 else TotalWords(files[..|files| - 1]) + CountWord(files[|files| - 1].content)
  }

  /** `count_total_bytesizes` */
  function TotalBytesizes(files: seq<InputFile>): nat
  {
    if files == [] then 0 else TotalBytesizes(files[..|files| - 1]) + CountBytesize(files[|files| - 1].content)
  }

  /** `total_wc_format` */
  function TotalRow(files: seq<InputFile>, linesOnly: bool): string
  {
    CountFields(TotalLines(files), TotalWords(files), TotalBytesizes(files), linesOnly) + Puts(" total")
  }

  /** `show_wc_format` with the option fixed. */
  function RowFormat(linesOnly: bool): InputFile -> string
  {
    file => FileRow(file, linesOnly)
  }

  /** The per-file rows, in argument order. */
  function FileRows(files: seq<InputFile>, linesOnly: bool): string
  {
    JoinMap(files, RowFormat(linesOnly))
  }

  /** What `main` prints: standard input is read only without file
      arguments; the total row only follows two or more files. */
  function WcOutput(files: seq<InputFile>, stdin: seq<Byte>, linesOnly: bool): string
  {
    if files == [] then StdinRow(stdin, linesOnly)
    else FileRows(files, linesOnly) + if |files| >= 2 then TotalRow(files, linesOnly) else ""
  }

  /** Everything the files hold, one after another. */
  function AllContent(files: seq<InputFile>): seq<Byte>
  {
    if files == [] then [] else AllContent(files[..|files| - 1]) + files[|files| - 1].content
  }

  /** The total line and byte counts are those of all the files joined. */
  lemma {:induction false} TotalsOfJoinedContent(files: seq<InputFile>)
    ensures TotalLines(files) == CountLine(AllContent(files))
    ensures TotalBytesizes(files) == CountBytesize(AllContent(files))
  {
    if files != [] {
      TotalsOfJoinedContent(files[..|files| - 1]);
      var last := files[|files| - 1].content;
      assert multiset(AllContent(files)) == multiset(AllContent(files[..|files| - 1])) + multiset(last);
    }
  }

  /** The word total is not the word count of the joined files: "a" and "b"
      make two words, "ab" one. */
  lemma WordTotalIsNotJoinedCount(a: seq<Byte>, b: seq<Byte>, files: seq<InputFile>)
    requires a == [97] && b == [98] && files == [InputFile("x", a), InputFile("y", b)]
    ensures TotalWords(files) == 2
    ensures CountWord(AllContent(files)) == 1
  {
    var first := files[..1];
    assert first == [files[0]] && first[..0] == [];
    assert TotalWords(first) == CountWord(a);
    assert TotalWords(files) == TotalWords(first) + CountWord(b);
    WordCountIsRuns(a);
    WordCountIsRuns(b);
    SkipWord(a, 1, true);
    SkipWord(b, 1, true);
    var joined := AllContent(files);
    assert AllContent(first) == [] + a;
    assert joined == AllContent(first) + b;
    assert joined == [97, 98];
    WordCountIsRuns(joined);
    SkipWord(joined, 2, true);
  }

  lemma {:induction false} TotalWordsAppend(a: seq<InputFile>, b: seq<InputFile>)
    ensures TotalWords(a + b) == TotalWords(a) + TotalWords(b)
    ensures TotalLines(a + b) == TotalLines(a) + TotalLines(b)
    ensures TotalBytesizes(a + b) == TotalBytesizes(a) + TotalBytesizes(b)
  {
    if b == [] {
      assert a + b == a;
    } else {
      assert (a + b)[..|a + b| - 1] == a + b[..|b| - 1];
      TotalWordsAppend(a, b[..|b| - 1]);
    }
  }

  /** The rows of a list of files are the rows of its parts, in order; one
      file gives its own row. */
  lemma FileRowsAppend(a: seq<InputFile>, b: seq<InputFile>, linesOnly: bool)
    ensures FileRows(a + b, linesOnly) == FileRows(a, linesOnly) + FileRows(b, linesOnly)
  {
    JoinMapAppend(a, b, RowFormat(linesOnly));
  }

  /** One more file prints one more row at the end. */
  lemma FileRowsSnoc(files: seq<InputFile>, file: InputFile, linesOnly: bool)
    ensures FileRows(files + [file], linesOnly) == FileRows(files, linesOnly) + FileRow(file, linesOnly)
  {
    var f := RowFormat(linesOnly);
    assert (files + [file])[..|files|] == files;
    assert JoinMap(files + [file], f) == JoinMap(files, f) + f(file);
    assert f(file) == FileRow(file, linesOnly);
  }

  lemma FileRowsStep(files: seq<InputFile>, i: nat, linesOnly: bool)
    requires i < |files|
    ensures FileRows(files[..i + 1], linesOnly) == FileRows(files[..i], linesOnly) + FileRow(files[i], linesOnly)
  {
    assert files[..i + 1] == files[..i] + [files[i]];
    FileRowsSnoc(files[..i], files[i], linesOnly);
  }

  lemma SingleFileRow(file: InputFile, linesOnly: bool)
    ensures FileRows([file], linesOnly) == FileRow(file, linesOnly)
  {
    var f := RowFormat(linesOnly);
    assert [file][..0] == [];
    assert JoinMap([file], f) == JoinMap([], f) + f(file);
    assert f(file) == FileRow(file, linesOnly);
  }

  /** -l leaves the line field and the name where they are and only drops
      the word and byte fields that follow the line field. */
  lemma LinesOnlyDropsWordsAndBytes(file: InputFile)
    ensures var short, lineField := FileRow(file, true), Field(CountLine(file.content));
      |lineField| <= |short| &&
      FileRow(file, false) ==
        short[..|lineField|] + Field(CountWord(file.content)) + Field(CountBytesize(file.content)) + short[|lineField|..]
  {
    var c := file.content;
    FieldsSplice(CountLine(c), CountWord(c), CountBytesize(c), Puts(" " + file.path));
  }

  /** With -l, the word and byte fields are cut out of a row and nothing
      else changes, whatever the counts and the name. */
  lemma FieldsSplice(lines: nat, words: nat, bytes: nat, name: string)
    ensures var short, lineField := CountFields(lines, words, bytes, true) + name, Field(lines);
      |lineField| <= |short| &&
      CountFields(lines, words, bytes, false) + name ==
        short[..|lineField|] + Field(words) + Field(bytes) + short[|lineField|..]
  {
    var l, w, b := Field(lines), Field(words), Field(bytes);
    assert l + "" == l;
    assert CountFields(lines, words, bytes, true) + name == l + name;
    assert CountFields(lines, words, bytes, false) + name == l + (w + b) + name;
    Splice(l, w, b, name);
  }

  /** Putting w and b between the two halves of a + n. */
  lemma Splice(a: string, w: string, b: string, n: string)
    ensures a + (w + b) + n == (a + n)[..|a|] + w + b + (a + n)[|a|..]
  {
    assert (a + n)[..|a|] == a;
    assert (a + n)[|a|..] == n;
  }

  /** A file row ends with a blank, the path and one newline. */
  lemma FileRowEnd(file: InputFile, linesOnly: bool)
    requires '\n' !in file.path
    ensures var row := FileRow(file, linesOnly);
      |row| >= |file.path| + 2 && row[|row| - |file.path| - 2..] == " " + file.path + "\n"
  {
    var c := file.content;
    var fields := CountFields(CountLine(c), CountWord(c), CountBytesize(c), linesOnly);
    var name := " " + file.path;
    PutsAddsNewline(name);
    assert FileRow(file, linesOnly) == fields + (name + "\n");
    SuffixAfter(fields, name + "\n");
  }

  /** The total row ends with " total\n". */
  lemma TotalRowEnd(files: seq<InputFile>, linesOnly: bool)
    ensures var row := TotalRow(files, linesOnly);
      |row| >= 7 && row[|row| - 7..] == " total\n"
  {
    var fields := CountFields(TotalLines(files), TotalWords(files), TotalBytesizes(files), linesOnly);
    PutsTotal();
    assert TotalRow(files, linesOnly) == fields + " total\n";
    SuffixAfter(fields, " total\n");
  }

  lemma PutsTotal()
    ensures Puts(" total") == " total\n"
    ensures multiset(Puts(" total"))['\n'] == 1
  {
    var t := " total";
    assert |t| == 6 && t[5] == 'l';
    assert forall i :: 0 <= i < |t| ==> t[i] != '\n';
    PutsAddsNewline(t);
  }

  /** puts adds exactly one newline to a text that holds none. */
  lemma PutsAddsNewline(text: string)
    requires text != [] && '\n' !in text
    ensures Puts(text) == text + "\n"
    ensures multiset(Puts(text))['\n'] == 1
  {
    assert text[|text| - 1] in text;
  }

  lemma SuffixAfter(a: string, b: string)
    ensures (a + b)[|a + b| - |b|..] == b
  {
  }


  lemma NewlinesInCountFields(lines: nat, words: nat, bytes: nat, linesOnly: bool)
    ensures multiset(CountFields(lines, words, bytes, linesOnly))['\n'] == 0
  {
    FieldHasNoNewline(lines);
    FieldHasNoNewline(words);
    FieldHasNoNewline(bytes);
  }

  /** One newline per file row: the counts hold none and a path without
      a newline gets exactly the one puts adds. */
  lemma NewlinesInFileRow(file: InputFile, linesOnly: bool)
    requires '\n' !in file.path
    ensures multiset(FileRow(file, linesOnly))['\n'] == 1
  {
    var c := file.content;
    var fields := CountFields(CountLine(c), CountWord(c), CountBytesize(c), linesOnly);
    var name := Puts(" " + file.path);
    NewlinesInCountFields(CountLine(c), CountWord(c), CountBytesize(c), linesOnly);
    PutsAddsNewline(" " + file.path);
    assert FileRow(file, linesOnly) == fields + name;
    assert multiset(fields + name) == multiset(fields) + multiset(name);
  }

  lemma {:induction false} NewlinesInFileRows(files: seq<InputFile>, linesOnly: bool)
    requires forall i :: 0 <= i < |files| ==> '\n' !in files[i].path
    ensures multiset(FileRows(files, linesOnly))['\n'] == |files|
  {
    if files != [] {
      var init, last := files[..|files| - 1], files[|files| - 1];
      NewlinesInFileRows(init, linesOnly);
      NewlinesInFileRow(last, linesOnly);
      var before, row := FileRows(init, linesOnly), FileRow(last, linesOnly);
      assert FileRows(files, linesOnly) == before + row;
      assert multiset(before + row) == multiset(before) + multiset(row);
    }
  }

  lemma NewlinesInTotalRow(files: seq<InputFile>, linesOnly: bool)
    ensures multiset(TotalRow(files, linesOnly))['\n'] == 1
  {
    var fields := CountFields(TotalLines(files), TotalWords(files), TotalBytesizes(files), linesOnly);
    NewlinesInCountFields(TotalLines(files), TotalWords(files), TotalBytesizes(files), linesOnly);
    PutsTotal();
    assert TotalRow(files, linesOnly) == fields + Puts(" total");
    assert multiset(fields + Puts(" total")) == multiset(fields) + multiset(Puts(" total"));
  }

  /** When no path holds a newline, the output has one line per file, one
      more for the total exactly when there are two files or more, and no
      newline at all for standard input. */
  lemma OutputLines(files: seq<InputFile>, stdin: seq<Byte>, linesOnly: bool)
    requires forall i :: 0 <= i < |files| ==> '\n' !in files[i].path
    ensures multiset(WcOutput(files, stdin, linesOnly))['\n'] ==
      if files == [] then 0 else |files| + if |files| >= 2 then 1 else 0
  {
    if files == [] {
      NewlinesInCountFields(|Lines(stdin)|, CountWord(stdin), CountBytesize(stdin), linesOnly);
    } else {
      NewlinesInFileRows(files, linesOnly);
      NewlinesInTotalRow(files, linesOnly);
      var rows := FileRows(files, linesOnly);
      var total := if |files| >= 2 then TotalRow(files, linesOnly) else "";
      assert WcOutput(files, stdin, linesOnly) == rows + total;
      assert multiset(rows + total) == multiset(rows) + multiset(total);
    }
  }

  /** With file arguments, standard input makes no difference. */
  lemma StdinUnreadWithFiles(files: seq<InputFile>, stdin: seq<Byte>, other: seq<Byte>, linesOnly: bool)
    requires files != []
    ensures WcOutput(files, stdin, linesOnly) == WcOutput(files, other, linesOnly)
  {
  }

  /** `main`: the rows of the files in argument order, then the total row
      for two or more files; the standard-input row without files. */
  method Execute(files: seq<InputFile>, stdin: seq<Byte>, linesOnly: bool) returns (out: string)
    ensures out == WcOutput(files, stdin, linesOnly)
  {
    if |files| == 0 {
      return StdinRow(stdin, linesOnly);
    }
    out := ShowFileRows(files, linesOnly);
    if |files| >= 2 {
      out := out + TotalRow(files, linesOnly);
    } else {
      assert out + "" == out;
    }
  }

  /** The `files.each` loop of `main`: show_wc_format for every file. */
  method ShowFileRows(files: seq<InputFile>, linesOnly: bool) returns (out: string)
    ensures out == FileRows(files, linesOnly)
  {
    out := "";
    var i := 0;
    while i < |files|
      invariant 0 <= i <= |files|
      invariant out == FileRows(files[..i], linesOnly)
    {
      FileRowsStep(files, i, linesOnly);
      out := out + FileRow(files[i], linesOnly);
      i := i + 1;
    }
    assert files[..i] == files;
  }
}
