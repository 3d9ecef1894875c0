/** The short `ls` listing: the ordered names are cut into slices of
    ceil(n / 3) names, every slice is padded with nil to the longest one,
    the slices (the columns) are transposed into rows, and every cell is
    printed left-justified to the longest name's length plus 15. */
module LsGrid {
  import opened Ruby

  /** MAXIMUM_WIDTH: the most columns the short listing ever uses. */
  const MAXIMUM_WIDTH: nat := 3

  /** Padding added to the longest name to get the field width. */
  const SPACING: nat := 15

  /** `columns` in list_of_elements, (n.to_f / MAXIMUM_WIDTH).ceil: the
      length of every slice but the last, hence the number of printed rows. */
  function SliceLength(n: nat): (k: nat)
    ensures n <= k * MAXIMUM_WIDTH
    ensures n >= 1 ==> (k - 1) * MAXIMUM_WIDTH < n
    ensures n >= 1 ==> 1 <= k <= n
    ensures n == 0 <==> k == 0
  {
    (n + MAXIMUM_WIDTH - 1) / MAXIMUM_WIDTH
  }

  /** The index of the name shown in column c, row r, when every column
      holds k names: the names run down the columns, then across. */
  function Position(c: nat, k: nat, r: nat): nat
  {
    c * k + r
  }

  /** The row in which name i is shown when every column holds k names. */
  function Row(i: nat, k: nat): nat
    requires k >= 1
  {
    i % k
  }

  /** The column in which name i is shown when every column holds k names. */
  function Column(i: nat, k: nat): nat
    requires k >= 1
  {
    i / k
  }

  /** Enumerable#each_slice(k): consecutive pieces of k elements, the last
      one possibly shorter; the number of pieces is ceil(|s| / k). */
  function EachSlice<T>(s: seq<T>, k: nat): (r: seq<seq<T>>)
    requires k >= 1
    ensures |r| == 0 <==> |s| == 0
    ensures |s| <= |r| * k
    ensures |r| == 0 || (|r| - 1) * k < |s|
    decreases |s|
  {
    if |s| == 0 then []
    else if |s| <= k then [s]
    else
      var rest := EachSlice(s[k..], k);
      assert |rest| * k + k == (|rest| + 1) * k;
      [s[..k]] + rest
  }

  /** Where the slice that starts at c * k ends. */
  function SliceEnd(c: nat, k: nat, n: nat): nat
  {
    if (c + 1) * k <= n then (c + 1) * k else n
  }

  lemma DropThenSlice<T>(s: seq<T>, k: nat, lo: nat, hi: nat)
    requires k <= |s| && lo <= hi <= |s| - k
    ensures s[k..][lo..hi] == s[k + lo .. k + hi]
  {
  }

  /** Dropping the first slice moves every later slice end back by k. */
  lemma SliceEndShift(c: nat, k: nat, n: nat)
    requires c >= 1 && k <= n
    ensures SliceEnd(c - 1, k, n - k) + k == SliceEnd(c, k, n)
  {
    assert (c - 1 + 1) * k == c * k;
    assert c * k + k == (c + 1) * k;
  }

  /** Slice c holds the elements from c * k up to (c + 1) * k or the end. */
  lemma {:induction false} EachSliceAt<T>(s: seq<T>, k: nat, c: nat)
    requires k >= 1 && c < |EachSlice(s, k)|
    ensures c * k < |s| && c * k <= SliceEnd(c, k, |s|)
    ensures EachSlice(s, k)[c] == s[c * k .. SliceEnd(c, k, |s|)]
    decreases c
  {
    MulMonotone(c, |EachSlice(s, k)| - 1, k);
    assert c * k + k == (c + 1) * k;
    if c > 0 {
      var rest := s[k..];
      assert EachSlice(s, k)[c] == EachSlice(rest, k)[c - 1];
      EachSliceAt(rest, k, c - 1);
      MulMonotone(0, c - 1, k);
      assert (c - 1) * k + k == c * k;
      SliceEndShift(c, k, |s|);
      DropThenSlice(s, k, (c - 1) * k, SliceEnd(c - 1, k, |rest|));
    }
  }

  /** Flattening the slices gives back the sequence. */
  lemma {:induction false} ConcatEachSlice<T>(s: seq<T>, k: nat)
    requires k >= 1
    ensures Concat(EachSlice(s, k)) == s
    decreases |s|
  {
    if |s| > 0 {
      var r := EachSlice(s, k);
      assert Concat([r[0]]) == r[0] by { assert [r[0]][..0] == []; }
      if |s| > k {
        ConcatEachSlice(s[k..], k);
        ConcatAppend([r[0]], r[1..]);
        assert r == [r[0]] + r[1..];
        assert s == s[..k] + s[k..];
      } else {
        assert r == [r[0]];
      }
    }
  }

  /** The array pushed by `lists << element`, seen as an array whose
      entries may later be nil. */
  function Wrap<T>(s: seq<T>): seq<Option<T>>
  {
    seq(|s|, i requires 0 <= i < |s| => Some(s[i]))
  }

  /** Array#values_at(0...m): the first m entries, nil past the end. */
  function ValuesAt<T>(row: seq<Option<T>>, m: nat): seq<Option<T>>
  {
    seq(m, i requires 0 <= i < m => if i < |row| then row[i] else None)
  }

  /** Padding a row that already has the size changes nothing. */
  lemma ValuesAtFull<T>(row: seq<Option<T>>, m: nat)
    requires |row| == m
    ensures ValuesAt(row, m) == row
  {
  }

  /** `lists.map! { |it| it.values_at(0...m) }`: every list cut or padded
      with nil to m entries, in place. */
  method PadAll<T>(lists: seq<seq<Option<T>>>, m: nat) returns (padded: seq<seq<Option<T>>>)
    ensures |padded| == |lists|
    ensures forall c :: 0 <= c < |lists| ==> padded[c] == ValuesAt(lists[c], m)
  {
    padded := lists;
    var j := 0;
    while j < |padded|
      invariant 0 <= j <= |padded| == |lists|
      invariant forall c :: 0 <= c < j ==> padded[c] == ValuesAt(lists[c], m)
      invariant forall c :: j <= c < |lists| ==> padded[c] == lists[c]
    {
      padded := padded[j := ValuesAt(padded[j], m)];
      j := j + 1;
    }
  }

  /** `lists.map(&:size).max`. */
  function MaxSize<T>(lists: seq<seq<T>>): (m: nat)
    ensures forall c :: 0 <= c < |lists| ==> |lists[c]| <= m
    ensures lists != [] ==> exists c :: 0 <= c < |lists| && |lists[c]| == m
  {
    if lists == [] then 0
    else
      var init := lists[..|lists| - 1];
      assert forall c :: 0 <= c < |init| ==> init[c] == lists[c];
      Max(MaxSize(init), |lists[|lists| - 1]|)
  }

  /** The largest size is m when the first list has m entries and none has
      more. */
  lemma MaxSizeIs<T>(lists: seq<seq<T>>, m: nat)
    requires lists != [] && |lists[0]| == m && forall c :: 0 <= c < |lists| ==> |lists[c]| <= m
    ensures MaxSize(lists) == m
  {
  }

  /** The slices of `list_of_elements`, wrapped. */
  function Slices(names: seq<string>): seq<seq<Option<string>>>
    requires |names| >= 1
  {
    var slices := EachSlice(names, SliceLength(|names|));
    seq(|slices|, c requires 0 <= c < |slices| => Wrap(slices[c]))
  }

  /** The value of `list_of_elements`: every slice padded with nil up to the
      size of the largest one. Each entry is one column of the grid. */
  function Layout(names: seq<string>): (cols: seq<seq<Option<string>>>)
    requires |names| >= 1
    ensures 1 <= |cols| <= MAXIMUM_WIDTH
    ensures forall c :: 0 <= c < |cols| ==> |cols[c]| == SliceLength(|names|)
  {
    var lists := Slices(names);
    SlicesShape(names);
    seq(|lists|, c requires 0 <= c < |lists| => ValuesAt(lists[c], MaxSize(lists)))
  }

  /** The slices number between one and three, none is longer than the
      first, and the first holds exactly SliceLength(n) names. */
  lemma SlicesShape(names: seq<string>)
    requires |names| >= 1
    ensures var lists := Slices(names);
      1 <= |lists| <= MAXIMUM_WIDTH && MaxSize(lists) == SliceLength(|names|) &&
      (forall c :: 0 <= c < |lists| ==> |lists[c]| <= SliceLength(|names|)) &&
      |lists[0]| == SliceLength(|names|)
  {
    var n, k := |names|, SliceLength(|names|);
    var slices := EachSlice(names, k);
    var lists := Slices(names);
    MulMonotone(MAXIMUM_WIDTH, |slices| - 1, k);
    forall c | 0 <= c < |slices|
      ensures |slices[c]| <= k
    {
      EachSliceAt(names, k, c);
    }
    EachSliceAt(names, k, 0);
  }

  /** The slices of a non-empty listing: the first holds exactly the slice
      length, none holds more. */
  lemma SliceSizes(names: seq<string>)
    requires |names| >= 1
    ensures var k := SliceLength(|names|); var slices := EachSlice(names, k);
      |slices| >= 1 && |slices[0]| == k && forall c :: 0 <= c < |slices| ==> |slices[c]| <= k
  {
    var k := SliceLength(|names|);
    var slices := EachSlice(names, k);
    SlicesShape(names);
    assert |slices[0]| == |Slices(names)[0]|;
    forall c | 0 <= c < |slices|
      ensures |slices[c]| <= k
    {
      assert |slices[c]| == |Slices(names)[c]|;
    }
  }

  /** Column c, row r of the layout holds names[c * k + r], where k is the
      slice length, or nil once that index runs past the names. */
  lemma LayoutCell(names: seq<string>, c: nat, r: nat)
    requires |names| >= 1 && c < |Layout(names)| && r < SliceLength(|names|)
    ensures Layout(names)[c][r] ==
      var i := Position(c, SliceLength(|names|), r);
      if i < |names| then Some(names[i]) else None
  {
    var n, k := |names|, SliceLength(|names|);
    SlicesShape(names);
    var slices := EachSlice(names, k);
    var slice := slices[c];
    assert Slices(names)[c] == Wrap(slice);
    assert Layout(names)[c] == ValuesAt(Wrap(slice), k);
    assert (c + 1) * k == c * k + k;
    SliceCell(names, k, c, r);
  }

  /** Entry r of slice c is element c * k + r, and it exists exactly when
      that index is inside the sequence. */
  lemma SliceCell<T>(s: seq<T>, k: nat, c: nat, r: nat)
    requires k >= 1 && c < |EachSlice(s, k)| && r < k
    ensures var slice, i := EachSlice(s, k)[c], Position(c, k, r);
      (r < |slice| <==> i < |s|) && (r < |slice| ==> slice[r] == s[i])
  {
    EachSliceAt(s, k, c);
    MulMonotone(0, c, k);
    var slice, ck, e := EachSlice(s, k)[c], c * k, SliceEnd(c, k, |s|);
    assert (c + 1) * k == ck + k;
    assert Position(c, k, r) == ck + r;
    assert slice == s[ck..e];
    if ck + k <= |s| {
      assert e == ck + k;
    } else {
      assert e == |s|;
    }
    SliceEntry(s, ck, e, r);
  }

  lemma SliceEntry<T>(s: seq<T>, lo: nat, hi: nat, r: nat)
    requires lo <= hi <= |s|
    ensures r < |s[lo..hi]| <==> lo + r < hi
    ensures r < |s[lo..hi]| ==> s[lo..hi][r] == s[lo + r]
  {
  }

  /** Four names make slices of two, so the listing has two columns, not
      three. */
  lemma FourNamesTwoColumns(names: seq<string>)
    requires |names| == 4
    ensures SliceLength(|names|) == 2
    ensures |Layout(names)| == 2
  {
    var slices := EachSlice(names, 2);
    assert names[2..][2..] == [];
    assert EachSlice(names[2..], 2) == [names[2..]];
    assert |slices| == 2;
  }

  /** The last column of the layout. */
  function LastColumn(names: seq<string>): seq<Option<string>>
    requires |names| >= 1
  {
    Layout(names)[|Layout(names)| - 1]
  }

  /** Only the last column holds nil, and there only at its end: the
      padding never sits between two names. */
  lemma LayoutPaddingAtEnd(names: seq<string>)
    requires |names| >= 1
    ensures var cols := Layout(names);
      (forall c, r :: 0 <= c < |cols| - 1 && 0 <= r < |cols[c]| ==> cols[c][r].Some?) &&
      (forall r :: 0 <= r < SliceLength(|names|) && LastColumn(names)[r].None? ==>
         forall r' :: r <= r' < SliceLength(|names|) ==> LastColumn(names)[r'].None?)
  {
    var cols: seq<seq<Option<string>>> := Layout(names);
    var k := SliceLength(|names|);
    forall c: int, r: int | 0 <= c < |cols| - 1 && 0 <= r < |cols[c]|
      ensures cols[c][r].Some?
    {
      InnerCellFilled(names, c, r);
    }
    var last := LastColumn(names);
    forall r: int, r': int | 0 <= r <= r' < k && last[r].None?
      ensures last[r'].None?
    {
      LastColumnNilsStay(names, r, r');
    }
  }

  /** A column before the last one is full. */
  lemma InnerCellFilled(names: seq<string>, c: nat, r: nat)
    requires |names| >= 1 && c < |Layout(names)| - 1 && r < SliceLength(|names|)
    ensures Layout(names)[c][r].Some?
  {
    var k := SliceLength(|names|);
    var m := |EachSlice(names, k)|;
    SlicesShape(names);
    assert |Layout(names)| == |Slices(names)| == m;
    MulMonotone(c + 1, m - 1, k);
    assert (m - 1) * k < |names|;
    assert (c + 1) * k == c * k + k;
    assert Position(c, k, r) < |names|;
    LayoutCell(names, c, r);
  }

  /** In the last column, a nil is followed only by nils. */
  lemma LastColumnNilsStay(names: seq<string>, r: nat, r': nat)
    requires |names| >= 1 && r <= r' < SliceLength(|names|) && LastColumn(names)[r].None?
    ensures LastColumn(names)[r'].None?
  {
    var c := |Layout(names)| - 1;
    LayoutCell(names, c, r);
    LayoutCell(names, c, r');
  }

  lemma {:induction false} CompactAppend<T>(a: seq<Option<T>>, b: seq<Option<T>>)
    ensures Compact(a + b) == Compact(a) + Compact(b)
  {
    if a != [] {
      CompactAppend(a[1..], b);
      assert (a + b)[1..] == a[1..] + b;
      assert (a + b)[0] == a[0];
    } else {
      assert a + b == b;
    }
  }

  lemma {:induction false} CompactWrap<T>(s: seq<T>)
    ensures Compact(Wrap(s)) == s
  {
    if s != [] {
      CompactWrap(s[1..]);
      assert Wrap(s)[1..] == Wrap(s[1..]);
    }
  }

  lemma {:induction false} CompactNils<T>(s: seq<Option<T>>)
    requires forall i :: 0 <= i < |s| ==> s[i].None?
    ensures Compact(s) == []
  {
    if s != [] {
      CompactNils(s[1..]);
    }
  }

  /** Padding a slice and dropping the nils again gives the slice back. */
  lemma CompactPadded<T>(s: seq<T>, m: nat)
    requires |s| <= m
    ensures Compact(ValuesAt(Wrap(s), m)) == s
  {
    var padded := ValuesAt(Wrap(s), m);
    assert padded == Wrap(s) + padded[|s|..];
    CompactAppend(Wrap(s), padded[|s|..]);
    CompactWrap(s);
    CompactNils(padded[|s|..]);
  }

  /** The columns partition the names: with the nil padding removed and the
      columns joined, they are exactly the ordered names. */
  lemma LayoutPartition(names: seq<string>)
    requires |names| >= 1
    ensures var cols := Layout(names);
      Concat(seq(|cols|, c requires 0 <= c < |cols| => Compact(cols[c]))) == names
  {
    var cols: seq<seq<Option<string>>> := Layout(names);
    var k := SliceLength(|names|);
    var slices := EachSlice(names, k);
    SlicesShape(names);
    var unpadded := seq(|cols|, c requires 0 <= c < |cols| => Compact(cols[c]));
    forall c | 0 <= c < |cols|
      ensures unpadded[c] == slices[c]
    {
      CompactPadded(slices[c], k);
    }
    assert unpadded == slices;
    ConcatEachSlice(names, k);
  }

  predicate Rectangular<T>(m: seq<seq<T>>)
  {
    forall i :: 0 <= i < |m| ==> |m[i]| == |m[0]|
  }

  /** Array#transpose on a rectangular array of arrays. */
  function Transpose<T>(m: seq<seq<T>>): (t: seq<seq<T>>)
    requires Rectangular(m)
    ensures |t| == if m == [] then 0 else |m[0]|
    ensures forall r :: 0 <= r < |t| ==> |t[r]| == |m|
    ensures forall r, c :: 0 <= r < |t| && 0 <= c < |m| ==> t[r][c] == m[c][r]
  {
    if m == [] then []
    else seq(|m[0]|, r requires 0 <= r < |m[0]| =>
           seq(|m|, c requires 0 <= c < |m| => m[c][r]))
  }

  /** Transposing twice gives the array back. */
  lemma TransposeTwice<T>(m: seq<seq<T>>)
    requires Rectangular(m) && m != [] && |m[0]| > 0
    ensures Rectangular(Transpose(m))
    ensures Transpose(Transpose(m)) == m
  {
    var t := Transpose(m);
    var tt := Transpose(t);
    assert |tt| == |m|;
    forall c | 0 <= c < |m|
      ensures tt[c] == m[c]
    {
    }
  }

  /** The rows of the short listing. */
  function Grid(names: seq<string>): seq<seq<Option<string>>>
    requires |names| >= 1
  {
    Transpose(Layout(names))
  }

  /** Cell (r, c) of the grid is cell (c, r) of the layout. */
  lemma GridAt(names: seq<string>, r: nat, c: nat)
    requires |names| >= 1 && r < SliceLength(|names|) && c < |Layout(names)|
    ensures |Grid(names)| == SliceLength(|names|)
    ensures |Grid(names)[r]| == |Layout(names)|
    ensures Grid(names)[r][c] == Layout(names)[c][r]
  {
  }

  /** The grid has one row per slice position and one cell per column in
      every row. */
  lemma GridShape(names: seq<string>)
    requires |names| >= 1
    ensures |Grid(names)| == SliceLength(|names|) && Rectangular(Grid(names))
    ensures forall r :: 0 <= r < |Grid(names)| ==> |Grid(names)[r]| == |Layout(names)|
  {
  }

  /** Cell (r, c) of the grid holds names[c * rows + r], or nil past the
      end. */
  lemma GridCellAt(names: seq<string>, r: nat, c: nat)
    requires |names| >= 1 && r < SliceLength(|names|) && c < |Layout(names)|
    ensures |Grid(names)| == SliceLength(|names|) && |Grid(names)[r]| == |Layout(names)|
    ensures Grid(names)[r][c] ==
      var i := Position(c, SliceLength(|names|), r);
      if i < |names| then Some(names[i]) else None
  {
    GridAt(names, r, c);
    LayoutCell(names, c, r);
  }

  /** A cell of the grid is no longer than a width every name fits in. */
  lemma GridCellFits(names: seq<string>, r: nat, c: nat, w: nat)
    requires |names| >= 1 && r < SliceLength(|names|) && c < |Layout(names)|
    requires forall i :: 0 <= i < |names| ==> |names[i]| <= w
    ensures |Grid(names)| == SliceLength(|names|) && |Grid(names)[r]| == |Layout(names)|
    ensures CellLength(Grid(names)[r][c]) <= w
  {
    GridCellAt(names, r, c);
  }

  /** The grid has SliceLength(n) rows, each with one cell per column, and
      cell (r, c) holds names[c * rows + r] or nil past the end: names run
      down the columns, then across. */
  lemma GridCell(names: seq<string>)
    requires |names| >= 1
    ensures var grid, k := Grid(names), SliceLength(|names|);
      |grid| == k && Rectangular(grid) &&
      (forall r :: 0 <= r < k ==> |grid[r]| == |Layout(names)|) &&
      (forall r, c :: 0 <= r < k && 0 <= c < |Layout(names)| ==>
         grid[r][c] == if c * k + r < |names| then Some(names[c * k + r]) else None)
  {
    var k := SliceLength(|names|);
    forall r, c | 0 <= r < k && 0 <= c < |Layout(names)|
      ensures Grid(names)[r][c] == if c * k + r < |names| then Some(names[c * k + r]) else None
    {
      GridCellAt(names, r, c);
    }
  }

  lemma MulSucc(a: nat, k: nat)
    ensures (a + 1) * k == a * k + k
  {
  }

  /** Every name is printed, at row i % rows and column i / rows. */
  lemma GridShowsName(names: seq<string>, i: nat)
    requires |names| >= 1 && i < |names|
    ensures var r, c := Row(i, SliceLength(|names|)), Column(i, SliceLength(|names|));
      r < |Grid(names)| && c < |Grid(names)[r]| && Grid(names)[r][c] == Some(names[i])
  {
    var k := SliceLength(|names|);
    DivModParts(i, k);
    GridNameAt(names, Column(i, k), Row(i, k));
  }

  lemma DivModParts(i: nat, k: nat)
    requires k >= 1
    ensures Row(i, k) < k && i == Position(Column(i, k), k, Row(i, k))
  {
  }

  /** The name at index c * rows + r sits in row r, column c. */
  lemma GridNameAt(names: seq<string>, c: nat, r: nat)
    requires |names| >= 1 && r < SliceLength(|names|) && Position(c, SliceLength(|names|), r) < |names|
    ensures r < |Grid(names)| && c < |Grid(names)[r]|
    ensures Grid(names)[r][c] == Some(names[Position(c, SliceLength(|names|), r)])
  {
    var k := SliceLength(|names|);
    SlicesShape(names);
    MulMonotone(|Slices(names)|, c, k);
    GridAt(names, r, c);
    LayoutCell(names, c, r);
  }

  /** The names of a directory are distinct, so the cell computed above is
      the only one that shows names[i]: every name is printed exactly once. */
  lemma GridShowsNameOnce(names: seq<string>, i: nat, r: nat, c: nat)
    requires |names| >= 1 && i < |names|
    requires forall j :: 0 <= j < |names| && j != i ==> names[j] != names[i]
    requires r < |Grid(names)| && c < |Grid(names)[r]| && Grid(names)[r][c] == Some(names[i])
    ensures r == Row(i, SliceLength(|names|)) && c == Column(i, SliceLength(|names|))
  {
    var k := SliceLength(|names|);
    GridAt(names, r, c);
    LayoutCell(names, c, r);
    assert c * k + r < |names| && names[c * k + r] == names[i];
    DivModUnique(i, k, c, r);
  }

  /** What `s.to_s` prints for a cell: nil prints as the empty string. */
  function CellText(cell: Option<string>): string
  {
    match cell
    case Some(s) => s
    case None => ""
  }

  function CellLength(cell: Option<string>): nat
  {
    |CellText(cell)|
  }

  /** `spacing_between_elements`: the length of the cell of the flattened
      grid that max_by picks as the longest, plus 15. */
  function FieldWidth(grid: seq<seq<Option<string>>>): nat
  {
    match MaxBy(Concat(grid), CellLength)
    case Some(longest) => CellLength(longest) + SPACING
    case None => SPACING
  }

  /** The cells of one row, each left-justified to the width. */
  function RenderCells(row: seq<Option<string>>, width: nat): string
  {
    if row == [] then ""
    else RenderCells(row[..|row| - 1], width) + LJust(CellText(row[|row| - 1]), width)
  }

  /** One printed row: its cells, then "\n". */
  function RenderRow(row: seq<Option<string>>, width: nat): string
  {
    RenderCells(row, width) + "\n"
  }

  /** The rows printed one after another. */
  function RenderGrid(grid: seq<seq<Option<string>>>, width: nat): string
  {
    if grid == [] then ""
    else RenderGrid(grid[..|grid| - 1], width) + RenderRow(grid[|grid| - 1], width)
  }

  /** What `show_ls` prints for a non-empty listing. */
  function ShortListing(names: seq<string>): string
    requires |names| >= 1
  {
    var grid := Grid(names);
    RenderGrid(grid, FieldWidth(grid))
  }

  /** The first cell of the flattened grid shows the first name. */
  lemma FirstCell(names: seq<string>)
    requires |names| >= 1
    ensures |Concat(Grid(names))| > 0 && Concat(Grid(names))[0] == Some(names[0])
  {
    var grid := Grid(names);
    GridShowsName(names, 0);
    ConcatAppend([grid[0]], grid[1..]);
    assert grid == [grid[0]] + grid[1..];
    assert Concat([grid[0]]) == grid[0] by { assert [grid[0]][..0] == []; }
  }

  /** Any cell of the grid is nil or shows one of the names. */
  lemma CellIsName(names: seq<string>, x: Option<string>)
    requires |names| >= 1 && x in Concat(Grid(names))
    ensures x.Some? ==> exists i :: 0 <= i < |names| && x.value == names[i]
  {
    var grid, k := Grid(names), SliceLength(|names|);
    ConcatMembership(grid, x);
    var r :| 0 <= r < |grid| && x in grid[r];
    var c :| 0 <= c < |grid[r]| && grid[r][c] == x;
    GridCellName(names, r, c);
  }

  lemma GridCellName(names: seq<string>, r: nat, c: nat)
    requires |names| >= 1 && r < |Grid(names)| && c < |Grid(names)[r]|
    ensures Grid(names)[r][c].Some? ==>
      exists i :: 0 <= i < |names| && Grid(names)[r][c].value == names[i]
  {
    var k := SliceLength(|names|);
    GridShape(names);
    GridCellAt(names, r, c);
    if Grid(names)[r][c].Some? {
      var i := c * k + r;
      assert i < |names| && Grid(names)[r][c].value == names[i];
    }
  }

  /** The cell max_by picks is never nil (the first cell holds a name and
      max_by keeps the first of equal keys), and it is a longest name. */
  lemma LongestCellIsName(names: seq<string>)
    requires |names| >= 1
    ensures MaxBy(Concat(Grid(names)), CellLength).Some?
    ensures MaxBy(Concat(Grid(names)), CellLength).value.Some?
    ensures exists i :: 0 <= i < |names| && MaxBy(Concat(Grid(names)), CellLength).value == Some(names[i])
  {
    var cells := Concat(Grid(names));
    FirstCell(names);
    var longest := MaxBy(cells, CellLength).value;
    var at :| 0 <= at < |cells| && cells[at] == longest &&
      forall j :: 0 <= j < at ==> CellLength(cells[j]) < CellLength(longest);
    assert longest.Some? by {
      if at > 0 { assert CellLength(cells[0]) < CellLength(longest); }
    }
    CellIsName(names, longest);
  }

  lemma MaxCellBound(cells: seq<Option<string>>, x: Option<string>)
    requires x in cells
    ensures MaxBy(cells, CellLength).Some?
    ensures CellLength(x) <= CellLength(MaxBy(cells, CellLength).value)
  {
    var p :| 0 <= p < |cells| && cells[p] == x;
  }

  /** No name is longer than the cell max_by picks. */
  lemma NameFitsWidth(names: seq<string>, i: nat)
    requires |names| >= 1 && i < |names|
    ensures |names[i]| + SPACING <= FieldWidth(Grid(names))
  {
    var k := SliceLength(|names|);
    DivModParts(i, k);
    GridShowsName(names, i);
    CellFitsField(Grid(names), Row(i, k), Column(i, k));
  }

  /** No cell of a grid is longer than the cell max_by picks. */
  lemma CellFitsField(grid: seq<seq<Option<string>>>, r: nat, c: nat)
    requires r < |grid| && c < |grid[r]|
    ensures CellLength(grid[r][c]) + SPACING <= FieldWidth(grid)
  {
    var x := grid[r][c];
    ConcatMembership(grid, x);
    MaxCellBound(Concat(grid), x);
  }

  /** The field width is the length of the longest name plus 15. */
  lemma FieldWidthIsLongestName(names: seq<string>)
    requires |names| >= 1
    ensures forall i :: 0 <= i < |names| ==> |names[i]| + SPACING <= FieldWidth(Grid(names))
    ensures exists i :: 0 <= i < |names| && |names[i]| + SPACING == FieldWidth(Grid(names))
  {
    forall i | 0 <= i < |names|
      ensures |names[i]| + SPACING <= FieldWidth(Grid(names))
    {
      NameFitsWidth(names, i);
    }
    LongestCellIsName(names);
    var j :| 0 <= j < |names| && MaxBy(Concat(Grid(names)), CellLength).value == Some(names[j]);
    assert |names[j]| + SPACING == FieldWidth(Grid(names));
  }

  /** Piece i of s when s is cut into pieces of the given size; "" past
      the end. */
  function Cut(s: string, i: nat, size: nat): string
  {
    assert (i + 1) * size == i * size + size;
    if (i + 1) * size <= |s| then s[i * size .. (i + 1) * size] else ""
  }

  lemma CutAppendLeft(a: string, b: string, i: nat, size: nat)
    requires (i + 1) * size <= |a|
    ensures Cut(a + b, i, size) == Cut(a, i, size)
  {
    assert (i + 1) * size == i * size + size;
    assert (a + b)[i * size .. (i + 1) * size] == a[i * size .. (i + 1) * size];
  }

  lemma CutAppendRight(a: string, b: string, i: nat, size: nat)
    requires i * size == |a| && |b| == size
    ensures Cut(a + b, i, size) == b
  {
    assert (i + 1) * size == i * size + size;
    assert (a + b)[i * size .. (i + 1) * size] == b;
  }

  /** Piece c of a text of n pieces is unchanged by what follows it. */
  lemma CutBefore(a: string, b: string, n: nat, c: nat, size: nat)
    requires |a| == n * size && c < n
    ensures Cut(a + b, c, size) == Cut(a, c, size)
  {
    MulMonotone(c + 1, n, size);
    CutAppendLeft(a, b, c, size);
  }

  /** Piece c of n pieces followed by one more: an earlier piece is
      unchanged and piece n is the one appended. */
  lemma CutOfAppended(prefix: string, last: string, n: nat, c: nat, size: nat, piece: string)
    requires |prefix| == n * size && |last| == size && c <= n
    requires c < n ==> Cut(prefix, c, size) == piece
    requires c == n ==> last == piece
    ensures Cut(prefix + last, c, size) == piece
  {
    if c < n {
      CutBefore(prefix, last, n, c, size);
    } else {
      CutAppendRight(prefix, last, n, size);
    }
  }

  /** Row rendering: |row| fields of exactly the width, field c being cell c
      left-justified (a nil cell is a full run of blanks, not skipped). */
  lemma {:induction false} RenderCellsAt(row: seq<Option<string>>, width: nat)
    requires forall c :: 0 <= c < |row| ==> CellLength(row[c]) <= width
    ensures |RenderCells(row, width)| == |row| * width
    ensures forall c :: 0 <= c < |row| ==>
      Cut(RenderCells(row, width), c, width) == LJust(CellText(row[c]), width)
  {
    if row != [] {
      var n := |row| - 1;
      var init := row[..n];
      var prefix := RenderCells(init, width);
      var last := LJust(CellText(row[n]), width);
      RenderCellsAt(init, width);
      assert RenderCells(row, width) == prefix + last;
      assert |prefix| == n * width;
      assert |last| == width;
      MulSucc(n, width);
      assert |row| * width == n * width + width;
      forall c | 0 <= c < |row|
        ensures Cut(prefix + last, c, width) == LJust(CellText(row[c]), width)
      {
        if c < n {
          assert init[c] == row[c];
        }
        CutOfAppended(prefix, last, n, c, width, LJust(CellText(row[c]), width));
      }
    }
  }

  /** A printed row is its fields followed by "\n". */
  lemma RenderRowAt(row: seq<Option<string>>, width: nat)
    requires forall c :: 0 <= c < |row| ==> CellLength(row[c]) <= width
    ensures |RenderRow(row, width)| == |row| * width + 1
    ensures RenderRow(row, width)[|row| * width] == '\n'
    ensures forall c :: 0 <= c < |row| ==>
      Cut(RenderRow(row, width), c, width) == LJust(CellText(row[c]), width)
  {
    var cells := RenderCells(row, width);
    assert RenderRow(row, width) == cells + "\n";
    RenderCellsAt(row, width);
    forall c | 0 <= c < |row|
      ensures Cut(cells + "\n", c, width) == LJust(CellText(row[c]), width)
    {
      RowFieldAt(row, width, c);
    }
  }

  lemma RowFieldAt(row: seq<Option<string>>, width: nat, c: nat)
    requires forall c :: 0 <= c < |row| ==> CellLength(row[c]) <= width
    requires c < |row|
    ensures Cut(RenderCells(row, width) + "\n", c, width) == LJust(CellText(row[c]), width)
  {
    RenderCellsAt(row, width);
    MulMonotone(c + 1, |row|, width);
    CutAppendLeft(RenderCells(row, width), "\n", c, width);
  }

  /** Grid rendering: row r of the grid is printed as line r. */
  lemma {:induction false} RenderGridAt(grid: seq<seq<Option<string>>>, width: nat, line: nat)
    requires forall r :: 0 <= r < |grid| ==> |RenderRow(grid[r], width)| == line
    ensures |RenderGrid(grid, width)| == |grid| * line
    ensures forall r :: 0 <= r < |grid| ==> Cut(RenderGrid(grid, width), r, line) == RenderRow(grid[r], width)
  {
    if grid != [] {
      var n := |grid| - 1;
      var init := grid[..n];
      var prefix := RenderGrid(init, width);
      var last := RenderRow(grid[n], width);
      RenderGridAt(init, width, line);
      assert RenderGrid(grid, width) == prefix + last;
      assert |prefix| == n * line;
      MulSucc(n, line);
      assert |grid| * line == n * line + line;
      CutAppendRight(prefix, last, n, line);
      forall r | 0 <= r < |grid|
        ensures Cut(RenderGrid(grid, width), r, line) == RenderRow(grid[r], width)
      {
        if r < n {
          CutBefore(prefix, last, n, r, line);
          assert init[r] == grid[r];
        }
      }
    }
  }

  /** The field width of the short listing. */
  function Width(names: seq<string>): nat
    requires |names| >= 1
  {
    FieldWidth(Grid(names))
  }

  /** The length of every printed line: one field per column, then "\n". */
  function LineLength(names: seq<string>): nat
    requires |names| >= 1
  {
    MulMonotone(0, |Layout(names)|, Width(names));
    |Layout(names)| * Width(names) + 1
  }

  /** Every cell of the grid fits in the field width. */
  lemma CellsFitWidth(names: seq<string>, r: nat)
    requires |names| >= 1 && r < SliceLength(|names|)
    ensures |Grid(names)| == SliceLength(|names|) && |Grid(names)[r]| == |Layout(names)|
    ensures forall c :: 0 <= c < |Layout(names)| ==> CellLength(Grid(names)[r][c]) < Width(names)
  {
    forall c | 0 <= c < |Layout(names)|
      ensures CellLength(Grid(names)[r][c]) < Width(names)
    {
      GridAt(names, r, c);
      LayoutCell(names, c, r);
      var i := c * SliceLength(|names|) + r;
      if i < |names| {
        NameFitsWidth(names, i);
      }
    }
  }

  /** Line r of the short listing is row r of the grid, rendered. */
  lemma ShortListingLines(names: seq<string>)
    requires |names| >= 1
    ensures |ShortListing(names)| == SliceLength(|names|) * LineLength(names)
    ensures forall r :: 0 <= r < SliceLength(|names|) ==>
      Cut(ShortListing(names), r, LineLength(names)) == RenderRow(Grid(names)[r], Width(names))
  {
    var grid, w := Grid(names), Width(names);
    forall r | 0 <= r < |grid|
      ensures |RenderRow(grid[r], w)| == LineLength(names)
    {
      CellsFitWidth(names, r);
      RenderRowAt(grid[r], w);
    }
    RenderGridAt(grid, w, LineLength(names));
  }

  /** Field c of printed row r shows names[c * rows + r] left-justified to
      the field width, or a full field of blanks past the last name, for
      any field width that every name fits in. */
  lemma RowField(names: seq<string>, r: nat, c: nat, w: nat)
    requires |names| >= 1 && r < SliceLength(|names|) && c < |Layout(names)|
    requires forall i :: 0 <= i < |names| ==> |names[i]| <= w
    ensures |Grid(names)| == SliceLength(|names|)
    ensures var i := Position(c, SliceLength(|names|), r);
      Cut(RenderRow(Grid(names)[r], w), c, w) == if i < |names| then LJust(names[i], w) else Spaces(w)
  {
    var k := SliceLength(|names|);
    GridShape(names);
    var row := Grid(names)[r];
    forall c' | 0 <= c' < |row|
      ensures CellLength(row[c']) <= w
    {
      GridCellFits(names, r, c', w);
    }
    RenderRowAt(row, w);
    GridCellAt(names, r, c);
    if Position(c, k, r) >= |names| {
      assert LJust("", w) == Spaces(w);
    }
  }

  /** Field c of line r of the listing shows names[c * rows + r]
      left-justified to the field width, or a full field of blanks past the
      last name. */
  lemma ShortListingCell(names: seq<string>, r: nat, c: nat)
    requires |names| >= 1 && r < SliceLength(|names|) && c < |Layout(names)|
    ensures Cut(Cut(ShortListing(names), r, LineLength(names)), c, Width(names))
      == var i := Position(c, SliceLength(|names|), r);
         if i < |names| then LJust(names[i], Width(names)) else Spaces(Width(names))
  {
    ShortListingLines(names);
    assert Cut(ShortListing(names), r, LineLength(names)) == RenderRow(Grid(names)[r], Width(names));
    FieldWidthIsLongestName(names);
    RowField(names, r, c, Width(names));
  }

  /** Line r of the short listing ends with "\n". */
  lemma ShortListingLineEnd(names: seq<string>, r: nat)
    requires |names| >= 1 && r < SliceLength(|names|)
    ensures |Cut(ShortListing(names), r, LineLength(names))| == LineLength(names)
    ensures EndsWith(Cut(ShortListing(names), r, LineLength(names)), '\n')
  {
    ShortListingLines(names);
    CellsFitWidth(names, r);
    RenderRowAt(Grid(names)[r], Width(names));
  }
}
