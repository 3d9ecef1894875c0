/** The `ls` script: an object holding the ordered directory entries
    (@elements), filled by `main` from the directory listing and the
    options, then printed either as the short grid or as the long listing.
    Everything it prints is collected into the `out` of a Run. */
module Ls {
  import opened Ruby
  import opened LsOrder
  import opened LsGrid
  import opened LsLong

  /** The switches of ARGV.getopts('arl'). */
  datatype Options = Options(all: bool, reverse: bool, long: bool)

  /** A name Dir.glob('*') skips without File::FNM_DOTMATCH. */
  predicate Hidden(name: string)
  {
    |name| > 0 && name[0] == '.'
  }

  /** The names with the hidden ones removed, in order. */
  function VisibleOnly(entries: seq<string>): seq<string>
  {
    if entries == [] then []
    else
      var last := entries[|entries| - 1];
      VisibleOnly(entries[..|entries| - 1]) + (if Hidden(last) then [] else [last])
  }

  /** Dir.glob('*') over `entries`: every entry with -a (File::FNM_DOTMATCH),
      otherwise only the names not starting with '.'. */
  function Glob(entries: seq<string>, all: bool): seq<string>
  {
    if all then entries else VisibleOnly(entries)
  }

  /** Without -a a name is listed as often as it occurs if it does not start
      with '.', and never if it does. */
  lemma {:induction false} VisibleOnlyCounts(entries: seq<string>)
    ensures forall x :: multiset(VisibleOnly(entries))[x] == if Hidden(x) then 0 else multiset(entries)[x]
  {
    if entries != [] {
      var init, last := entries[..|entries| - 1], entries[|entries| - 1];
      VisibleOnlyCounts(init);
      assert entries == init + [last];
    }
  }

  /** The names a run prints, in the order it prints them. */
  function Names(entries: seq<string>, options: Options): seq<string>
  {
    Ordered(Glob(entries, options.all), options.reverse)
  }

  /** What `show_ls` does: prints the grid, or raises on an empty directory
      because each_slice(0) is invalid. */
  function ShortRun(names: seq<string>): Run
  {
    if names == [] then Run("", Some(InvalidSliceSize)) else Run(ShortListing(names), None)
  }

  /** What one run of the script prints. */
  function Listing(entries: seq<string>, options: Options, stat: string -> Stat): Run
  {
    var names := Names(entries, options);
    if options.long then LongListing(names, stat) else ShortRun(names)
  }

  /** The listing does not depend on the order in which the directory
      yields its entries: any rearrangement gives the same output. */
  lemma ListingIgnoresReadOrder(entries: seq<string>, other: seq<string>, options: Options, stat: string -> Stat)
    requires multiset(entries) == multiset(other)
    ensures Names(entries, options) == Names(other, options)
    ensures Listing(entries, options, stat) == Listing(other, options, stat)
  {
    var a, b := Glob(entries, options.all), Glob(other, options.all);
    if !options.all {
      VisibleOnlyCounts(entries);
      VisibleOnlyCounts(other);
      assert multiset(a) == multiset(b);
    }
    AscendingPermutationIsSort(b, Sort(a));
  }

  /** A name makes it into the listing exactly when the directory has it
      and either -a is given or it does not start with '.'. */
  lemma ListedNames(entries: seq<string>, options: Options, x: string)
    ensures x in Names(entries, options) <==> x in entries && (options.all || !Hidden(x))
  {
    var found := Glob(entries, options.all);
    OrderedIsSortedPermutation(found, options.reverse);
    assert x in Names(entries, options) <==> x in multiset(Names(entries, options));
    if !options.all {
      VisibleOnlyCounts(entries);
      assert x in found <==> x in multiset(found);
    }
  }

  /** A run prints everything exactly when the listing is not empty and, for
      -l, every listed entry's mode has its permission digits. */
  lemma ListingSucceeds(entries: seq<string>, options: Options, stat: string -> Stat)
    ensures Listing(entries, options, stat).failure.None? <==>
      Names(entries, options) != [] &&
      (options.long ==> forall x :: x in Names(entries, options) ==> stat(x).mode >= 64)
  {
    var names := Names(entries, options);
    if options.long {
      assert Listing(entries, options, stat) == LongListing(names, stat);
      LongListingSucceeds(names, stat);
    } else {
      assert Listing(entries, options, stat) == ShortRun(names);
    }
  }

  /** -r lists the same total as the plain long listing. */
  lemma ReverseKeepsTotal(entries: seq<string>, options: Options, stat: string -> Stat)
    ensures TotalLine(Names(entries, options.(reverse := true)), stat) ==
      TotalLine(Names(entries, options.(reverse := false)), stat)
  {
    TotalBlocksReverse(Sort(Glob(entries, options.all)), stat);
  }

  /** The script's Ls object. */
  class Lister {
    /** @elements: the ordered names to list. */
    var elements: seq<string>

    constructor()
      ensures elements == []
    {
      elements := [];
    }

    /** The ordering step of `main`: the globbed names sorted, then
        reversed in place with -r. */
    method Collect(entries: seq<string>, options: Options)
      modifies this
      ensures elements == Names(entries, options)
    {
      elements := Sort(Glob(entries, options.all));
      if options.reverse {
        elements := Reverse(elements);
      }
    }

    /** `list_of_elements`: the elements cut into slices of ceil(n / 3);
        after each slice is pushed, every list is padded with nil to the
        largest size so far. None where each_slice(0) raises, that is, for
        an empty directory. */
    method ListOfElements() returns (lists: Option<seq<seq<Option<string>>>>)
      ensures lists.None? <==> elements == []
      ensures elements != [] ==> lists == Some(Layout(elements))
    {
      var columns := SliceLength(|elements|);
      if columns == 0 {
        return None;
      }
      var slices := EachSlice(elements, columns);
      SliceSizes(elements);
      var acc: seq<seq<Option<string>>> := [];
      var i := 0;
      while i < |slices|
        invariant 0 <= i <= |slices|
        invariant |acc| == i
        invariant forall c :: 0 <= c < i ==> acc[c] == ValuesAt(Wrap(slices[c]), columns)
      {
        acc := acc + [Wrap(slices[i])];
        if i == 0 {
          assert acc[0] == Wrap(slices[0]);
        } else {
          assert acc[0] == ValuesAt(Wrap(slices[0]), columns);
        }
        MaxSizeIs(acc, columns);
        var maxSize := MaxSize(acc);
        var padded := PadAll(acc, maxSize);
        forall c | 0 <= c < i + 1
          ensures padded[c] == ValuesAt(Wrap(slices[c]), columns)
        {
          if c < i {
            ValuesAtFull(acc[c], columns);
          }
        }
        acc := padded;
        i := i + 1;
      }
      assert acc == Layout(elements);
      return Some(acc);
    }

    /** `show_ls` */
    method ShowLs() returns (r: Run)
      ensures r == ShortRun(elements)
    {
      var layout := ListOfElements();
      if layout.None? {
        return Run("", Some(InvalidSliceSize));
      }
      var rows := Transpose(layout.value);
      assert rows == Grid(elements);
      var width := FieldWidth(rows);
      var out := PrintRows(rows, width);
      return Run(out, None);
    }

    /** The outer loop of `show_ls`: every row printed, then "\n". */
    method PrintRows(rows: seq<seq<Option<string>>>, width: nat) returns (out: string)
      ensures out == RenderGrid(rows, width)
    {
      out := "";
      var i := 0;
      while i < |rows|
        invariant 0 <= i <= |rows|
        invariant out == RenderGrid(rows[..i], width)
      {
        var row := rows[i];
        var cells := PrintCells(row, width);
        var line := cells + "\n";
        assert line == RenderRow(row, width);
        assert rows[..i + 1][..i] == rows[..i];
        assert RenderGrid(rows[..i + 1], width) == RenderGrid(rows[..i], width) + line;
        out := out + line;
        i := i + 1;
      }
      assert rows[..i] == rows;
    }

    /** The inner loop of `show_ls`: every cell of one row printed
        left-justified to the width. */
    method PrintCells(row: seq<Option<string>>, width: nat) returns (out: string)
      ensures out == RenderCells(row, width)
    {
      out := "";
      var j := 0;
      while j < |row|
        invariant 0 <= j <= |row|
        invariant out == RenderCells(row[..j], width)
      {
        assert row[..j + 1][..j] == row[..j];
        out := out + LJust(CellText(row[j]), width);
        j := j + 1;
      }
      assert row[..j] == row;
    }

    /** `show_element_details`: the column widths, then one line per
        element, stopping at the first one that raises. */
    method ShowElementDetails(stat: string -> Stat) returns (r: Run)
      ensures r == ElementDetails(elements, stat)
    {
      if elements == [] {
        return Run("", Some(StatOfNil));
      }
      var linkWidth := LinkWidth(elements, stat);
      var sizeWidth := SizeWidth(elements, stat);
      var out := "";
      var i := 0;
      while i < |elements|
        invariant 0 <= i <= |elements|
        invariant DetailLines(elements[..i], stat, linkWidth, sizeWidth) == Run(out, None)
      {
        DetailLinesStep(elements, i, stat, linkWidth, sizeWidth);
        var line := DetailLine(elements[i], stat(elements[i]), linkWidth, sizeWidth);
        out := out + line.out;
        if line.failure.Some? {
          DetailLinesStop(elements, i + 1, stat, linkWidth, sizeWidth);
          return Run(out, line.failure);
        }
        i := i + 1;
      }
      assert elements[..i] == elements;
      return Run(out, None);
    }

    /** `main`: order the entries, then print the long or the short
        listing. */
    method Execute(entries: seq<string>, options: Options, stat: string -> Stat) returns (r: Run)
      modifies this
      ensures elements == Names(entries, options)
      ensures r == Listing(entries, options, stat)
    {
      Collect(entries, options);
      if options.long {
        var details := ShowElementDetails(stat);
        r := Then(TotalLine(elements, stat), details);
      } else {
        r := ShowLs();
      }
    }
  }

  /** Once the lines of the first i names printed without a failure, the
      next name adds its own line. */
  lemma DetailLinesStep(names: seq<string>, i: nat, stat: string -> Stat, lw: nat, sw: nat)
    requires i < |names| && DetailLines(names[..i], stat, lw, sw).failure.None?
    ensures DetailLines(names[..i + 1], stat, lw, sw) ==
      Then(DetailLines(names[..i], stat, lw, sw).out, DetailLine(names[i], stat(names[i]), lw, sw))
  {
    assert names[..i + 1][..i] == names[..i];
  }

  /** Once a prefix of the names has raised, the later names print nothing
      more. */
  lemma {:induction false} DetailLinesStop(names: seq<string>, n: nat, stat: string -> Stat, lw: nat, sw: nat)
    requires n <= |names| && DetailLines(names[..n], stat, lw, sw).failure.Some?
    ensures DetailLines(names, stat, lw, sw) == DetailLines(names[..n], stat, lw, sw)
    decreases |names| - n
  {
    if n < |names| {
      var longer := names[..|names| - 1];
      assert longer[..n] == names[..n];
      DetailLinesStop(longer, n, stat, lw, sw);
    } else {
      assert names[..n] == names;
    }
  }
}
