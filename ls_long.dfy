/** The long `ls -l` listing: a "total" line with the sum of the entries'
    blocks, then one line per entry with its type, its permission string,
    its right-justified link count, owner, group, right-justified size,
    modification time and name. The facts the operating system reports
    about an entry arrive as a Stat record. */
module LsLong {
  import opened Ruby

  /** What File.stat, Etc.getpwuid(uid).name, Etc.getgrgid(gid).name and
      File.mtime(name).strftime('%b %e %H:%M') report about one entry. */
  datatype Stat = Stat(
    ftype: string,
    mode: nat,
    nlink: nat,
    owner: string,
    group: string,
    size: nat,
    blocks: nat,
    mtime: string)

  /** The exception that stops `ls` before it has printed everything. */
  datatype Failure =
    | InvalidSliceSize    // each_slice(0) in the short listing of an empty directory
    | StatOfNil           // File.stat(nil) after max_by on an empty directory
    | NilPermissionLabel  // a nil PERMISSION_LABELS entry in the permission concatenation

  /** What was printed, and the exception that ended the run, if any. */
  datatype Run = Run(out: string, failure: Option<Failure>)

  /** `text` printed, then whatever `rest` prints. */
  function Then(text: string, rest: Run): Run
  {
    Run(text + rest.out, rest.failure)
  }

  const FILE_TYPE_LABELS: map<string, string> := map["directory" := "d", "file" := "-", "link" := "l"]

  /** `print FILE_TYPE_LABELS[stat.ftype]`: an unknown type looks up nil,
      which prints nothing. */
  function TypeLabel(ftype: string): string
  {
    if ftype in FILE_TYPE_LABELS then FILE_TYPE_LABELS[ftype] else ""
  }

  /** A directory prints "d", a regular file "-" and a symbolic link "l";
      any other type prints nothing. */
  lemma TypeLabelOfType(ftype: string)
    ensures ftype == "directory" ==> TypeLabel(ftype) == "d"
    ensures ftype == "file" ==> TypeLabel(ftype) == "-"
    ensures ftype == "link" ==> TypeLabel(ftype) == "l"
    ensures ftype != "directory" && ftype != "file" && ftype != "link" ==> TypeLabel(ftype) == ""
    ensures |TypeLabel(ftype)| <= 1
  {
  }

  const PERMISSION_LABELS: map<nat, string> := map[
    0 := "---",
    1 := "--x",
    2 := "-w-",
    3 := "-wx",
    4 := "r--",
    5 := "r-x",
    6 := "rw-",
    7 := "rwx"]

  /** The usual rwx rendering of three permission bits: read (4), write (2)
      and execute (1), each shown as its letter when set and '-' otherwise. */
  function Triad(d: nat): string
  {
    [if (d / 4) % 2 == 1 then 'r' else '-',
     if (d / 2) % 2 == 1 then 'w' else '-',
     if d % 2 == 1 then 'x' else '-']
  }

  /** PERMISSION_LABELS maps every octal digit to its rwx triad: 'r' at
      position 0 iff bit 4 is set, 'w' at 1 iff bit 2, 'x' at 2 iff bit 1,
      and it has no entry for any other key. */
  lemma PermissionLabelsAreTriads(d: nat)
    ensures d in PERMISSION_LABELS <==> d < 8
    ensures d < 8 ==> PERMISSION_LABELS[d] == Triad(d) && |PERMISSION_LABELS[d]| == 3
  {
  }

  /** `stat.mode.to_s(8).to_i.digits.take(3).reverse`: the octal numeral of
      the mode, read back as a decimal number, its last three decimal digits
      in reading order. */
  function PermissionDigits(mode: nat): seq<nat>
  {
    Reverse(Take(Digits(DecimalValue(ToS(mode, 8))), 3))
  }

  /** Reading an octal numeral as decimal never gives less than the number. */
  lemma {:induction false} OctalReadAsDecimal(n: nat)
    ensures DecimalValue(ToS(n, 8)) >= n
  {
    if n >= 8 {
      var s := ToS(n, 8);
      assert s[..|s| - 1] == ToS(n / 8, 8);
      OctalReadAsDecimal(n / 8);
    }
  }

  /** Appending a digit to a decimal numeral multiplies its value by ten
      and adds the digit. */
  lemma DecimalSnoc(front: string, d: nat)
    requires IsDigitString(front) && d < 10
    ensures IsDigitString(front + [DigitChar(d)])
    ensures DecimalValue(front + [DigitChar(d)]) == DecimalValue(front) * 10 + d
  {
    var s := front + [DigitChar(d)];
    assert s[..|s| - 1] == front;
    DigitValueOfChar(d);
  }

  /** The decimal digits of a numeral with one more digit appended: that
      digit first, then the digits of the numeral. */
  lemma DigitsOfSnoc(front: string, d: nat)
    requires IsDigitString(front) && d < 10 && DecimalValue(front) >= 1
    ensures Digits(DecimalValue(front + [DigitChar(d)])) == [d] + Digits(DecimalValue(front))
  {
    DecimalSnoc(front, d);
    DigitsStep(DecimalValue(front), d);
  }

  /** The decimal digits of the octal numeral read as decimal are the octal
      digits of n: first n % 8, then those of n / 8. */
  lemma OctalDigitsStep(n: nat)
    requires n >= 8
    ensures Digits(DecimalValue(ToS(n, 8))) == [n % 8] + Digits(DecimalValue(ToS(n / 8, 8)))
  {
    var front, d := ToS(n / 8, 8), n % 8;
    ToSLast(n, 8);
    QuotientFacts(n, 8);
    OctalReadAsDecimal(n / 8);
    DigitsOfSnoc(front, d);
  }

  /** The octal digits of n, least significant first. */
  function OctalDigits(n: nat): (r: seq<nat>)
    ensures |r| >= 1 && r[0] == n % 8
    ensures n < 8 <==> |r| == 1
  {
    if n < 8 then [n] else [n % 8] + OctalDigits(n / 8)
  }

  /** `to_s(8).to_i.digits` gives back the octal digits. */
  lemma {:induction false} OctalAsDecimalDigits(n: nat)
    ensures Digits(DecimalValue(ToS(n, 8))) == OctalDigits(n)
  {
    if n >= 8 {
      OctalDigitsStep(n);
      OctalAsDecimalDigits(n / 8);
    }
  }

  /** The permission digits are the last three octal digits of the mode
      (the owner, group and other bits) once the mode has at least three
      octal digits; a shorter mode yields fewer than three digits. */
  lemma PermissionDigitsOfMode(mode: nat)
    ensures mode >= 64 ==> PermissionDigits(mode) == [(mode / 64) % 8, (mode / 8) % 8, mode % 8]
    ensures mode < 64 ==> |PermissionDigits(mode)| < 3
  {
    OctalAsDecimalDigits(mode);
    var o := OctalDigits(mode);
    if mode >= 64 {
      assert mode / 8 / 8 == mode / 64;
      var rest := OctalDigits(mode / 64);
      assert o == [mode % 8] + ([(mode / 8) % 8] + rest);
      var t := Take(o, 3);
      assert t == [mode % 8, (mode / 8) % 8, (mode / 64) % 8];
      var r := Reverse(t);
      assert r[0] == t[2] && r[1] == t[1] && r[2] == t[0];
    } else if mode >= 8 {
      assert o == [mode % 8] + OctalDigits(mode / 8);
    }
  }

  /** The nine permission characters, or None where Ruby raises because a
      label lookup gave nil (it does for a mode below 0o100). */
  function PermissionString(mode: nat): Option<string>
  {
    var p := PermissionDigits(mode);
    if |p| == 3 && p[0] in PERMISSION_LABELS && p[1] in PERMISSION_LABELS && p[2] in PERMISSION_LABELS
    then Some(PERMISSION_LABELS[p[0]] + PERMISSION_LABELS[p[1]] + PERMISSION_LABELS[p[2]])
    else None
  }

  /** The permission string exists exactly when the mode has three octal
      digits, and then it is the owner, group and other triads: nine
      characters, position 3 * g + j showing bit j of group g. */
  lemma PermissionStringOfMode(mode: nat)
    ensures PermissionString(mode).Some? <==> mode >= 64
    ensures mode >= 64 ==>
      PermissionString(mode).value == Triad((mode / 64) % 8) + Triad((mode / 8) % 8) + Triad(mode % 8)
    ensures mode >= 64 ==> |PermissionString(mode).value| == 9
  {
    PermissionDigitsOfMode(mode);
    PermissionLabelsAreTriads((mode / 64) % 8);
    PermissionLabelsAreTriads((mode / 8) % 8);
    PermissionLabelsAreTriads(mode % 8);
  }

  /** Only the low nine bits matter: the file type, setuid, setgid and sticky
      bits above them never change the permission string. */
  lemma PermissionIgnoresHighBits(mode: nat, other: nat)
    requires mode >= 64 && other >= 64 && mode % 512 == other % 512
    ensures PermissionString(mode) == PermissionString(other)
  {
    PermissionStringOfMode(mode);
    PermissionStringOfMode(other);
    LowDigits(mode);
    LowDigits(other);
  }

  lemma LowDigits(mode: nat)
    ensures (mode / 64) % 8 == (mode % 512) / 64
    ensures (mode / 8) % 8 == ((mode % 512) / 8) % 8
    ensures mode % 8 == (mode % 512) % 8
  {
    var q, r := mode / 512, mode % 512;
    assert mode == q * 512 + r;
    var r64, r8 := r / 64, r / 8;
    assert r == r64 * 64 + r % 64 && r64 < 8;
    assert r == r8 * 8 + r % 8;
    DivModUnique(mode, 64, q * 8 + r64, r % 64);
    DivModUnique(q * 8 + r64, 8, q, r64);
    DivModUnique(mode, 8, q * 64 + r8, r % 8);
    assert r8 == (r8 / 8) * 8 + r8 % 8;
    DivModUnique(q * 64 + r8, 8, q * 8 + r8 / 8, r8 % 8);
  }

  /** Any mode whose low nine bits are 0o755 (a regular file 0o100755, a
      directory 0o40755) shows "rwxr-xr-x". */
  lemma ExecutablePermission(mode: nat)
    requires mode >= 64 && mode % 512 == 493
    ensures PermissionString(mode) == Some("rwxr-xr-x")
  {
    LowDigits(mode);
    assert (mode / 64) % 8 == 7 && (mode / 8) % 8 == 5 && mode % 8 == 5;
    PermissionStringOfMode(mode);
    Triads755();
  }

  /** Any mode whose low nine bits are 0o644 shows "rw-r--r--". */
  lemma ReadablePermission(mode: nat)
    requires mode >= 64 && mode % 512 == 420
    ensures PermissionString(mode) == Some("rw-r--r--")
  {
    LowDigits(mode);
    assert (mode / 64) % 8 == 6 && (mode / 8) % 8 == 4 && mode % 8 == 4;
    PermissionStringOfMode(mode);
    Triads644();
  }

  lemma Triads755()
    ensures Triad(7) + Triad(5) + Triad(5) == "rwxr-xr-x"
  {
  }

  lemma Triads644()
    ensures Triad(6) + Triad(4) + Triad(4) == "rw-r--r--"
  {
  }

  /** The max_by keys: an entry's link count and its size. */
  function LinkCount(stat: string -> Stat): string -> nat
  {
    (name: string) => stat(name).nlink
  }

  function ByteSize(stat: string -> Stat): string -> nat
  {
    (name: string) => stat(name).size
  }

  /** `max_nlink_digits`: the digit count of the link count of the entry
      max_by picks as having the most links. */
  function LinkWidth(names: seq<string>, stat: string -> Stat): nat
    requires names != []
  {
    |ToS(stat(MaxBy(names, LinkCount(stat)).value).nlink, 10)|
  }

  /** `max_size_digits`: the same for the size. */
  function SizeWidth(names: seq<string>, stat: string -> Stat): nat
    requires names != []
  {
    |ToS(stat(MaxBy(names, ByteSize(stat)).value).size, 10)|
  }

  /** Every entry's link count and size, right-justified to the widths,
      come out exactly that wide: the widest value has the most digits, so
      nothing is truncated and the columns line up. */
  lemma FieldsAligned(names: seq<string>, stat: string -> Stat, i: nat)
    requires i < |names|
    ensures |RJust(ToS(stat(names[i]).nlink, 10), LinkWidth(names, stat))| == LinkWidth(names, stat)
    ensures |RJust(ToS(stat(names[i]).size, 10), SizeWidth(names, stat))| == SizeWidth(names, stat)
  {
    var links := LinkCount(stat);
    var sizes := ByteSize(stat);
    assert links(names[i]) <= links(MaxBy(names, links).value);
    assert sizes(names[i]) <= sizes(MaxBy(names, sizes).value);
    ToSLengthMonotone(stat(names[i]).nlink, stat(MaxBy(names, links).value).nlink);
    ToSLengthMonotone(stat(names[i]).size, stat(MaxBy(names, sizes).value).size);
  }

  /** The widths are those of the largest link count and the largest size. */
  lemma WidthsOfLargest(names: seq<string>, stat: string -> Stat)
    requires names != []
    ensures exists i :: (0 <= i < |names| && LinkWidth(names, stat) == |ToS(stat(names[i]).nlink, 10)| &&
      forall j :: 0 <= j < |names| ==> stat(names[j]).nlink <= stat(names[i]).nlink)
    ensures exists i :: (0 <= i < |names| && SizeWidth(names, stat) == |ToS(stat(names[i]).size, 10)| &&
      forall j :: 0 <= j < |names| ==> stat(names[j]).size <= stat(names[i]).size)
  {
    var links := LinkCount(stat);
    var sizes := ByteSize(stat);
    var a :| 0 <= a < |names| && names[a] == MaxBy(names, links).value;
    forall j | 0 <= j < |names|
      ensures stat(names[j]).nlink <= stat(names[a]).nlink
    {
      assert links(names[j]) <= links(MaxBy(names, links).value);
    }
    var b :| 0 <= b < |names| && names[b] == MaxBy(names, sizes).value;
    forall j | 0 <= j < |names|
      ensures stat(names[j]).size <= stat(names[b]).size
    {
      assert sizes(names[j]) <= sizes(MaxBy(names, sizes).value);
    }
  }

  /** One line of `show_element_details`. The type label is printed before
      the permission string is built, so it is all that shows when that
      fails. */
  function DetailLine(name: string, st: Stat, linkWidth: nat, sizeWidth: nat): Run
  {
    var typeLabel := TypeLabel(st.ftype);
    match PermissionString(st.mode)
    case None => Run(typeLabel, Some(NilPermissionLabel))
    case Some(permission) => Run(typeLabel + permission + Columns(st, linkWidth, sizeWidth) + (" " + name + "\n"), None)
  }

  /** The part of a detail line between the permission string and the
      name: link count, owner, group, size and modification time. */
  function Columns(st: Stat, linkWidth: nat, sizeWidth: nat): string
  {
    "  " + RJust(ToS(st.nlink, 10), linkWidth) + " " + st.owner + "  " + st.group + "  " +
    RJust(ToS(st.size, 10), sizeWidth) + " " + st.mtime
  }

  /** A detail line raises exactly when the mode has fewer than three octal
      digits, and it has printed only the type label by then. */
  lemma DetailLineFails(name: string, st: Stat, lw: nat, sw: nat)
    ensures DetailLine(name, st, lw, sw).failure.Some? <==> st.mode < 64
    ensures st.mode < 64 ==> DetailLine(name, st, lw, sw) == Run(TypeLabel(st.ftype), Some(NilPermissionLabel))
  {
    PermissionStringOfMode(st.mode);
  }

  /** The detail lines of the names in order, stopping at the first one
      that raises. */
  function DetailLines(names: seq<string>, stat: string -> Stat, linkWidth: nat, sizeWidth: nat): Run
  {
    if names == [] then Run("", None)
    else
      var before := DetailLines(names[..|names| - 1], stat, linkWidth, sizeWidth);
      if before.failure.Some? then before
      else Then(before.out, DetailLine(names[|names| - 1], stat(names[|names| - 1]), linkWidth, sizeWidth))
  }

  /** `show_element_details`: on an empty directory max_by gives nil and
      File.stat(nil) raises before anything is printed. */
  function ElementDetails(names: seq<string>, stat: string -> Stat): Run
  {
    if names == [] then Run("", Some(StatOfNil))
    else DetailLines(names, stat, LinkWidth(names, stat), SizeWidth(names, stat))
  }

  /** `blocks.sum` */
  function TotalBlocks(names: seq<string>, stat: string -> Stat): nat
  {
    if names == [] then 0 else TotalBlocks(names[..|names| - 1], stat) + stat(names[|names| - 1]).blocks
  }

  /** `show_total_blocks` */
  function TotalLine(names: seq<string>, stat: string -> Stat): string
  {
    "total " + ToS(TotalBlocks(names, stat), 10) + "\n"
  }

  /** What `ls -l` prints. */
  function LongListing(names: seq<string>, stat: string -> Stat): Run
  {
    Then(TotalLine(names, stat), ElementDetails(names, stat))
  }

  lemma {:induction false} TotalBlocksAppend(a: seq<string>, b: seq<string>, stat: string -> Stat)
    ensures TotalBlocks(a + b, stat) == TotalBlocks(a, stat) + TotalBlocks(b, stat)
  {
    if b == [] {
      assert a + b == a;
    } else {
      assert (a + b)[..|a + b| - 1] == a + b[..|b| - 1];
      TotalBlocksAppend(a, b[..|b| - 1], stat);
    }
  }

  /** The total does not depend on the order, so -r prints the same total. */
  lemma {:induction false} TotalBlocksReverse(names: seq<string>, stat: string -> Stat)
    ensures TotalBlocks(Reverse(names), stat) == TotalBlocks(names, stat)
  {
    if names != [] {
      TotalBlocksReverse(names[1..], stat);
      TotalBlocksAppend(Reverse(names[1..]), [names[0]], stat);
      TotalBlocksAppend([names[0]], names[1..], stat);
      assert names == [names[0]] + names[1..];
      assert TotalBlocks([names[0]], stat) == stat(names[0]).blocks by {
        assert [names[0]][..0] == [];
      }
    }
  }

  /** The detail lines print completely exactly when every mode has its
      three octal permission digits; otherwise they stop at the first entry
      whose mode is too short. */
  lemma {:induction false} DetailLinesSucceed(names: seq<string>, stat: string -> Stat, lw: nat, sw: nat)
    ensures DetailLines(names, stat, lw, sw).failure.None? <==>
      forall i :: 0 <= i < |names| ==> stat(names[i]).mode >= 64
  {
    if names != [] {
      var init := names[..|names| - 1];
      DetailLinesSucceed(init, stat, lw, sw);
      DetailLineFails(names[|names| - 1], stat(names[|names| - 1]), lw, sw);
      var before := DetailLines(init, stat, lw, sw);
      var last := DetailLine(names[|names| - 1], stat(names[|names| - 1]), lw, sw);
      assert DetailLines(names, stat, lw, sw).failure == if before.failure.Some? then before.failure else last.failure;
      if before.failure.Some? {
        var k :| 0 <= k < |init| && stat(init[k]).mode < 64;
        assert names[k] == init[k];
      } else if last.failure.None? {
        forall i | 0 <= i < |names|
          ensures stat(names[i]).mode >= 64
        {
          if i < |init| {
            assert names[i] == init[i];
          } else {
            assert i == |names| - 1;
          }
        }
      }
    }
  }

  /** `ls -l` runs to the end exactly when the directory is not empty and
      every entry's mode has its permission digits. */
  lemma LongListingSucceeds(names: seq<string>, stat: string -> Stat)
    ensures LongListing(names, stat).failure.None? <==>
      names != [] && forall i :: 0 <= i < |names| ==> stat(names[i]).mode >= 64
    ensures LongListing(names, stat).failure.None? <==>
      names != [] && forall x :: x in names ==> stat(x).mode >= 64
  {
    if names != [] {
      DetailLinesSucceed(names, stat, LinkWidth(names, stat), SizeWidth(names, stat));
    }
    assert (forall i :: 0 <= i < |names| ==> stat(names[i]).mode >= 64) <==>
      (forall x :: x in names ==> stat(x).mode >= 64);
  }

  /** On an empty directory `ls -l` prints "total 0" and then raises. */
  lemma EmptyLongListing(stat: string -> Stat)
    ensures LongListing([], stat) == Run("total 0\n", Some(StatOfNil))
  {
  }

  /** A line for an entry whose mode has its permission digits starts
      with the type label and the nine permission characters (the triads of
      PermissionStringOfMode) and ends with a blank, the name and "\n". */
  lemma DetailLineShape(name: string, st: Stat, lw: nat, sw: nat)
    requires st.mode >= 64
    ensures DetailLine(name, st, lw, sw).failure.None?
    ensures var line := DetailLine(name, st, lw, sw).out;
      var head := TypeLabel(st.ftype) + PermissionString(st.mode).value;
      |line| >= |head| + |name| + 2 && line[..|head|] == head && line[|line| - |name| - 2..] == " " + name + "\n"
  {
    PermissionStringOfMode(st.mode);
    var head := TypeLabel(st.ftype) + PermissionString(st.mode).value;
    var tail := " " + name + "\n";
    PrefixAndSuffix(head, Columns(st, lw, sw), tail);
  }

  lemma PrefixAndSuffix(a: string, b: string, c: string)
    ensures (a + b + c)[..|a|] == a
    ensures (a + b + c)[|a + b|..] == c
  {
    assert a + b + c == a + (b + c);
  }
}
