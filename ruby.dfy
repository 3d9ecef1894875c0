/** The pieces of Ruby's core library that the two scripts lean on:
    nil-or-value lookups, Integer#to_s, Integer#digits, String#to_i on
    digit strings, String#ljust / String#rjust, Array#reverse,
    Array#take and one-level Array#flatten. Compact, StripLeadingSpaces
    and EndsWith are not calls the scripts make: they only serve to state
    properties of the model. */
module Ruby {

  /** A value that may be nil. */
  datatype Option<T> = None | Some(value: T)

  function Max(a: nat, b: nat): nat
  {
    if a < b then b else a
  }

  /** A run of n blanks. */
  function Spaces(n: nat): (r: string)
    ensures |r| == n
    ensures forall i :: 0 <= i < n ==> r[i] == ' '
  {
    seq(n, _ => ' ')
  }

  /** String#ljust(width): s, then blanks up to width; never truncates. */
  function LJust(s: string, width: nat): (r: string)
    ensures |r| == Max(|s|, width)
    ensures r[..|s|] == s
    ensures forall i :: |s| <= i < |r| ==> r[i] == ' '
  {
    if |s| < width then s + Spaces(width - |s|) else s
  }

  /** String#rjust(width): blanks up to width, then s; never truncates. */
  function RJust(s: string, width: nat): (r: string)
    ensures |r| == Max(|s|, width)
    ensures r[|r| - |s|..] == s
    ensures forall i :: 0 <= i < |r| - |s| ==> r[i] == ' '
  {
    if |s| < width then Spaces(width - |s|) + s else s
  }

  /** The sequence is non-empty and its last element is x. */
  predicate EndsWith<T(==)>(s: seq<T>, x: T)
  {
    |s| > 0 && s[|s| - 1] == x
  }

  /** Leading blanks removed (like String#lstrip restricted to ' '); used
      only to state how a padded count field reads back. */
  function StripLeadingSpaces(s: string): string
  {
    if s != [] && s[0] == ' ' then StripLeadingSpaces(s[1..]) else s
  }

  predicate IsDigitChar(c: char)
  {
    '0' <= c <= '9'
  }

  predicate IsDigitString(s: string)
  {
    forall i :: 0 <= i < |s| ==> IsDigitChar(s[i])
  }

  function DigitChar(d: nat): (c: char)
    requires d < 10
    ensures IsDigitChar(c)
  {
    ('0' as int + d) as char
  }

  function DigitValue(c: char): (d: nat)
    requires IsDigitChar(c)
    ensures d < 10 && DigitChar(d) == c
  {
    c as int - '0' as int
  }

  lemma DigitValueOfChar(d: nat)
    requires d < 10
    ensures DigitValue(DigitChar(d)) == d
  {
  }

  /** Integer#to_s(base) for a base between 2 and 10: the numeral of n,
      most significant digit first, "0" for zero and no leading zeros. */
  function ToS(n: nat, base: nat): (r: string)
    requires 2 <= base <= 10
    ensures |r| >= 1
    ensures forall i :: 0 <= i < |r| ==> IsDigitChar(r[i]) && DigitValue(r[i]) < base
    ensures |r| > 1 ==> r[0] != '0'
    ensures n < base <==> |r| == 1
  {
    if n < base then [DigitChar(n)]
    else
      QuotientFacts(n, base);
      ToS(n / base, base) + [DigitChar(n % base)]
  }

  /** Dividing a number that is at least the base leaves a smaller,
      positive quotient and a remainder below the base. */
  lemma QuotientFacts(n: nat, base: nat)
    requires 2 <= base <= n
    ensures 1 <= n / base < n && n % base < base
  {
    var q := n / base;
    if q == 0 {
      assert false;
    }
    MulMonotone(2, base, q);
  }

  lemma MulMonotone(a: nat, b: nat, k: nat)
    ensures a <= b ==> a * k <= b * k
  {
    if a <= b {
      assert b * k == a * k + (b - a) * k;
    }
  }

  /** Quotient and remainder are the only pair with i == c * k + r and
      r < k. */
  lemma DivModUnique(i: nat, k: nat, c: nat, r: nat)
    requires k >= 1 && r < k && i == c * k + r
    ensures i / k == c && i % k == r
  {
    var q := i / k;
    assert i == q * k + i % k;
    MulMonotone(q + 1, c, k);
    MulMonotone(c + 1, q, k);
    assert (q + 1) * k == q * k + k;
    assert (c + 1) * k == c * k + k;
  }

  /** String#to_i on a string of decimal digits. */
  function DecimalValue(s: string): nat
    requires IsDigitString(s)
  {
    if s == [] then 0 else DecimalValue(s[..|s| - 1]) * 10 + DigitValue(s[|s| - 1])
  }

  /** Reading the decimal numeral of n back with String#to_i gives n:
      Integer#to_s never loses a digit. */
  lemma {:induction false} DecimalRoundTrip(n: nat)
    ensures DecimalValue(ToS(n, 10)) == n
  {
    if n >= 10 {
      var s := ToS(n, 10);
      assert s[..|s| - 1] == ToS(n / 10, 10);
      DecimalRoundTrip(n / 10);
    }
  }

  /** Integer#to_s(base) splits off the last digit: the numeral of n is the
      numeral of n / base followed by the digit n % base. */
  lemma ToSLast(n: nat, base: nat)
    requires 2 <= base <= 10 && n >= base
    ensures ToS(n, base) == ToS(n / base, base) + [DigitChar(n % base)]
  {
  }

  /** A larger number never has a shorter decimal numeral, so
      right-justifying every value to the width of the largest one never
      truncates. */
  lemma {:induction false} ToSLengthMonotone(a: nat, b: nat)
    requires a <= b
    ensures |ToS(a, 10)| <= |ToS(b, 10)|
  {
    if a >= 10 {
      ToSLast(a, 10);
      ToSLast(b, 10);
      ToSLengthMonotone(a / 10, b / 10);
    }
  }

  /** Integer#digits: the decimal digits of n, least significant first. */
  function Digits(n: nat): (r: seq<nat>)
    ensures |r| >= 1
    ensures forall i :: 0 <= i < |r| ==> r[i] < 10
  {
    if n < 10 then [n] else [n % 10] + Digits(n / 10)
  }

  /** The number a list of decimal digits stands for, least significant
      digit first: the sum of r[i] * 10^i. */
  function FromDigits(r: seq<nat>): nat
  {
    if r == [] then 0 else r[0] + 10 * FromDigits(r[1..])
  }

  /** Integer#digits loses nothing: the digits stand for n, and the most
      significant one is zero only for n == 0. */
  lemma {:induction false} DigitsRoundTrip(n: nat)
    ensures FromDigits(Digits(n)) == n
    ensures Digits(n)[|Digits(n)| - 1] == 0 <==> n == 0
  {
    if n >= 10 {
      var q, d := n / 10, n % 10;
      QuotientFacts(n, 10);
      var r, rest := Digits(n), Digits(q);
      assert r == [d] + rest;
      DigitsRoundTrip(q);
      assert r[1..] == rest;
      assert FromDigits(r) == d + 10 * q == n;
      assert r[|r| - 1] == rest[|rest| - 1] != 0;
    }
  }

  /** Integer#digits peels off the last decimal digit. */
  lemma DigitsStep(v: nat, d: nat)
    requires v >= 1 && d < 10
    ensures Digits(v * 10 + d) == [d] + Digits(v)
  {
    var x := v * 10 + d;
    assert x / 10 == v && x % 10 == d;
  }

  /** Array#take */
  function Take<T>(s: seq<T>, k: nat): (r: seq<T>)
    ensures |r| == if k <= |s| then k else |s|
    ensures r == s[..|r|]
  {
    if k <= |s| then s[..k] else s
  }

  /** Array#reverse */
  function Reverse<T>(s: seq<T>): (r: seq<T>)
    ensures |r| == |s|
    ensures forall i :: 0 <= i < |s| ==> r[i] == s[|s| - 1 - i]
  {
    if s == [] then [] else Reverse(s[1..]) + [s[0]]
  }

  /** Reversing twice restores the sequence. */
  lemma ReverseReverse<T>(s: seq<T>)
    ensures Reverse(Reverse(s)) == s
  {
    assert forall i :: 0 <= i < |s| ==> Reverse(Reverse(s))[i] == s[i];
  }

  /** Reversal keeps every element and its multiplicity. */
  lemma {:induction false} ReversePermutes<T>(s: seq<T>)
    ensures multiset(Reverse(s)) == multiset(s)
  {
    if s != [] {
      ReversePermutes(s[1..]);
      assert s == [s[0]] + s[1..];
    }
  }

  /** Array#flatten on an array of arrays. */
  function Concat<T>(m: seq<seq<T>>): seq<T>
  {
    if m == [] then [] else Concat(m[..|m| - 1]) + m[|m| - 1]
  }

  lemma {:induction false} ConcatAppend<T>(a: seq<seq<T>>, b: seq<seq<T>>)
    ensures Concat(a + b) == Concat(a) + Concat(b)
  {
    if b != [] {
      assert (a + b)[..|a + b| - 1] == a + b[..|b| - 1];
      ConcatAppend(a, b[..|b| - 1]);
      assert (a + b)[|a + b| - 1] == b[|b| - 1];
    } else {
      assert a + b == a;
    }
  }

  /** Flattening a row in front of other rows. */
  lemma ConcatCons<T>(x: seq<T>, m: seq<seq<T>>)
    ensures Concat([x] + m) == x + Concat(m)
  {
    ConcatAppend([x], m);
    assert [x][..0] == [];
    assert Concat([x]) == [] + x;
  }

  /** Cutting a sequence in two and joining the halves gives it back. */
  lemma SplitJoin<T>(s: seq<T>, k: nat)
    requires k <= |s|
    ensures s[..k] + s[k..] == s
  {
  }

  /** An element of the flattened array is an element of one of the rows. */
  lemma {:induction false} ConcatMembership<T>(m: seq<seq<T>>, x: T)
    ensures x in Concat(m) <==> exists r :: 0 <= r < |m| && x in m[r]
  {
    if m != [] {
      var init, last := m[..|m| - 1], m[|m| - 1];
      ConcatMembership(init, x);
      assert Concat(m) == Concat(init) + last;
      if x in Concat(m) {
        if x in Concat(init) {
          var r :| 0 <= r < |init| && x in init[r];
          assert m[r] == init[r];
        } else {
          assert x in m[|m| - 1];
        }
      }
      if exists r :: 0 <= r < |m| && x in m[r] {
        var r :| 0 <= r < |m| && x in m[r];
        if r < |init| {
          assert x in init[r];
        }
      }
    }
  }

  /** What printing f(x) for every x of xs, in order, prints. */
  function JoinMap<T>(xs: seq<T>, f: T -> string): string
  {
    if xs == [] then "" else JoinMap(xs[..|xs| - 1], f) + f(xs[|xs| - 1])
  }

  /** Printing the parts of a sequence one after the other prints the same
      as printing the whole. */
  lemma {:induction false} JoinMapAppend<T>(a: seq<T>, b: seq<T>, f: T -> string)
    ensures JoinMap(a + b, f) == JoinMap(a, f) + JoinMap(b, f)
  {
    if b == [] {
      assert a + b == a;
    } else {
      assert (a + b)[..|a + b| - 1] == a + b[..|b| - 1];
      assert (a + b)[|a + b| - 1] == b[|b| - 1];
      JoinMapAppend(a, b[..|b| - 1], f);
    }
  }

  /** The non-nil entries, in order (like Array#compact); used only to
      state that the padded columns hold exactly the names. */
  function Compact<T>(s: seq<Option<T>>): seq<T>
  {
    if s == [] then []
    else (match s[0] case Some(v) => [v] case None => []) + Compact(s[1..])
  }

  /** Enumerable#max_by: the first element whose key is the greatest; nil
      for an empty array. */
  function MaxBy<T>(s: seq<T>, key: T -> nat): (r: Option<T>)
    ensures r.None? <==> s == []
    ensures r.Some? ==> forall i :: 0 <= i < |s| ==> key(s[i]) <= key(r.value)
    ensures r.Some? ==>
      exists i :: 0 <= i < |s| && s[i] == r.value && (forall j :: 0 <= j < i ==> key(s[j]) < key(r.value))
  {
    if s == [] then None
    else match MaxBy(s[1..], key)
      case None => Some(s[0])
      case Some(m) =>
        if key(m) > key(s[0]) then
          assert forall i :: 1 <= i < |s| ==> s[i] == s[1..][i - 1];
          Some(m)
        else Some(s[0])
  }
}
