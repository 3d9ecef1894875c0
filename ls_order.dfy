/** The order in which `ls` lists names: Array#sort under String#<=>
    (character codes compared left to right, a proper prefix first),
    optionally followed by Array#reverse! in place. */
module LsOrder {
  import opened Ruby

  /** String#<=> gives a non-positive answer: a sorts no later than b. */
  predicate LessEq(a: string, b: string)
    decreases |a|
  {
    a == [] || (b != [] && (a[0] < b[0] || (a[0] == b[0] && LessEq(a[1..], b[1..]))))
  }

  lemma {:induction false} LessEqTotal(a: string, b: string)
    ensures LessEq(a, b) || LessEq(b, a)
    decreases |a|
  {
    if a != [] && b != [] && a[0] == b[0] {
      LessEqTotal(a[1..], b[1..]);
    }
  }

  lemma {:induction false} LessEqReflexive(a: string)
    ensures LessEq(a, a)
    decreases |a|
  {
    if a != [] {
      LessEqReflexive(a[1..]);
    }
  }

  lemma {:induction false} LessEqTransitive(a: string, b: string, c: string)
    requires LessEq(a, b) && LessEq(b, c)
    ensures LessEq(a, c)
    decreases |a|
  {
    if a != [] && a[0] == b[0] && b[0] == c[0] {
      LessEqTransitive(a[1..], b[1..], c[1..]);
    }
  }

  lemma {:induction false} LessEqAntisymmetric(a: string, b: string)
    requires LessEq(a, b) && LessEq(b, a)
    ensures a == b
    decreases |a|
  {
    if a != [] {
      LessEqAntisymmetric(a[1..], b[1..]);
      assert a == [a[0]] + a[1..] && b == [b[0]] + b[1..];
    }
  }

  predicate Ascending(s: seq<string>)
  {
    forall i, j :: 0 <= i < j < |s| ==> LessEq(s[i], s[j])
  }

  predicate Descending(s: seq<string>)
  {
    forall i, j :: 0 <= i < j < |s| ==> LessEq(s[j], s[i])
  }

  /** Places x in front of the first element it sorts no later than. */
  function Insert(x: string, s: seq<string>): seq<string>
  {
    if s == [] || LessEq(x, s[0]) then [x] + s else [s[0]] + Insert(x, s[1..])
  }

  lemma {:induction false} InsertPermutes(x: string, s: seq<string>)
    ensures multiset(Insert(x, s)) == multiset(s) + multiset{x}
  {
    if s != [] && !LessEq(x, s[0]) {
      InsertPermutes(x, s[1..]);
      assert s == [s[0]] + s[1..];
    }
  }

  lemma {:induction false} InsertAscending(x: string, s: seq<string>)
    requires Ascending(s)
    ensures Ascending(Insert(x, s))
  {
    var r := Insert(x, s);
    if s == [] {
    } else if LessEq(x, s[0]) {
      forall j | 1 <= j < |r|
        ensures LessEq(r[0], r[j])
      {
        if j > 1 {
          LessEqTransitive(x, s[0], s[j - 1]);
        }
      }
    } else {
      var t := Insert(x, s[1..]);
      InsertAscending(x, s[1..]);
      InsertPermutes(x, s[1..]);
      LessEqTotal(x, s[0]);
      forall j | 0 <= j < |t|
        ensures LessEq(s[0], t[j])
      {
        assert t[j] in multiset(t);
        assert t[j] in multiset(s[1..]) || t[j] == x;
        if t[j] != x {
          var k :| 0 <= k < |s[1..]| && s[1..][k] == t[j];
          assert s[k + 1] == t[j];
        }
      }
      assert r == [s[0]] + t;
    }
  }

  /** Array#sort: an ascending permutation of the names. */
  function Sort(s: seq<string>): (r: seq<string>)
    ensures Ascending(r)
    ensures multiset(r) == multiset(s)
    ensures |r| == |s|
  {
    if s == [] then []
    else
      var rest := Sort(s[1..]);
      InsertAscending(s[0], rest);
      InsertPermutes(s[0], rest);
      assert s == [s[0]] + s[1..];
      Insert(s[0], rest)
  }

  /** An ascending permutation is unique: whatever sorting algorithm Ruby
      uses, its result is Sort(s). */
  lemma AscendingPermutationIsSort(s: seq<string>, t: seq<string>)
    requires Ascending(t) && multiset(t) == multiset(s)
    ensures t == Sort(s)
  {
    AscendingUnique(t, Sort(s));
  }

  lemma {:induction false} AscendingUnique(t: seq<string>, u: seq<string>)
    requires Ascending(t) && Ascending(u) && multiset(t) == multiset(u)
    ensures t == u
    decreases |t|
  {
    assert |t| == |multiset(t)| == |multiset(u)| == |u|;
    if |t| > 0 {
      HeadsAgree(t, u);
      AscendingTail(t);
      AscendingTail(u);
      MultisetTail(t);
      MultisetTail(u);
      AscendingUnique(t[1..], u[1..]);
      assert t == [t[0]] + t[1..] && u == [u[0]] + u[1..];
    }
  }

  lemma AscendingTail(t: seq<string>)
    requires Ascending(t) && |t| > 0
    ensures Ascending(t[1..])
  {
    forall i, j | 0 <= i < j < |t| - 1
      ensures LessEq(t[1..][i], t[1..][j])
    {
      assert t[1..][i] == t[i + 1] && t[1..][j] == t[j + 1];
    }
  }

  lemma MultisetTail(t: seq<string>)
    requires |t| > 0
    ensures multiset(t[1..]) == multiset(t) - multiset{t[0]}
  {
    assert t == [t[0]] + t[1..];
  }

  lemma HeadsAgree(t: seq<string>, u: seq<string>)
    requires Ascending(t) && Ascending(u) && multiset(t) == multiset(u)
    requires |t| > 0 && |u| > 0
    ensures t[0] == u[0]
  {
    assert t[0] in multiset(u) && u[0] in multiset(t);
    var i :| 0 <= i < |u| && u[i] == t[0];
    var j :| 0 <= j < |t| && t[j] == u[0];
    assert LessEq(u[0], t[0]) by { if i > 0 { assert LessEq(u[0], u[i]); } else { LessEqReflexive(t[0]); } }
    assert LessEq(t[0], u[0]) by { if j > 0 { assert LessEq(t[0], t[j]); } else { LessEqReflexive(t[0]); } }
    LessEqAntisymmetric(t[0], u[0]);
  }

  /** @elements after `main`'s ordering step: sorted ascending, then
      reversed with `reverse!` when -r is given. */
  function Ordered(names: seq<string>, reverse: bool): seq<string>
  {
    var sorted := Sort(names);
    if reverse then Reverse(sorted) else sorted
  }

  /** Without -r the listing ascends; with -r it descends; either way it is a
      permutation of the directory's names. */
  lemma OrderedIsSortedPermutation(names: seq<string>, reverse: bool)
    ensures multiset(Ordered(names, reverse)) == multiset(names)
    ensures !reverse ==> Ascending(Ordered(names, reverse))
    ensures reverse ==> Descending(Ordered(names, reverse))
  {
    ReversePermutes(Sort(names));
  }

  /** The -r listing is exactly the ascending listing read backwards, and
      reversing it once more restores the ascending listing. */
  lemma ReverseListing(names: seq<string>)
    ensures |Ordered(names, true)| == |Ordered(names, false)|
    ensures forall i :: 0 <= i < |names| ==>
      Ordered(names, true)[i] == Ordered(names, false)[|names| - 1 - i]
    ensures Reverse(Ordered(names, true)) == Ordered(names, false)
  {
    var sorted := Sort(names);
    assert |sorted| == |multiset(sorted)| == |multiset(names)| == |names|;
    ReverseReverse(sorted);
  }

  /** Directory entries are distinct, so the -r listing is strictly
      descending: "b" never appears next to another "b". */
  lemma ReverseListingStrict(names: seq<string>)
    requires forall i, j :: 0 <= i < j < |names| ==> names[i] != names[j]
    ensures forall i, j :: 0 <= i < j < |names| ==>
      LessEq(Ordered(names, true)[j], Ordered(names, true)[i]) &&
      Ordered(names, true)[i] != Ordered(names, true)[j]
  {
    var r := Ordered(names, true);
    OrderedIsSortedPermutation(names, true);
    assert |r| == |multiset(r)| == |multiset(names)| == |names|;
    forall i, j | 0 <= i < j < |names|
      ensures r[i] != r[j]
    {
      AtMostOnce(names, r[i]);
      RepeatCountsTwice(r, i, j);
    }
  }

  lemma RepeatCountsTwice(r: seq<string>, i: nat, j: nat)
    requires i < j < |r|
    ensures r[i] == r[j] ==> multiset(r)[r[i]] >= 2
  {
    assert r == r[..j] + r[j..];
    assert r[i] in multiset(r[..j]) && r[j] in multiset(r[j..]);
  }

  lemma {:induction false} AtMostOnce(s: seq<string>, x: string)
    requires forall i, j :: 0 <= i < j < |s| ==> s[i] != s[j]
    ensures multiset(s)[x] <= 1
  {
    if s != [] {
      AtMostOnce(s[1..], x);
      assert s == [s[0]] + s[1..];
      if s[0] == x {
        assert x !in s[1..];
      }
    }
  }
}
