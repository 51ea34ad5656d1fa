/**
 * The order `std::string` uses for `operator<`, and the sorted, duplicate-free
 * list that `std::sort` followed by `std::unique` leaves behind. Dafny's own
 * `<` on sequences is "proper prefix", so the string order is written out.
 */
module Lexicographic {

  /** `a` comes before `b`: a proper prefix, or smaller at the first difference. */
  predicate Less(a: string, b: string) {
    if a == [] then b != []
    else if b == [] then false
    else if a[0] != b[0] then a[0] < b[0]
    else Less(a[1..], b[1..])
  }

  lemma {:induction false} LessIrreflexive(a: string)
    ensures !Less(a, a)
  {
    if a != [] {
      LessIrreflexive(a[1..]);
    }
  }

  lemma {:induction false} LessTransitive(a: string, b: string, c: string)
    requires Less(a, b) && Less(b, c)
    ensures Less(a, c)
  {
    if a != [] && b != [] && c != [] && a[0] == b[0] && b[0] == c[0] {
      LessTransitive(a[1..], b[1..], c[1..]);
    }
  }

  /** Any two different strings are ordered one way. */
  lemma {:induction false} LessTotal(a: string, b: string)
    requires a != b
    ensures Less(a, b) || Less(b, a)
  {
    if a != [] && b != [] && a[0] == b[0] {
      assert a == [a[0]] + a[1..] && b == [b[0]] + b[1..];
      LessTotal(a[1..], b[1..]);
    }
  }

  lemma {:induction false} LessAsymmetric(a: string, b: string)
    requires Less(a, b)
    ensures !Less(b, a)
  {
    if Less(b, a) {
      LessTransitive(a, b, a);
      LessIrreflexive(a);
    }
  }

  /** Every element is strictly before every later one: sorted and duplicate-free. */
  predicate StrictlySorted(s: seq<string>) {
    forall i, j :: 0 <= i < j < |s| ==> Less(s[i], s[j])
  }

  /** `x` put into its place in a strictly sorted list, unless it is already there. */
  function Insert(x: string, s: seq<string>): (r: seq<string>)
    requires StrictlySorted(s)
    ensures StrictlySorted(r)
    ensures forall y :: y in r <==> y == x || y in s
  {
    if s == [] then [x]
    else if x == s[0] then s
    else if Less(x, s[0]) then
      forall j | 0 <= j < |s| ensures Less(x, s[j]) {
        if j > 0 { LessTransitive(x, s[0], s[j]); }
      }
      [x] + s
    else
      LessTotal(x, s[0]);
      var rest := Insert(x, s[1..]);
      assert forall y :: y in rest ==> Less(s[0], y) by {
        forall y | y in rest ensures Less(s[0], y) {
          if y != x {
            var j :| 0 <= j < |s[1..]| && s[1..][j] == y;
            assert s[j + 1] == y;
          }
        }
      }
      [s[0]] + rest
  }

  /**
   * The list sorted in string order with duplicates removed: the result of
   * `std::sort` followed by erasing what `std::unique` moved to the end.
   */
  function SortUnique(s: seq<string>): (r: seq<string>)
    ensures StrictlySorted(r)
    ensures forall y :: y in r <==> y in s
  {
    if s == [] then []
    else
      var init := SortUnique(s[..|s| - 1]);
      assert s == s[..|s| - 1] + [s[|s| - 1]];
      Insert(s[|s| - 1], init)
  }

  /** Two strictly sorted lists with the same elements are the same list. */
  lemma {:induction false} StrictlySortedUnique(a: seq<string>, b: seq<string>)
    requires StrictlySorted(a) && StrictlySorted(b)
    requires forall y :: y in a <==> y in b
    ensures a == b
  {
    if a != [] && b != [] {
      HeadsEqual(a, b);
      forall y ensures y in a[1..] ==> y in b[1..] {
        TailElement(a, b, y);
      }
      forall y ensures y in b[1..] ==> y in a[1..] {
        TailElement(b, a, y);
      }
      StrictlySortedUnique(a[1..], b[1..]);
      assert a == [a[0]] + a[1..] && b == [b[0]] + b[1..];
    } else if a != [] {
      NotEmpty(a, b);
    } else if b != [] {
      NotEmpty(b, a);
    }
  }

  lemma NotEmpty(a: seq<string>, b: seq<string>)
    requires a != [] && forall y :: y in a ==> y in b
    ensures b != []
  {
    assert a[0] in a;
  }

  lemma HeadsEqual(a: seq<string>, b: seq<string>)
    requires StrictlySorted(a) && StrictlySorted(b) && a != [] && b != []
    requires forall y :: y in a <==> y in b
    ensures a[0] == b[0]
  {
    if Less(a[0], b[0]) {
      HeadFirst(b, a);
    } else if Less(b[0], a[0]) {
      HeadFirst(a, b);
    } else if a[0] != b[0] {
      LessTotal(a[0], b[0]);
    }
  }

  /** The head of a strictly sorted list is not after any element of it. */
  lemma HeadFirst(a: seq<string>, b: seq<string>)
    requires StrictlySorted(a) && a != [] && b != [] && b[0] in a
    ensures !Less(b[0], a[0])
  {
    var j :| 0 <= j < |a| && a[j] == b[0];
    if j > 0 {
      LessAsymmetric(a[0], a[j]);
    } else {
      LessIrreflexive(a[0]);
    }
  }

  lemma TailElement(a: seq<string>, b: seq<string>, y: string)
    requires StrictlySorted(a) && a != [] && b != [] && a[0] == b[0]
    requires forall z :: z in a <==> z in b
    ensures y in a[1..] ==> y in b[1..]
  {
    if y in a[1..] {
      var i :| 0 <= i < |a[1..]| && a[1..][i] == y;
      assert Less(a[0], a[i + 1]);
      LessIrreflexive(y);
      assert y in b;
      var k :| 0 <= k < |b| && b[k] == y;
      assert k > 0;
      assert b[1..][k - 1] == y;
    }
  }

  /** Sorting a list that is already strictly sorted leaves it unchanged. */
  lemma SortUniqueSorted(s: seq<string>)
    requires StrictlySorted(s)
    ensures SortUnique(s) == s
  {
    StrictlySortedUnique(SortUnique(s), s);
  }

  /** The result depends only on the elements: order and repetition of the input do not matter. */
  lemma SortUniqueSameElements(s: seq<string>, t: seq<string>)
    requires forall y :: y in s <==> y in t
    ensures SortUnique(s) == SortUnique(t)
  {
    StrictlySortedUnique(SortUnique(s), SortUnique(t));
  }
}
