/**
 * The LINQ and `List<T>` operations the orchestrator uses on id lists:
 * `Except`, `OrderBy(x => x)`, `IndexOf`, `Skip`, `Last`, and the sorted
 * listing of a set of keys.
 */
module Linq {
  import opened Text

  predicate NoDuplicates<T(==)>(s: seq<T>)
  {
    forall i, j :: 0 <= i < j < |s| ==> s[i] != s[j]
  }

  /** Every element comes before or equals every later one, in the ordinal order. */
  predicate Ascending(s: seq<string>)
  {
    forall i, j :: 0 <= i < j < |s| ==> Below(s[i], s[j])
  }

  /** `Enumerable.Last`; the C# call throws on an empty list, here it is excluded. */
  function Last<T>(s: seq<T>): T
    requires |s| > 0
  {
    s[|s| - 1]
  }

  /**
   * The distinct elements of `first` that are not in `seen`, in the order of
   * their first occurrence.
   */
  function ExceptSeen(first: seq<string>, seen: set<string>): (r: seq<string>)
    ensures NoDuplicates(r)
    ensures forall x :: x in r <==> x in first && x !in seen
  {
    if |first| == 0 then []
    else if first[0] in seen then ExceptSeen(first[1..], seen)
    else [first[0]] + ExceptSeen(first[1..], seen + {first[0]})
  }

  /** `first.Except(second)`: set difference that also drops repeated elements of `first`. */
  function Except(first: seq<string>, second: seq<string>): (r: seq<string>)
    ensures NoDuplicates(r)
    ensures forall x :: x in r <==> x in first && x !in second
  {
    ExceptSeen(first, set x | x in second)
  }

  /** Putting an element below all of an ascending sequence in front keeps it ascending. */
  lemma AscendingCons(y: string, t: seq<string>)
    requires Ascending(t)
    requires forall j :: 0 <= j < |t| ==> Below(y, t[j])
    ensures Ascending([y] + t)
  {
    forall i, j | 0 <= i < j < |t| + 1 ensures Below(([y] + t)[i], ([y] + t)[j]) {
      assert ([y] + t)[j] == t[j - 1];
      if i > 0 {
        assert ([y] + t)[i] == t[i - 1];
      }
    }
  }

  /** Inserts `x` into an ascending sequence before its first element not below `x`. */
  function Insert(x: string, s: seq<string>): (r: seq<string>)
    requires Ascending(s)
    ensures Ascending(r)
    ensures multiset(r) == multiset(s) + multiset{x}
  {
    if |s| == 0 then [x]
    else if Below(x, s[0]) then
      InsertBelowHead(x, s);
      [x] + s
    else
      var t := Insert(x, s[1..]);
      InsertAfterHead(x, s, t);
      [s[0]] + t
  }

  /** The first case of `Insert`: `x` goes in front. */
  lemma InsertBelowHead(x: string, s: seq<string>)
    requires Ascending(s) && |s| > 0 && Below(x, s[0])
    ensures Ascending([x] + s)
  {
    forall j | 0 <= j < |s| ensures Below(x, s[j]) {
      if j > 0 { BelowTransitive(x, s[0], s[j]); }
    }
    AscendingCons(x, s);
  }

  /** The second case of `Insert`: `x` goes into the tail. */
  lemma InsertAfterHead(x: string, s: seq<string>, t: seq<string>)
    requires Ascending(s) && |s| > 0 && !Below(x, s[0])
    requires Ascending(t) && multiset(t) == multiset(s[1..]) + multiset{x}
    ensures Ascending([s[0]] + t)
    ensures multiset([s[0]] + t) == multiset(s) + multiset{x}
  {
    BelowTotal(x, s[0]);
    forall j | 0 <= j < |t| ensures Below(s[0], t[j]) {
      assert t[j] in multiset(t);
      if t[j] != x {
        assert t[j] in s[1..];
      }
    }
    AscendingCons(s[0], t);
    assert s == [s[0]] + s[1..];
  }

  /** A sequence has no duplicates exactly when no element occurs twice in its multiset. */
  lemma {:induction false} NoDuplicatesByCount(s: seq<string>)
    ensures NoDuplicates(s) <==> forall x :: multiset(s)[x] <= 1
  {
    if |s| > 0 {
      NoDuplicatesByCount(s[1..]);
      assert s == [s[0]] + s[1..];
      if NoDuplicates(s) {
        assert NoDuplicates(s[1..]) by {
          forall i, j | 0 <= i < j < |s[1..]| ensures s[1..][i] != s[1..][j] {
            assert s[1..][i] == s[i + 1] && s[1..][j] == s[j + 1];
          }
        }
        assert s[0] !in s[1..] by {
          forall j | 1 <= j < |s| ensures s[j] != s[0] { }
        }
      }
      if forall x :: multiset(s)[x] <= 1 {
        assert forall x :: multiset(s[1..])[x] <= 1 by {
          forall x ensures multiset(s[1..])[x] <= 1 { assert multiset(s)[x] >= multiset(s[1..])[x]; }
        }
        assert s[0] !in multiset(s[1..]) by { assert multiset(s)[s[0]] == multiset(s[1..])[s[0]] + 1; }
        forall i, j | 0 <= i < j < |s| ensures s[i] != s[j] {
          if i == 0 { assert s[j] in s[1..]; } else { assert s[i] == s[1..][i - 1] && s[j] == s[1..][j - 1]; }
        }
      }
    }
  }

  /** `OrderBy(x => x)`: an ascending permutation of `s` (by insertion). */
  function OrderBy(s: seq<string>): (r: seq<string>)
    ensures Ascending(r)
    ensures multiset(r) == multiset(s)
  {
    if |s| == 0 then []
    else
      assert s == [s[0]] + s[1..];
      Insert(s[0], OrderBy(s[1..]))
  }

  /** Sorting keeps the elements and their number, and so a list without duplicates stays so. */
  lemma OrderByKeepsElements(s: seq<string>)
    ensures |OrderBy(s)| == |s|
    ensures forall y :: y in OrderBy(s) <==> y in s
    ensures NoDuplicates(s) ==> NoDuplicates(OrderBy(s))
  {
    var r := OrderBy(s);
    assert |multiset(r)| == |multiset(s)|;
    assert forall y :: y in r <==> y in multiset(r);
    assert forall y :: y in s <==> y in multiset(s);
    NoDuplicatesByCount(s);
    NoDuplicatesByCount(r);
  }

  /** `List.IndexOf`: the first position of `x` in `s`, or -1. */
  function IndexOf<T(==)>(s: seq<T>, x: T): (k: int)
    ensures -1 <= k < |s|
    ensures k == -1 <==> x !in s
    ensures k >= 0 ==> s[k] == x && forall j :: 0 <= j < k ==> s[j] != x
  {
    if |s| == 0 then -1
    else if s[0] == x then 0
    else
      var k := IndexOf(s[1..], x);
      if k < 0 then -1 else k + 1
  }

  /** `Enumerable.Skip(n)`: all but the first `n` elements (all of them when `n <= 0`). */
  function Skip<T>(s: seq<T>, n: int): seq<T>
  {
    if n <= 0 then s else if n >= |s| then [] else s[n..]
  }

  /** The elements of `s` that are not in `drop`, in their order. */
  function Without(s: seq<string>, drop: set<string>): (r: seq<string>)
    ensures forall x :: x in r <==> x in s && x !in drop
    ensures NoDuplicates(s) ==> NoDuplicates(r)
  {
    if |s| == 0 then []
    else if s[0] in drop then Without(s[1..], drop)
    else [s[0]] + Without(s[1..], drop)
  }

  /** The least of a set and one more element is the smaller of its least element and that element. */
  lemma LeastOfOneMore(rest: set<string>, m: string, x: string)
    requires forall y :: y in rest ==> Below(m, y)
    ensures Below(m, x) ==> forall y :: y in rest + {x} ==> Below(m, y)
    ensures !Below(m, x) ==> forall y :: y in rest + {x} ==> Below(x, y)
  {
    BelowTotal(m, x);
    BelowReflexive(x);
    if !Below(m, x) {
      forall y | y in rest ensures Below(x, y) {
        BelowTransitive(x, m, y);
      }
    }
  }

  lemma LeastExists(s: set<string>)
    requires s != {}
    ensures exists m :: m in s && forall y :: y in s ==> Below(m, y)
    decreases |s|
  {
    var x :| x in s;
    var rest := s - {x};
    assert s == rest + {x};
    if rest == {} {
      LeastOfOneMore(rest, x, x);
      BelowReflexive(x);
      assert x in s && forall y :: y in s ==> Below(x, y);
    } else {
      LeastExists(rest);
      var m :| m in rest && forall y :: y in rest ==> Below(m, y);
      LeastOfOneMore(rest, m, x);
      if Below(m, x) {
        assert m in s && forall y :: y in s ==> Below(m, y);
      } else {
        assert x in s && forall y :: y in s ==> Below(x, y);
      }
    }
  }

  /** The least element of a non-empty set of strings. */
  function Least(s: set<string>): (m: string)
    requires s != {}
    ensures m in s && forall y :: y in s ==> Below(m, y)
  {
    LeastExists(s);
    assert forall a, b :: a in s && b in s && Below(a, b) && Below(b, a) ==> a == b by {
      forall a, b | Below(a, b) && Below(b, a) ensures a == b { BelowAntisymmetric(a, b); }
    }
    var m :| m in s && forall y :: y in s ==> Below(m, y);
    m
  }

  /** The elements of a finite set of strings, in ascending order, each once. */
  function OrderedKeys(s: set<string>): (r: seq<string>)
    ensures Ascending(r) && NoDuplicates(r)
    ensures forall x :: x in r <==> x in s
    decreases |s|
  {
    if s == {} then []
    else
      var m := Least(s);
      var rest := OrderedKeys(s - {m});
      assert Ascending([m] + rest) by {
        forall j | 0 <= j < |rest| ensures Below(m, rest[j]) { assert rest[j] in rest; }
      }
      [m] + rest
  }
}
