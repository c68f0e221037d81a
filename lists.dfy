/** The List<T> operations the application relies on, over sequences. */
module Lists {

  /** No element occurs twice. */
  predicate NoDuplicates<T(==)>(s: seq<T>)
  {
    forall i, j :: 0 <= i < j < |s| ==> s[i] != s[j]
  }

  /** List<T>.Remove: drops one occurrence of x, if any, and keeps every
      other element. */
  function Remove<T(==)>(s: seq<T>, x: T): (r: seq<T>)
    ensures multiset(r) == multiset(s) - multiset{x}
    ensures x !in s ==> r == s
    ensures x in s ==> |r| == |s| - 1
  {
    if s == [] then []
    else if s[0] == x then
      assert s == [s[0]] + s[1..];
      s[1..]
    else
      assert s == [s[0]] + s[1..];
      [s[0]] + Remove(s[1..], x)
  }

  /** Without duplicates, removing x leaves no x and keeps every other
      element, still without duplicates. */
  lemma {:induction false} RemoveDistinct<T>(s: seq<T>, x: T)
    requires NoDuplicates(s)
    ensures x !in Remove(s, x)
    ensures forall y :: y != x ==> (y in Remove(s, x) <==> y in s)
    ensures NoDuplicates(Remove(s, x))
  {
    if s != [] {
      var tail := s[1..];
      assert NoDuplicates(tail) by {
        forall i, j | 0 <= i < j < |tail| ensures tail[i] != tail[j] {
          assert tail[i] == s[i + 1] && tail[j] == s[j + 1];
        }
      }
      assert s[0] !in tail by {
        forall j | 0 <= j < |tail| ensures tail[j] != s[0] {
          assert tail[j] == s[j + 1];
        }
      }
      RemoveDistinct(tail, x);
      if s[0] != x {
        var r := Remove(s, x);
        assert r == [s[0]] + Remove(tail, x);
        assert s[0] !in Remove(tail, x);
        forall i, j | 0 <= i < j < |r| ensures r[i] != r[j] {
          if i > 0 {
            assert r[i] == Remove(tail, x)[i - 1] && r[j] == Remove(tail, x)[j - 1];
          } else {
            assert r[j] == Remove(tail, x)[j - 1];
          }
        }
      }
    }
  }

  /** Appending an element that is absent keeps a list duplicate-free. */
  lemma NoDuplicatesAppend<T>(s: seq<T>, x: T)
    requires NoDuplicates(s) && x !in s
    ensures NoDuplicates(s + [x])
  {
    forall i, j | 0 <= i < j < |s| + 1 ensures (s + [x])[i] != (s + [x])[j] {
      if j == |s| {
        assert s[i] in s;
      }
    }
  }

  /** Some element satisfies p exactly when an earlier one or the last one does. */
  lemma ExistsSplitLast<T>(s: seq<T>, p: T -> bool)
    requires s != []
    ensures var init := s[..|s| - 1];
            (exists i :: 0 <= i < |s| && p(s[i])) <==>
            (exists i :: 0 <= i < |init| && p(init[i])) || p(s[|s| - 1])
  {
    var init := s[..|s| - 1];
    if exists i :: 0 <= i < |s| && p(s[i]) {
      var i :| 0 <= i < |s| && p(s[i]);
      if i < |s| - 1 {
        assert init[i] == s[i];
      }
    }
    if exists i :: 0 <= i < |init| && p(init[i]) {
      var i :| 0 <= i < |init| && p(init[i]);
      assert s[i] == init[i];
    }
  }
}
