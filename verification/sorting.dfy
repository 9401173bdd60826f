// A stable sort by a comparison, as the library sorts are used.
module Sorting {
  // A strict order in which incomparable elements are interchangeable.
  ghost predicate WeakOrder<T(!new)>(before: (T, T) -> bool) {
    && (forall x, y :: before(x, y) ==> !before(y, x))
    && (forall x, y, z :: !before(y, x) && !before(z, y) ==> !before(z, x))
  }

  ghost predicate Ordered<T>(before: (T, T) -> bool, list: seq<T>) {
    forall i, j :: 0 <= i < j < |list| ==> !before(list[j], list[i])
  }

  function Insert<T>(before: (T, T) -> bool, x: T, sorted: seq<T>): seq<T> {
    if sorted == [] || before(x, sorted[0]) then [x] + sorted
    else [sorted[0]] + Insert(before, x, sorted[1..])
  }

  function Sort<T>(before: (T, T) -> bool, list: seq<T>): seq<T> {
    if list == [] then [] else Insert(before, list[|list| - 1], Sort(before, list[..|list| - 1]))
  }

  lemma {:induction false} InsertMembers<T>(before: (T, T) -> bool, x: T, sorted: seq<T>)
    ensures multiset(Insert(before, x, sorted)) == multiset(sorted) + multiset{x}
  {
    if sorted != [] {
      assert sorted == [sorted[0]] + sorted[1..];
      if !before(x, sorted[0]) {
        InsertMembers(before, x, sorted[1..]);
      }
    }
  }

  lemma MemberOfInsert<T>(before: (T, T) -> bool, x: T, sorted: seq<T>, y: T)
    requires y in Insert(before, x, sorted)
    ensures y == x || y in sorted
  {
    InsertMembers(before, x, sorted);
    assert y in multiset(Insert(before, x, sorted));
  }

  lemma {:induction false} InsertOrders<T(!new)>(before: (T, T) -> bool, x: T, sorted: seq<T>)
    requires WeakOrder(before) && Ordered(before, sorted)
    ensures Ordered(before, Insert(before, x, sorted))
  {
    if sorted == [] {
    } else if before(x, sorted[0]) {
      forall j | 0 <= j < |sorted| ensures !before(sorted[j], x) {
        assert !before(sorted[0], x);
        assert j == 0 || !before(sorted[j], sorted[0]);
      }
    } else {
      InsertOrders(before, x, sorted[1..]);
      var rest := Insert(before, x, sorted[1..]);
      forall j | 0 <= j < |rest| ensures !before(rest[j], sorted[0]) {
        MemberOfInsert(before, x, sorted[1..], rest[j]);
      }
    }
  }

  // Sorting orders the list and keeps its elements.
  lemma {:induction false} SortMeaning<T(!new)>(before: (T, T) -> bool, list: seq<T>)
    requires WeakOrder(before)
    ensures Ordered(before, Sort(before, list)) && multiset(Sort(before, list)) == multiset(list)
  {
    if list != [] {
      var init := list[..|list| - 1];
      SortMeaning(before, init);
      InsertOrders(before, list[|list| - 1], Sort(before, init));
      InsertMembers(before, list[|list| - 1], Sort(before, init));
      assert list == init + [list[|list| - 1]];
    }
  }

  // ---- stability ----

  predicate Tie<T>(before: (T, T) -> bool, x: T, y: T) {
    !before(x, y) && !before(y, x)
  }

  function IfTied<T>(before: (T, T) -> bool, x: T, y: T): seq<T> {
    if Tie(before, x, y) then [y] else []
  }

  // The elements that the order does not tell from x, as they come.
  function Tied<T>(before: (T, T) -> bool, x: T, list: seq<T>): seq<T> {
    if list == [] then [] else IfTied(before, x, list[0]) + Tied(before, x, list[1..])
  }

  lemma TiedFirst<T>(before: (T, T) -> bool, x: T, first: T, list: seq<T>)
    ensures Tied(before, x, [first] + list) == IfTied(before, x, first) + Tied(before, x, list)
  {
    assert ([first] + list)[1..] == list;
  }

  lemma {:induction false} TiedOneMore<T>(before: (T, T) -> bool, x: T, list: seq<T>, y: T)
    ensures Tied(before, x, list + [y]) == Tied(before, x, list) + IfTied(before, x, y)
  {
    if list == [] {
      assert list + [y] == [y];
    } else {
      var first := list[0];
      assert list + [y] == [first] + (list[1..] + [y]);
      TiedOneMore(before, x, list[1..], y);
      TiedFirst(before, x, first, list[1..] + [y]);
    }
  }

  lemma {:induction false} NoneTied<T>(before: (T, T) -> bool, x: T, list: seq<T>)
    requires forall i :: 0 <= i < |list| ==> !Tie(before, x, list[i])
    ensures Tied(before, x, list) == []
  {
    if list != [] {
      NoneTied(before, x, list[1..]);
    }
  }

  // An element tied with one that goes before the first goes before it, too.
  lemma TiedGoesFirst<T(!new)>(before: (T, T) -> bool, x: T, y: T, first: T, tied: T)
    requires WeakOrder(before) && before(y, first) && Tie(before, x, y) && Tie(before, x, tied)
    ensures before(tied, first)
  {
    assert !before(y, tied);
  }

  // They are those that the order puts neither before x nor behind it.
  lemma TiedMeaning<T>(before: (T, T) -> bool, x: T, list: seq<T>, y: T)
    ensures Tied(before, x, []) == []
    ensures Tied(before, x, list + [y])
         == if before(x, y) || before(y, x) then Tied(before, x, list) else Tied(before, x, list) + [y]
  {
    TiedOneMore(before, x, list, y);
  }

  lemma {:induction false} InsertIsStable<T(!new)>(before: (T, T) -> bool, x: T, y: T, sorted: seq<T>)
    requires WeakOrder(before) && Ordered(before, sorted)
    ensures Tied(before, x, Insert(before, y, sorted))
         == Tied(before, x, sorted) + IfTied(before, x, y)
  {
    if sorted == [] {
    } else if before(y, sorted[0]) {
      assert ([y] + sorted)[1..] == sorted;
      if Tie(before, x, y) {
        forall i | 0 <= i < |sorted| ensures !Tie(before, x, sorted[i]) {
          assert !before(sorted[i], sorted[0]);
          if Tie(before, x, sorted[i]) {
            TiedGoesFirst(before, x, y, sorted[0], sorted[i]);
          }
        }
        NoneTied(before, x, sorted);
      }
    } else {
      InsertIsStable(before, x, y, sorted[1..]);
      assert ([sorted[0]] + Insert(before, y, sorted[1..]))[1..] == Insert(before, y, sorted[1..]);
    }
  }

  // Elements that the order does not tell apart stay in the order of the list.
  lemma {:induction false} SortIsStable<T(!new)>(before: (T, T) -> bool, x: T, list: seq<T>)
    requires WeakOrder(before)
    ensures Tied(before, x, Sort(before, list)) == Tied(before, x, list)
  {
    if list != [] {
      var init, last := list[..|list| - 1], list[|list| - 1];
      SortIsStable(before, x, init);
      SortMeaning(before, init);
      InsertIsStable(before, x, last, Sort(before, init));
      TiedOneMore(before, x, init, last);
      assert list == init + [last];
    }
  }

  // ---- members ----

  lemma SameMembers<T>(a: seq<T>, b: seq<T>)
    requires multiset(a) == multiset(b)
    ensures |a| == |b| && forall x :: x in a <==> x in b
  {
    assert |multiset(a)| == |a| && |multiset(b)| == |b|;
    forall x ensures x in a <==> x in b {
      assert x in multiset(a) <==> x in multiset(b);
    }
  }

  ghost predicate Distinct<T>(list: seq<T>) {
    forall i, j :: 0 <= i < j < |list| ==> list[i] != list[j]
  }

  lemma {:induction false} CountInDistinct<T>(list: seq<T>, x: T)
    requires Distinct(list)
    ensures multiset(list)[x] == if x in list then 1 else 0
  {
    if list != [] {
      CountInDistinct(list[1..], x);
      assert list == [list[0]] + list[1..];
    }
  }

  lemma CountAtTwo<T>(list: seq<T>, i: nat, j: nat)
    requires i < j < |list| && list[i] == list[j]
    ensures multiset(list)[list[i]] >= 2
  {
    assert list == list[..j] + list[j..];
    assert list[..j][i] == list[i] && list[j..][0] == list[i];
    assert list[i] in multiset(list[..j]) && list[i] in multiset(list[j..]);
  }

  // A permutation of a list without repetitions has none.
  lemma DistinctPermutation<T>(a: seq<T>, b: seq<T>)
    requires multiset(a) == multiset(b) && Distinct(a)
    ensures Distinct(b)
  {
    forall i, j | 0 <= i < j < |b| ensures b[i] != b[j] {
      CountInDistinct(a, b[i]);
      if b[i] == b[j] {
        CountAtTwo(b, i, j);
      }
    }
  }

  // Lists without repetitions and with the same members are permutations.
  lemma SameMembersPermute<T>(a: seq<T>, b: seq<T>)
    requires Distinct(a) && Distinct(b) && forall x :: x in a <==> x in b
    ensures multiset(a) == multiset(b)
  {
    forall x ensures multiset(a)[x] == multiset(b)[x] {
      CountInDistinct(a, x);
      CountInDistinct(b, x);
    }
  }
}
