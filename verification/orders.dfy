// Comparisons, and the order laws of comparing lists element by element.
module Orders {
  import opened Results

  function CompareInt(a: int, b: int): Ordering {
    if a < b then Less else if a == b then Equal else Greater
  }

  // A total order on the values that satisfy `valid`, where only equal values compare equal.
  ghost predicate TotalOrder<T(!new)>(compare: (T, T) -> Ordering, valid: T -> bool) {
    && (forall x, y :: valid(x) && valid(y) ==> compare(x, y) == compare(y, x).Reverse())
    && (forall x, y :: valid(x) && valid(y) ==> (compare(x, y) == Equal <==> x == y))
    && (forall x, y, z :: valid(x) && valid(y) && valid(z) && compare(x, y) == Less && compare(y, z) == Less ==>
          compare(x, z) == Less)
  }

  // The first difference decides; without one, the length.
  function CompareLists<T>(compare: (T, T) -> Ordering, a: seq<T>, b: seq<T>): Ordering {
    if a == [] || b == [] then CompareInt(|a|, |b|)
    else compare(a[0], b[0]).Then(CompareLists(compare, a[1..], b[1..]))
  }

  ghost predicate AllValid<T>(valid: T -> bool, a: seq<T>) {
    forall i :: 0 <= i < |a| ==> valid(a[i])
  }

  lemma {:induction false} ListsReverse<T(!new)>(compare: (T, T) -> Ordering, valid: T -> bool, a: seq<T>, b: seq<T>)
    requires TotalOrder(compare, valid) && AllValid(valid, a) && AllValid(valid, b)
    ensures CompareLists(compare, a, b) == CompareLists(compare, b, a).Reverse()
    ensures CompareLists(compare, a, b) == Equal <==> a == b
  {
    if a != [] && b != [] {
      ListsReverse(compare, valid, a[1..], b[1..]);
      assert a == [a[0]] + a[1..] && b == [b[0]] + b[1..];
      assert valid(a[0]) && valid(b[0]);
    }
  }

  lemma {:induction false} ListsTransitive<T(!new)>(
      compare: (T, T) -> Ordering, valid: T -> bool, a: seq<T>, b: seq<T>, c: seq<T>)
    requires TotalOrder(compare, valid) && AllValid(valid, a) && AllValid(valid, b) && AllValid(valid, c)
    requires CompareLists(compare, a, b) == Less && CompareLists(compare, b, c) == Less
    ensures CompareLists(compare, a, c) == Less
  {
    if a != [] && b != [] && c != [] {
      assert valid(a[0]) && valid(b[0]) && valid(c[0]);
      if a[0] == b[0] == c[0] {
        ListsTransitive(compare, valid, a[1..], b[1..], c[1..]);
      }
    }
  }

  // Where two lists first differ, and how.
  ghost predicate LessAt<T>(compare: (T, T) -> Ordering, a: seq<T>, b: seq<T>, k: int) {
    && 0 <= k <= |a| && k <= |b| && a[..k] == b[..k]
    && (if k < |a| then k < |b| && compare(a[k], b[k]) == Less else k < |b|)
  }

  lemma {:induction false} FirstDifference<T(!new)>(compare: (T, T) -> Ordering, valid: T -> bool, a: seq<T>, b: seq<T>)
    requires TotalOrder(compare, valid) && AllValid(valid, a) && AllValid(valid, b)
    ensures CompareLists(compare, a, b) == Less <==> exists k :: LessAt(compare, a, b, k)
  {
    if a == [] || b == [] {
      assert LessAt(compare, a, b, 0) <==> |a| < |b|;
      assert forall k :: LessAt(compare, a, b, k) ==> k == 0;
    } else {
      assert valid(a[0]) && valid(b[0]);
      FirstDifference(compare, valid, a[1..], b[1..]);
      assert LessAt(compare, a, b, 0) <==> compare(a[0], b[0]) == Less;
      forall k | 1 <= k <= |a| && k <= |b|
        ensures LessAt(compare, a, b, k) <==> a[0] == b[0] && LessAt(compare, a[1..], b[1..], k - 1)
      {
        DropOne(a, b, k);
      }
      if a[0] == b[0] && CompareLists(compare, a[1..], b[1..]) == Less {
        var k :| LessAt(compare, a[1..], b[1..], k);
        assert LessAt(compare, a, b, k + 1);
      }
    }
  }

  lemma DropOne<T>(a: seq<T>, b: seq<T>, k: int)
    requires 1 <= k <= |a| && k <= |b|
    ensures a[..k] == b[..k] <==> a[0] == b[0] && a[1..][..k - 1] == b[1..][..k - 1]
  {
    assert a[..k] == [a[0]] + a[1..][..k - 1];
    assert b[..k] == [b[0]] + b[1..][..k - 1];
    assert a[..k] == b[..k] ==> a[..k][0] == b[..k][0] && a[..k][1..] == b[..k][1..];
  }

  // Texts of ASCII characters compare like their bytes.
  function CompareChar(a: char, b: char): Ordering {
    CompareInt(a as int, b as int)
  }

  function CompareText(a: string, b: string): Ordering {
    CompareLists(CompareChar, a, b)
  }

  lemma CharOrder()
    ensures TotalOrder(CompareChar, (_: char) => true)
  {
  }

  lemma TextOrder(valid: string -> bool)
    ensures TotalOrder(CompareText, valid)
  {
    CharOrder();
    forall x, y ensures CompareText(x, y) == CompareText(y, x).Reverse() && (CompareText(x, y) == Equal <==> x == y) {
      ListsReverse(CompareChar, (_: char) => true, x, y);
    }
    forall x, y, z | CompareText(x, y) == Less && CompareText(y, z) == Less ensures CompareText(x, z) == Less {
      ListsTransitive(CompareChar, (_: char) => true, x, y, z);
    }
  }
}
