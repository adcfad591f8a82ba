/** Small facts about finite sets, and the arbitrary choice behind a `foreach`. */
module Sets {

  /** The next element of a loop over a set, in no particular order. */
  method TakeAny<T(==)>(s: set<T>) returns (x: T)
    requires s != {}
    ensures x in s
  {
    x :| x in s;
  }

  lemma {:induction false} Pick<T>(s: set<T>) returns (x: T)
    requires s != {}
    ensures x in s
  {
    x :| x in s;
  }

  lemma {:induction false} SubsetSize<T>(a: set<T>, b: set<T>)
    requires a <= b
    ensures |a| <= |b|
    ensures |a| == |b| ==> a == b
  {
    if a != {} {
      var x :| x in a;
      SubsetSize(a - {x}, b - {x});
    }
  }

  /** Something a proper subset misses. */
  lemma {:induction false} Missed<T>(a: set<T>, b: set<T>) returns (x: T)
    requires a <= b && a != b
    ensures x in b && x !in a
  {
    assert a + (b - a) == b;
    assert a + {} == a;
    x :| x in b - a;
  }

  ghost predicate Distinct<T>(s: seq<T>) {
    forall i, j :: 0 <= i < j < |s| ==> s[i] != s[j]
  }

  lemma {:induction false} DistinctAppend<T>(a: seq<T>, b: seq<T>)
    requires Distinct(a) && Distinct(b)
    requires forall i, j :: 0 <= i < |a| && 0 <= j < |b| ==> a[i] != b[j]
    ensures Distinct(a + b)
  {
    var s := a + b;
    forall i, j | 0 <= i < j < |s|
      ensures s[i] != s[j]
    {
      if j < |a| {
        assert s[i] == a[i] && s[j] == a[j];
      } else if i < |a| {
        assert s[i] == a[i] && s[j] == b[j - |a|];
      } else {
        assert s[i] == b[i - |a|] && s[j] == b[j - |a|];
      }
    }
  }

  /** `order` lists the set, each element once. */
  ghost predicate IsOrder(order: seq<int>, next: set<int>) {
    && (forall i :: 0 <= i < |order| ==> order[i] in next)
    && (forall x :: x in next ==> x in order)
    && Distinct(order)
  }

  lemma {:induction false} SomeOrder(next: set<int>) returns (order: seq<int>)
    ensures IsOrder(order, next)
  {
    if next == {} {
      order := [];
    } else {
      var x := Pick(next);
      order := OrderEndingIn(next, x);
    }
  }

  /** The elements of a set can be listed with any one of them last. */
  lemma {:induction false} OrderEndingIn(next: set<int>, x: int) returns (order: seq<int>)
    requires x in next
    ensures IsOrder(order, next) && |order| > 0 && order[|order| - 1] == x
    decreases |next|
  {
    var rest := next - {x};
    var some: seq<int> := [];
    if rest != {} {
      var y := Pick(rest);
      some := OrderEndingIn(rest, y);
    }
    order := some + [x];
    forall z | z in next
      ensures z in order
    {
      if z != x {
        assert z in rest;
        assert z in some;
      }
    }
    assert forall i :: 0 <= i < |some| ==> some[i] in rest;
    DistinctAppend(some, [x]);
  }

  lemma {:induction false} OrderStartingWith(next: set<int>, x: int) returns (order: seq<int>)
    requires x in next
    ensures IsOrder(order, next) && |order| > 0 && order[0] == x
  {
    var some := SomeOrder(next - {x});
    order := [x] + some;
    forall z | z in next
      ensures z in order
    {
      if z != x {
        assert z in next - {x};
        assert z in some;
      }
    }
    assert forall i :: 0 <= i < |some| ==> some[i] in next - {x};
    DistinctAppend([x], some);
  }

  /** The elements of a set in the order a `foreach` happens to take them. */
  method Listing(s: set<int>) returns (order: seq<int>)
    ensures IsOrder(order, s)
  {
    order := [];
    var todo := s;
    while todo != {}
      invariant todo <= s && Distinct(order)
      invariant forall i :: 0 <= i < |order| ==> order[i] in s && order[i] !in todo
      invariant forall x :: x in s && x !in todo ==> x in order
      decreases |todo|
    {
      var x := TakeAny(todo);
      DistinctAppend(order, [x]);
      forall y | y in s && y !in todo - {x}
        ensures y in order + [x]
      {
        if y != x {
          assert y in order;
        }
      }
      order := order + [x];
      todo := todo - {x};
    }
  }
}
