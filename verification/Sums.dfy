/** Sums over finite sets of strings, and the sorted listing of such a set. */
module Sums {
  import opened Sorting

  /** The sum of `f` over `s`; the order of summation is immaterial (`SumRemove`). */
  ghost function Sum(s: set<string>, f: string -> int): int {
    if s == {} then 0 else
      var x :| x in s;
      f(x) + Sum(s - {x}, f)
  }

  lemma {:induction false} SumRemove(s: set<string>, f: string -> int, x: string)
    requires x in s
    ensures Sum(s, f) == f(x) + Sum(s - {x}, f)
    decreases s
  {
    var y :| y in s && Sum(s, f) == f(y) + Sum(s - {y}, f);
    if y != x {
      SumRemove(s - {y}, f, x);
      SumRemove(s - {x}, f, y);
      assert s - {y} - {x} == s - {x} - {y};
    }
  }

  lemma SumAdd(s: set<string>, f: string -> int, x: string)
    requires x !in s
    ensures Sum(s + {x}, f) == Sum(s, f) + f(x)
  {
    SumRemove(s + {x}, f, x);
    assert s + {x} - {x} == s;
  }

  lemma {:induction false} SumAgree(s: set<string>, f: string -> int, g: string -> int)
    requires forall x :: x in s ==> f(x) == g(x)
    ensures Sum(s, f) == Sum(s, g)
    decreases s
  {
    if s != {} {
      var x :| x in s;
      SumRemove(s, f, x);
      SumRemove(s, g, x);
      SumAgree(s - {x}, f, g);
    }
  }

  lemma {:induction false} SumZero(s: set<string>, f: string -> int)
    requires forall x :: x in s ==> f(x) == 0
    ensures Sum(s, f) == 0
    decreases s
  {
    if s != {} {
      var x :| x in s;
      SumRemove(s, f, x);
      SumZero(s - {x}, f);
    }
  }

  lemma {:induction false} SumUnion(a: set<string>, b: set<string>, f: string -> int)
    requires a !! b
    ensures Sum(a + b, f) == Sum(a, f) + Sum(b, f)
    decreases a
  {
    if a == {} {
      assert a + b == b;
    } else {
      var x :| x in a;
      SumRemove(a, f, x);
      SumRemove(a + b, f, x);
      assert a + b - {x} == (a - {x}) + b;
      SumUnion(a - {x}, b, f);
    }
  }

  function Elements(s: seq<string>): set<string> {
    set x | x in s
  }

  /** The elements of a set in ascending order. */
  ghost function SortedKeys(s: set<string>): seq<string> {
    if s == {} then [] else
      var x :| x in s;
      Insert(x, SortedKeys(s - {x}), StringLess)
  }

  lemma {:induction false} SortedKeysOf(s: set<string>)
    ensures Sorted(SortedKeys(s), StringLess) && multiset(SortedKeys(s)) == multiset(s)
    decreases s
  {
    if s != {} {
      var x :| x in s && SortedKeys(s) == Insert(x, SortedKeys(s - {x}), StringLess);
      SortedKeysOf(s - {x});
      StringLessStrictTotal();
      InsertSorted(x, SortedKeys(s - {x}), StringLess);
      assert multiset(s) == multiset{x} + multiset(s - {x});
    }
  }

  lemma SortedKeysMember(s: set<string>, x: string)
    ensures x in SortedKeys(s) <==> x in s
  {
    SortedKeysOf(s);
    assert x in SortedKeys(s) <==> x in multiset(SortedKeys(s));
  }

  /** `SortedMapKeys` of registry/common.go: collect the keys in any order, then sort them. */
  method SortedMapKeys(s: set<string>) returns (keys: seq<string>)
    ensures keys == SortedKeys(s)
  {
    var collected: seq<string> := [];
    var rest := s;
    while rest != {}
      invariant rest <= s && multiset(collected) + multiset(rest) == multiset(s)
      decreases rest
    {
      var key :| key in rest;
      assert multiset(rest) == multiset{key} + multiset(rest - {key});
      collected, rest := collected + [key], rest - {key};
    }
    var a := new string[|collected|](i requires 0 <= i < |collected| => collected[i]);
    assert a[..] == collected;
    StringLessStrictTotal();
    SortInPlace(a, StringLess);
    keys := a[..];
    SortedKeysOf(s);
    SortedIsUnique(keys, SortedKeys(s), StringLess);
  }
}
