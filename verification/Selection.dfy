/** Filtering a sequence in order. */
module Selection {
  import opened Sorting

  function Select<T>(s: seq<T>, test: T -> bool): seq<T> {
    if s == [] then [] else
      Select(s[..|s| - 1], test) + (if test(s[|s| - 1]) then [s[|s| - 1]] else [])
  }

  function Not<T>(test: T -> bool): T -> bool {
    (x: T) => !test(x)
  }

  lemma {:induction false} SelectCompose<T>(s: seq<T>, p: T -> bool, q: T -> bool, both: T -> bool)
    requires forall x :: x in s ==> (both(x) <==> p(x) && q(x))
    ensures Select(Select(s, p), q) == Select(s, both)
  {
    if s != [] {
      var init, last := s[..|s| - 1], s[|s| - 1];
      SelectCompose(init, p, q, both);
      assert last in s;
      if p(last) {
        assert (Select(init, p) + [last])[..|Select(init, p)|] == Select(init, p);
      } else {
        assert Select(s, p) == Select(init, p);
      }
    }
  }

  lemma {:induction false} SelectConcat<T>(s: seq<T>, t: seq<T>, p: T -> bool)
    ensures Select(s + t, p) == Select(s, p) + Select(t, p)
  {
    if t == [] {
      assert s + t == s;
    } else {
      var init, last := t[..|t| - 1], t[|t| - 1];
      SelectConcat(s, init, p);
      assert (s + t)[..|s + t| - 1] == s + init;
    }
  }

  /** Selecting never adds, and if it drops nothing it changes nothing. */
  lemma {:induction false} SelectSize<T>(s: seq<T>, p: T -> bool)
    ensures |Select(s, p)| <= |s|
    ensures |Select(s, p)| == |s| ==> Select(s, p) == s
  {
    if s != [] {
      SelectSize(s[..|s| - 1], p);
      assert s == s[..|s| - 1] + [s[|s| - 1]];
    }
  }

  lemma {:induction false} SelectMultiset<T>(s: seq<T>, p: T -> bool, x: T)
    ensures multiset(Select(s, p))[x] == if p(x) then multiset(s)[x] else 0
  {
    if s != [] {
      SelectMultiset(s[..|s| - 1], p, x);
      assert s == s[..|s| - 1] + [s[|s| - 1]];
    }
  }

  lemma {:induction false} SelectPartition<T>(s: seq<T>, p: T -> bool)
    ensures multiset(Select(s, p)) + multiset(Select(s, Not(p))) == multiset(s)
    ensures |Select(s, p)| + |Select(s, Not(p))| == |s|
  {
    if s != [] {
      var init, last := s[..|s| - 1], s[|s| - 1];
      var yes, no := Select(init, p), Select(init, Not(p));
      SelectPartition(init, p);
      assert s == init + [last];
      assert multiset(s) == multiset(init) + multiset{last};
      if p(last) {
        assert Select(s, p) == yes + [last] && Select(s, Not(p)) == no;
      } else {
        assert Select(s, p) == yes && Select(s, Not(p)) == no + [last];
      }
    }
  }

  lemma CancelSuffix<T>(rest: seq<T>, first: seq<T>, u: seq<T>, a: nat)
    requires a <= |u| && multiset(u[a..]) + multiset(rest) == multiset(first) + multiset(u)
    ensures multiset(rest) == multiset(first) + multiset(u[..a])
  {
    assert multiset(u) == multiset(u[..a]) + multiset(u[a..]) by {
      assert u == u[..a] + u[a..];
    }
    forall x ensures multiset(rest)[x] == (multiset(first) + multiset(u[..a]))[x] {
      assert (multiset(u[a..]) + multiset(rest))[x] == (multiset(first) + multiset(u))[x];
    }
  }

  lemma SelectMember<T>(s: seq<T>, p: T -> bool, x: T)
    ensures x in Select(s, p) <==> x in s && p(x)
  {
  }

  lemma {:induction false} SelectSorted<T(!new)>(s: seq<T>, p: T -> bool, less: (T, T) -> bool)
    requires Sorted(s, less)
    ensures Sorted(Select(s, p), less)
  {
    if s != [] {
      var init, last := s[..|s| - 1], s[|s| - 1];
      SelectSorted(init, p, less);
      var front := Select(init, p);
      forall i | 0 <= i < |front| ensures !less(last, front[i]) {
        SelectMember(init, p, front[i]);
        var j :| 0 <= j < |init| && init[j] == front[i];
        assert s[j] == front[i];
      }
    }
  }

  /** When the elements that pass a test come last, selecting them takes a suffix. */
  lemma {:induction false} SelectSuffix<T>(s: seq<T>, p: T -> bool)
    requires forall i, j :: 0 <= i < j < |s| && p(s[i]) ==> p(s[j])
    ensures |Select(s, Not(p))| <= |s| && Select(s, p) == s[|Select(s, Not(p))|..]
  {
    if s != [] {
      var init, last := s[..|s| - 1], s[|s| - 1];
      SelectSuffix(init, p);
      if !p(last) {
        forall x | x in init ensures Not(p)(x) {
          var i :| 0 <= i < |init| && init[i] == x;
          assert s[i] == x;
        }
        SelectAll(init, Not(p));
      }
    }
  }

  /** When exactly the first `k` elements pass a test, it selects `k`. */
  lemma {:induction false} SelectPrefix<T>(s: seq<T>, k: nat, p: T -> bool)
    requires k <= |s| && forall i :: 0 <= i < |s| ==> (p(s[i]) <==> i < k)
    ensures |Select(s, p)| == k
  {
    if s != [] {
      var init, last := s[..|s| - 1], s[|s| - 1];
      SelectPrefix(init, if k == |s| then k - 1 else k, p);
    }
  }

  lemma {:induction false} SelectFewer<T>(s: seq<T>, p: T -> bool, q: T -> bool)
    requires forall x :: x in s && p(x) ==> q(x)
    ensures |Select(s, p)| <= |Select(s, q)|
  {
    if s != [] {
      SelectFewer(s[..|s| - 1], p, q);
      assert s[|s| - 1] in s;
    }
  }

  lemma {:induction false} SelectAgree<T>(s: seq<T>, p: T -> bool, q: T -> bool)
    requires forall x :: x in s ==> p(x) == q(x)
    ensures Select(s, p) == Select(s, q) && Select(s, Not(p)) == Select(s, Not(q))
  {
    if s != [] {
      SelectAgree(s[..|s| - 1], p, q);
      assert s[|s| - 1] in s;
    }
  }

  lemma {:induction false} SelectAll<T>(s: seq<T>, p: T -> bool)
    requires forall x :: x in s ==> p(x)
    ensures Select(s, p) == s
  {
    if s != [] {
      SelectAll(s[..|s| - 1], p);
      assert s[|s| - 1] in s;
    }
  }

  lemma SizeOf<T>(s: seq<T>, t: seq<T>)
    requires multiset(s) == multiset(t)
    ensures |s| == |t|
  {
    assert |multiset(s)| == |s| && |multiset(t)| == |t|;
  }

  lemma DisjointWithin<T>(m: multiset<T>, a: multiset<T>, b: multiset<T>)
    requires m <= a + b && m !! b
    ensures m <= a
  {
  }

  lemma SelectWithin<T>(t: seq<T>, a: seq<T>, b: seq<T>, p: T -> bool)
    requires multiset(t) <= multiset(a) + multiset(b)
    requires forall x :: x in b ==> !p(x)
    ensures multiset(Select(t, p)) <= multiset(a) && |Select(t, p)| <= |a|
  {
    SelectPartition(t, p);
    forall x | x in multiset(Select(t, p)) ensures x !in multiset(b) {
      SelectMember(t, p, x);
    }
    assert multiset(Select(t, p)) <= multiset(t);
    DisjointWithin(multiset(Select(t, p)), multiset(a), multiset(b));
    SubmultisetSize(Select(t, p), a);
  }

  lemma SubmultisetSize<T>(s: seq<T>, t: seq<T>)
    requires multiset(s) <= multiset(t)
    ensures |s| <= |t|
  {
    assert multiset(t) == multiset(s) + (multiset(t) - multiset(s));
    assert |multiset(s)| == |s| && |multiset(t)| == |t|;
  }

  lemma PrefixRejected<T>(u: seq<T>, p: T -> bool, a: nat, x: T)
    requires a <= |u| && Select(u, p) == u[a..] && x in u[..a]
    ensures !p(x)
  {
    SelectMultiset(u, p, x);
    assert u == u[..a] + u[a..];
    assert multiset(u)[x] == multiset(u[..a])[x] + multiset(u[a..])[x];
    assert x in multiset(u[..a]);
  }

  lemma SelectOne<T>(x: T, p: T -> bool)
    ensures Select([x], p) == if p(x) then [x] else []
  {
  }

  lemma SelectTwo<T>(x: T, y: T, p: T -> bool)
    ensures Select([x, y], p) == (if p(x) then [x] else []) + (if p(y) then [y] else [])
    ensures Select([x, y], Not(p)) == (if p(x) then [] else [x]) + (if p(y) then [] else [y])
  {
    assert [x, y][..1] == [x] && [x][..0] == [];
    assert Select([x], p) == if p(x) then [x] else [];
    assert Select([x], Not(p)) == if p(x) then [] else [x];
  }
}
