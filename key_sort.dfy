/** `keys = list(my_dict.keys()); keys.sort()`: the dictionary's keys copied
    into a list, which is then sorted in place by Python's string order. */
module KeySort {
  import opened PyStr

  /** Every pair of positions is in order (non-strict). */
  ghost predicate Ascending(s: seq<string>)
  {
    forall i, j :: 0 <= i < j < |s| ==> LexLe(s[i], s[j])
  }

  /** Every pair of positions is in strict order, so no key repeats. */
  ghost predicate StrictlyAscending(s: seq<string>)
  {
    forall i, j :: 0 <= i < j < |s| ==> LexLess(s[i], s[j])
  }

  /** No element occurs twice. */
  ghost predicate Distinct(s: seq<string>)
  {
    forall x :: multiset(s)[x] <= 1
  }

  /** `k` is the smallest element of `keys`. */
  ghost predicate IsLeast(k: string, keys: set<string>)
  {
    k in keys && forall k' :: k' in keys ==> LexLe(k, k')
  }

  /** `k` is the largest element of `keys`. */
  ghost predicate IsGreatest(k: string, keys: set<string>)
  {
    k in keys && forall k' :: k' in keys ==> LexLe(k', k)
  }

  lemma {:induction false} LeastExists(keys: set<string>)
    requires keys != {}
    ensures exists k :: IsLeast(k, keys)
    decreases |keys|
  {
    var x :| x in keys;
    LexLessIrreflexive(x);
    if keys != {x} {
      LeastExists(keys - {x});
      var y :| IsLeast(y, keys - {x});
      LexLessTotal(x, y);
      if LexLess(x, y) {
        forall k' | k' in keys ensures LexLe(x, k') {
          if k' != x {
            LexLessAsymmetric(x, y);
            LexLeTransitive(x, y, k');
          }
        }
        assert IsLeast(x, keys);
      } else {
        LexLessAsymmetric(y, x);
        assert IsLeast(y, keys);
      }
    } else {
      assert IsLeast(x, keys);
    }
  }

  lemma {:induction false} GreatestExists(keys: set<string>)
    requires keys != {}
    ensures exists k :: IsGreatest(k, keys)
    decreases |keys|
  {
    var x :| x in keys;
    LexLessIrreflexive(x);
    if keys != {x} {
      GreatestExists(keys - {x});
      var y :| IsGreatest(y, keys - {x});
      LexLessTotal(x, y);
      if LexLess(y, x) {
        forall k' | k' in keys ensures LexLe(k', x) {
          if k' != x {
            LexLessAsymmetric(y, x);
            LexLeTransitive(k', y, x);
          }
        }
        assert IsGreatest(x, keys);
      } else {
        LexLessAsymmetric(x, y);
        assert IsGreatest(y, keys);
      }
    } else {
      assert IsGreatest(x, keys);
    }
  }

  /** Two strings each at most the other are equal. */
  lemma LexLeAntisymmetric(a: string, b: string)
    requires LexLe(a, b) && LexLe(b, a)
    ensures a == b
  {
    LexLessTotal(a, b);
  }

  /** The smallest key: `sorted(keys)[0]`. */
  ghost function LeastKey(keys: set<string>): (k: string)
    requires keys != {}
    ensures IsLeast(k, keys)
  {
    LeastExists(keys);
    var k :| IsLeast(k, keys); k
  }

  /** The largest key: `sorted(keys)[-1]`. */
  ghost function GreatestKey(keys: set<string>): (k: string)
    requires keys != {}
    ensures IsGreatest(k, keys)
  {
    GreatestExists(keys);
    var k :| IsGreatest(k, keys); k
  }

  lemma CountAtTwo(s: seq<string>, i: int, j: int)
    requires 0 <= i < j < |s|
    ensures multiset(s)[s[i]] >= if s[i] == s[j] then 2 else 1
  {
    assert s == s[..i] + [s[i]] + s[i + 1..j] + [s[j]] + s[j + 1..];
  }

  lemma DistinctAt(s: seq<string>, i: int, j: int)
    requires Distinct(s) && 0 <= i < j < |s|
    ensures s[i] != s[j]
  {
    CountAtTwo(s, i, j);
  }

  /** A sorted list without repetitions is strictly sorted. */
  lemma AscendingDistinct(s: seq<string>)
    requires Ascending(s) && Distinct(s)
    ensures StrictlyAscending(s)
  {
    forall i, j | 0 <= i < j < |s| ensures LexLess(s[i], s[j]) {
      DistinctAt(s, i, j);
      LexLessTotal(s[i], s[j]);
    }
  }

  /** `list(my_dict.keys())`: a fresh list holding each key once, in the
      dictionary's (unspecified) iteration order. */
  method ListKeys<V>(d: map<string, V>) returns (a: array<string>)
    ensures fresh(a)
    ensures a.Length == |d|
    ensures forall k :: k in d <==> k in a[..]
    ensures Distinct(a[..])
  {
    a := new string[|d|];
    var rest := d.Keys;
    var i := 0;
    while rest != {}
      invariant 0 <= i <= a.Length
      invariant i + |rest| == |d|
      invariant rest <= d.Keys
      invariant forall k :: k in d ==> (k in rest <==> k !in a[..i])
      invariant forall k :: k in a[..i] ==> k in d
      invariant Distinct(a[..i])
      decreases |rest|
    {
      var k :| k in rest;
      ghost var listed := a[..i];
      assert k !in listed;
      a[i] := k;
      assert a[..i + 1] == listed + [k];
      DistinctAppend(listed, k);
      rest := rest - {k};
      i := i + 1;
    }
    assert a[..i] == a[..];
  }

  /** Appending an element not yet present keeps a list without
      repetitions. */
  lemma DistinctAppend(s: seq<string>, x: string)
    requires Distinct(s) && x !in s
    ensures Distinct(s + [x])
  {
    assert multiset(s + [x]) == multiset(s) + multiset{x};
  }

  /** Positions `0..n` are in order, leaving out position `j`. */
  ghost predicate AscendingExcept(s: seq<string>, n: nat, j: nat)
    requires n < |s|
  {
    forall p, q :: 0 <= p < q <= n && p != j && q != j ==> LexLe(s[p], s[q])
  }

  /** The element at `j` is below everything after it up to `n`. */
  ghost predicate BelowRest(s: seq<string>, n: nat, j: nat)
    requires j <= n < |s|
  {
    forall q :: j < q <= n ==> LexLess(s[j], s[q])
  }

  /** Swapping the element being inserted with its larger left neighbour. */
  lemma InsertionStep(s: seq<string>, n: nat, j: nat)
    requires 0 < j <= n < |s|
    requires AscendingExcept(s, n, j) && BelowRest(s, n, j)
    requires LexLess(s[j], s[j - 1])
    ensures AscendingExcept(s[j - 1 := s[j]][j := s[j - 1]], n, j - 1)
    ensures BelowRest(s[j - 1 := s[j]][j := s[j - 1]], n, j - 1)
  {
    var t := s[j - 1 := s[j]][j := s[j - 1]];
    forall q | j - 1 < q <= n ensures LexLess(t[j - 1], t[q]) {
      if q > j {
        assert t[q] == s[q];
      }
    }
  }

  /** Once the inserted element is not below its left neighbour, the
      prefix up to `n` is in order. */
  lemma InsertionDone(s: seq<string>, n: nat, j: nat)
    requires j <= n < |s|
    requires AscendingExcept(s, n, j) && BelowRest(s, n, j)
    requires j == 0 || !LexLess(s[j], s[j - 1])
    ensures Ascending(s[..n + 1])
  {
    forall p, q | 0 <= p < q <= n ensures LexLe(s[p], s[q]) {
      if q == j {
        if p < j - 1 {
          LexLeTransitive(s[p], s[j - 1], s[j]);
        }
      } else if p == j {
        LexLessAsymmetric(s[j], s[q]);
      }
    }
  }

  /** `keys.sort()`: sorts the list in place (insertion sort standing for
      Python's stable sort; the two agree on what they produce). */
  method SortKeys(a: array<string>)
    modifies a
    ensures Ascending(a[..])
    ensures multiset(a[..]) == multiset(old(a[..]))
  {
    var i := 0;
    while i < a.Length
      invariant 0 <= i <= a.Length
      invariant Ascending(a[..i])
      invariant multiset(a[..]) == multiset(old(a[..]))
    {
      InsertKey(a, i);
      i := i + 1;
    }
    assert a[..i] == a[..];
  }

  /** The multiset of a sequence is that of its two parts. */
  lemma MultisetSplit(s: seq<string>, n: nat)
    requires n <= |s|
    ensures multiset(s) == multiset(s[..n]) + multiset(s[n..])
  {
    assert s == s[..n] + s[n..];
  }

  /** Swapping the inserted key with its larger left neighbour keeps the
      loop's order facts with the gap one place further left, keeps the
      multiset of the first `n + 1` keys and leaves every key after `n` in
      place. */
  lemma SwapStep(s: seq<string>, t: seq<string>, n: nat, j: nat)
    requires 0 < j <= n < |s| && t == s[j - 1 := s[j]][j := s[j - 1]]
    requires AscendingExcept(s, n, j) && BelowRest(s, n, j) && LexLess(s[j], s[j - 1])
    ensures AscendingExcept(t, n, j - 1) && BelowRest(t, n, j - 1)
    ensures multiset(t[..n + 1]) == multiset(s[..n + 1]) && t[n + 1..] == s[n + 1..]
  {
    InsertionStep(s, n, j);
    assert t[..n + 1] == s[..n + 1][j - 1 := s[j]][j := s[j - 1]];
  }

  /** One pass of the sort: moves the key at `i` left past every larger key
      before it, so that the first `i + 1` keys are in order. */
  method InsertKey(a: array<string>, i: int)
    requires 0 <= i < a.Length && Ascending(a[..i])
    modifies a
    ensures Ascending(a[..i + 1])
    ensures multiset(a[..i + 1]) == multiset(old(a[..i + 1]))
    ensures a[i + 1..] == old(a[i + 1..])
    ensures multiset(a[..]) == multiset(old(a[..]))
  {
    var j := i;
    assert AscendingExcept(a[..], i, i) by {
      assert forall p :: 0 <= p < i ==> a[..i][p] == a[..][p];
    }
    while 0 < j && LexLess(a[j], a[j - 1])
      invariant 0 <= j <= i
      invariant multiset(a[..i + 1]) == multiset(old(a[..i + 1]))
      invariant a[i + 1..] == old(a[i + 1..])
      invariant AscendingExcept(a[..], i, j) && BelowRest(a[..], i, j)
    {
      ghost var before := a[..];
      a[j - 1], a[j] := a[j], a[j - 1];
      assert a[..] == before[j - 1 := before[j]][j := before[j - 1]];
      SwapStep(before, a[..], i, j);
      j := j - 1;
    }
    InsertionDone(a[..], i, j);
    MultisetSplit(old(a[..]), i + 1);
    MultisetSplit(a[..], i + 1);
  }
}
