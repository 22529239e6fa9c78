/** The array operations the dashboard applies to its list of times:
    `Array.prototype.sort` with no comparator, `Array.prototype.filter` with
    an inequality test, and the ordering predicates they are judged by. */
module JsArrays {
  import opened JsStrings

  /** Every element is at most every later element. */
  predicate Sorted(s: seq<string>)
  {
    forall i, j | 0 <= i < j < |s| :: LessEq(s[i], s[j])
  }

  /** Every element is strictly below every later element. */
  predicate StrictlyAscending(s: seq<string>)
  {
    forall i, j | 0 <= i < j < |s| :: Less(s[i], s[j])
  }

  /** No value occurs twice. */
  predicate Distinct(s: seq<string>)
  {
    forall i, j | 0 <= i < j < |s| :: s[i] != s[j]
  }

  /** Strictly ascending is exactly "sorted and duplicate-free". */
  lemma StrictlyAscendingIff(s: seq<string>)
    ensures StrictlyAscending(s) <==> Sorted(s) && Distinct(s)
  {
    if StrictlyAscending(s) {
      forall i, j | 0 <= i < j < |s| ensures s[i] != s[j] {
        LessIrreflexive(s[i]);
      }
    }
  }

  /** Inserts `x` in front of the first element it does not exceed. */
  function Insert(x: string, s: seq<string>): (r: seq<string>)
    ensures multiset(r) == multiset(s) + multiset{x}
  {
    if s == [] then [x]
    else if LessEq(x, s[0]) then [x] + s
    else
      assert s == [s[0]] + s[1..];
      [s[0]] + Insert(x, s[1..])
  }

  /** A head no greater than any element of a sorted tail gives a sorted list. */
  lemma ConsKeepsSorted(h: string, t: seq<string>)
    requires Sorted(t)
    requires forall k | 0 <= k < |t| :: LessEq(h, t[k])
    ensures Sorted([h] + t)
  {
    var r := [h] + t;
    forall i, j | 0 <= i < j < |r| ensures LessEq(r[i], r[j]) {
      assert r[j] == t[j - 1];
      if i > 0 {
        assert r[i] == t[i - 1];
      }
    }
  }

  /** A head below every element of a strictly ascending tail gives a
      strictly ascending list. */
  lemma ConsKeepsStrictlyAscending(h: string, t: seq<string>)
    requires StrictlyAscending(t)
    requires forall k | 0 <= k < |t| :: Less(h, t[k])
    ensures StrictlyAscending([h] + t)
  {
    var r := [h] + t;
    forall i, j | 0 <= i < j < |r| ensures Less(r[i], r[j]) {
      assert r[j] == t[j - 1];
      if i > 0 {
        assert r[i] == t[i - 1];
      }
    }
  }

  lemma {:induction false} InsertKeepsSorted(x: string, s: seq<string>)
    requires Sorted(s)
    ensures Sorted(Insert(x, s))
  {
    if s == [] {
    } else if LessEq(x, s[0]) {
      forall k | 0 <= k < |s| ensures LessEq(x, s[k]) {
        LessEqTransitive(x, s[0], s[k]);
      }
      ConsKeepsSorted(x, s);
    } else {
      var tail := s[1..];
      assert Sorted(tail) by {
        forall i, j | 0 <= i < j < |tail| ensures LessEq(tail[i], tail[j]) {
          assert tail[i] == s[i + 1] && tail[j] == s[j + 1];
        }
      }
      var t := Insert(x, tail);
      InsertKeepsSorted(x, tail);
      LessTotal(x, s[0]);
      forall k | 0 <= k < |t| ensures LessEq(s[0], t[k]) {
        assert t[k] in multiset(t);
        if t[k] != x {
          assert t[k] in tail;
        }
      }
      ConsKeepsSorted(s[0], t);
    }
  }

  lemma {:induction false} InsertKeepsStrictlyAscending(x: string, s: seq<string>)
    requires StrictlyAscending(s) && x !in s
    ensures StrictlyAscending(Insert(x, s))
  {
    if s == [] {
    } else if LessEq(x, s[0]) {
      forall k | 0 <= k < |s| ensures Less(x, s[k]) {
        if k > 0 {
          LessTransitive(x, s[0], s[k]);
        }
      }
      ConsKeepsStrictlyAscending(x, s);
    } else {
      var tail := s[1..];
      assert StrictlyAscending(tail) by {
        forall i, j | 0 <= i < j < |tail| ensures Less(tail[i], tail[j]) {
          assert tail[i] == s[i + 1] && tail[j] == s[j + 1];
        }
      }
      var t := Insert(x, tail);
      InsertKeepsStrictlyAscending(x, tail);
      LessTotal(x, s[0]);
      forall k | 0 <= k < |t| ensures Less(s[0], t[k]) {
        assert t[k] in multiset(t);
        if t[k] != x {
          assert t[k] in tail;
        }
      }
      ConsKeepsStrictlyAscending(s[0], t);
    }
  }

  /** `a.sort()` with no comparator, as insertion sort. Because the order
      is total, the result is the only sorted permutation of `s` (see
      SortedPermutationUnique), so it is also what any other sorting
      algorithm, the engine's included, returns. */
  function Sort(s: seq<string>): (r: seq<string>)
    ensures multiset(r) == multiset(s)
    ensures Sorted(r)
  {
    if s == [] then []
    else
      var rest := Sort(s[1..]);
      InsertKeepsSorted(s[0], rest);
      assert s == [s[0]] + s[1..];
      Insert(s[0], rest)
  }

  /** Two sorted lists with the same elements, counted with multiplicity,
      are the same list. */
  lemma {:induction false} SortedPermutationUnique(a: seq<string>, b: seq<string>)
    requires Sorted(a) && Sorted(b) && multiset(a) == multiset(b)
    ensures a == b
  {
    assert |a| == |multiset(a)| == |multiset(b)| == |b|;
    if |a| > 0 {
      assert a[0] in multiset(b) && b[0] in multiset(a);
      var j :| 0 <= j < |b| && b[j] == a[0];
      var i :| 0 <= i < |a| && a[i] == b[0];
      assert LessEq(a[0], a[i]);
      assert LessEq(b[0], b[j]);
      LessEqAntisymmetric(a[0], b[0]);
      assert a == [a[0]] + a[1..];
      assert b == [b[0]] + b[1..];
      assert multiset(a) == multiset{a[0]} + multiset(a[1..]);
      assert multiset(b) == multiset{b[0]} + multiset(b[1..]);
      assert a[0] == b[0];
      assert multiset(a[1..]) == multiset(a) - multiset{a[0]};
      assert multiset(b[1..]) == multiset(b) - multiset{b[0]};
      assert Sorted(a[1..]) by {
        forall i, j | 0 <= i < j < |a| - 1 ensures LessEq(a[1..][i], a[1..][j]) {
          assert a[1..][i] == a[i + 1] && a[1..][j] == a[j + 1];
        }
      }
      assert Sorted(b[1..]) by {
        forall i, j | 0 <= i < j < |b| - 1 ensures LessEq(b[1..][i], b[1..][j]) {
          assert b[1..][i] == b[i + 1] && b[1..][j] == b[j + 1];
        }
      }
      SortedPermutationUnique(a[1..], b[1..]);
    }
  }

  /** Appending to a sorted list and sorting again is inserting in place. */
  lemma SortAppendIsInsert(s: seq<string>, x: string)
    requires Sorted(s)
    ensures Sort(s + [x]) == Insert(x, s)
  {
    InsertKeepsSorted(x, s);
    SortedPermutationUnique(Sort(s + [x]), Insert(x, s));
  }

  /** `r` is `s` with some elements dropped and the rest in their order. */
  predicate IsSubsequence(r: seq<string>, s: seq<string>)
    decreases s
  {
    if r == [] then true
    else if s == [] then false
    else if r[0] == s[0] then IsSubsequence(r[1..], s[1..])
    else IsSubsequence(r, s[1..])
  }

  /** `s.filter(t => t !== x)`. */
  function Without(s: seq<string>, x: string): seq<string>
  {
    if s == [] then []
    else if s[0] == x then Without(s[1..], x)
    else [s[0]] + Without(s[1..], x)
  }

  /** Filtering out a value that does not occur changes nothing. */
  lemma {:induction false} WithoutAbsent(s: seq<string>, x: string)
    ensures x !in s ==> Without(s, x) == s
  {
    if s != [] && x !in s {
      WithoutAbsent(s[1..], x);
      assert s == [s[0]] + s[1..];
    }
  }

  /** The filter drops every copy of `x` and keeps every other value as
      often as it occurred, in its original order. */
  lemma {:induction false} WithoutKeepsTheRest(s: seq<string>, x: string)
    ensures multiset(Without(s, x)) == multiset(s)[x := 0]
    ensures forall y :: y in Without(s, x) <==> y in s && y != x
    ensures IsSubsequence(Without(s, x), s)
  {
    if s != [] {
      WithoutKeepsTheRest(s[1..], x);
      assert s == [s[0]] + s[1..];
      var t := Without(s[1..], x);
      if s[0] == x {
        assert t == [] || t[0] != s[0];
      } else {
        assert ([s[0]] + t)[1..] == t;
      }
    }
  }

  lemma {:induction false} WithoutKeepsStrictlyAscending(s: seq<string>, x: string)
    ensures StrictlyAscending(s) ==> StrictlyAscending(Without(s, x))
  {
    if s != [] && StrictlyAscending(s) {
      var tail := s[1..];
      assert StrictlyAscending(tail) by {
        forall i, j | 0 <= i < j < |tail| ensures Less(tail[i], tail[j]) {
          assert tail[i] == s[i + 1] && tail[j] == s[j + 1];
        }
      }
      WithoutKeepsStrictlyAscending(tail, x);
      if s[0] != x {
        var t := Without(tail, x);
        WithoutKeepsTheRest(tail, x);
        forall k | 0 <= k < |t| ensures Less(s[0], t[k]) {
          assert t[k] in tail;
        }
        ConsKeepsStrictlyAscending(s[0], t);
      }
    }
  }

  /** Filtering distributes over concatenation. */
  lemma {:induction false} WithoutAppend(a: seq<string>, b: seq<string>, x: string)
    ensures Without(a + b, x) == Without(a, x) + Without(b, x)
  {
    if a == [] {
      assert a + b == b;
    } else {
      WithoutAppend(a[1..], b, x);
      assert (a + b)[1..] == a[1..] + b;
    }
  }

  /** In a duplicate-free list the element at index `i` occurs nowhere else. */
  lemma DistinctSplit(s: seq<string>, i: nat)
    requires Distinct(s) && i < |s|
    ensures s[i] !in s[..i] && s[i] !in s[i + 1..]
  {
    forall k | 0 <= k < |s| && k != i ensures s[k] != s[i] {
      if k < i {
        assert s[k] != s[i];
      } else {
        assert s[i] != s[k];
      }
    }
  }

  /** Filtering out a value that occurs only at index `i` cuts out that
      position. */
  lemma WithoutSingleOccurrence(s: seq<string>, i: nat)
    requires i < |s| && s[i] !in s[..i] && s[i] !in s[i + 1..]
    ensures Without(s, s[i]) == s[..i] + s[i + 1..]
  {
    var x := s[i];
    var front, back := s[..i], s[i + 1..];
    var rest := [x] + back;
    assert Without(rest, x) == back by {
      assert rest[0] == x && rest[1..] == back;
      WithoutAbsent(back, x);
    }
    assert Without(front, x) == front by {
      WithoutAbsent(front, x);
    }
    assert Without(s, x) == Without(front, x) + Without(rest, x) by {
      assert s == front + rest;
      WithoutAppend(front, rest, x);
    }
  }

  /** In a duplicate-free list, filtering out the element at index `i`
      removes that position and nothing else. */
  lemma WithoutRemovesOnePosition(s: seq<string>, i: nat)
    requires Distinct(s) && i < |s|
    ensures Without(s, s[i]) == s[..i] + s[i + 1..]
  {
    DistinctSplit(s, i);
    WithoutSingleOccurrence(s, i);
  }

  /** Filtering out a value just inserted in place gives back the list. */
  lemma {:induction false} WithoutInsert(x: string, s: seq<string>)
    requires x !in s
    ensures Without(Insert(x, s), x) == s
  {
    if s == [] {
      assert Without([x], x) == Without([], x);
    } else if LessEq(x, s[0]) {
      assert ([x] + s)[1..] == s;
      WithoutAbsent(s, x);
    } else {
      var t := Insert(x, s[1..]);
      WithoutInsert(x, s[1..]);
      assert ([s[0]] + t)[1..] == t;
      assert Without([s[0]] + t, x) == [s[0]] + Without(t, x);
      assert s == [s[0]] + s[1..];
    }
  }

  /** Inserting an element of a strictly ascending list into the list
      without it puts it back where it was. */
  lemma {:induction false} InsertIntoGap(s: seq<string>, i: nat)
    requires StrictlyAscending(s) && i < |s|
    ensures Insert(s[i], s[..i] + s[i + 1..]) == s
  {
    var tail := s[1..];
    if i == 0 {
      assert s[..0] + s[1..] == tail;
      if tail != [] {
        assert Less(s[0], tail[0]);
      }
      assert s == [s[0]] + tail;
    } else {
      assert StrictlyAscending(tail) by {
        forall a, b | 0 <= a < b < |tail| ensures Less(tail[a], tail[b]) {
          assert tail[a] == s[a + 1] && tail[b] == s[b + 1];
        }
      }
      var gap := s[..i] + s[i + 1..];
      assert gap[0] == s[0] && gap[1..] == tail[..i - 1] + tail[i..];
      assert !LessEq(s[i], gap[0]) by {
        assert Less(s[0], s[i]);
        LessAsymmetric(s[0], s[i]);
        LessIrreflexive(s[0]);
      }
      assert tail[i - 1] == s[i];
      InsertIntoGap(tail, i - 1);
      assert s == [s[0]] + tail;
    }
  }
}
