/**
 * `all_different_except(array, excluded)`: true unless some value that is not
 * excluded occurs more than once. The source counts occurrences with
 * `np.unique_counts`; here the counts are those of `multiset(a)`.
 */
module AllDifferent {

  /** Every distinct value of `a` is excluded or counted exactly once. */
  predicate AllDifferentExcept<T(==)>(a: seq<T>, excluded: set<T>)
  {
    var counts := multiset(a);
    forall v | v in counts :: v in excluded || counts[v] == 1
  }

  /** The reference reading: no two positions hold the same non-excluded value. */
  ghost predicate NoRepeatOutside<T>(a: seq<T>, excluded: set<T>)
  {
    forall i, j :: 0 <= i < j < |a| && a[i] == a[j] ==> a[i] in excluded
  }

  /** The counting definition and the positional reading agree on every input. */
  lemma {:induction false} AllDifferentExceptIsPairwise<T>(a: seq<T>, excluded: set<T>)
    ensures AllDifferentExcept(a, excluded) <==> NoRepeatOutside(a, excluded)
  {
    if |a| > 0 {
      var x, t := a[0], a[1..];
      assert a == [x] + t;
      AllDifferentExceptIsPairwise(t, excluded);
      AllDifferentExceptCons(x, t, excluded);
      NoRepeatOutsideCons(x, t, excluded);
    }
  }

  lemma AllDifferentExceptCons<T>(x: T, t: seq<T>, excluded: set<T>)
    ensures AllDifferentExcept([x] + t, excluded)
        <==> (x in excluded || x !in t) && AllDifferentExcept(t, excluded)
  {
    var ca, ct := multiset([x] + t), multiset(t);
    assert ca == multiset{x} + ct;
    if AllDifferentExcept([x] + t, excluded) {
      forall v | v in ct ensures v in excluded || ct[v] == 1 {
        assert v in ca;
        assert ca[v] == ct[v] + (if v == x then 1 else 0);
      }
      if x !in excluded {
        assert x in ca && ca[x] == 1;
        assert ct[x] == 0;
      }
    }
  }

  lemma NoRepeatOutsideCons<T>(x: T, t: seq<T>, excluded: set<T>)
    ensures NoRepeatOutside([x] + t, excluded)
        <==> (x in excluded || x !in t) && NoRepeatOutside(t, excluded)
  {
    var a := [x] + t;
    if NoRepeatOutside(a, excluded) {
      forall i, j | 0 <= i < j < |t| && t[i] == t[j] ensures t[i] in excluded {
        assert a[i + 1] == t[i] && a[j + 1] == t[j];
      }
      if x in t {
        var j :| 0 <= j < |t| && t[j] == x;
        assert a[0] == x == a[j + 1];
        assert x in excluded;
      }
    }
    if (x in excluded || x !in t) && NoRepeatOutside(t, excluded) {
      forall i, j | 0 <= i < j < |a| && a[i] == a[j] ensures a[i] in excluded {
        if i == 0 {
          assert a[j] == t[j - 1] && t[j - 1] in t;
        } else {
          assert a[i] == t[i - 1] && a[j] == t[j - 1];
        }
      }
    }
  }

  /** An empty array has nothing to repeat. */
  lemma EmptyIsAllDifferent<T>(excluded: set<T>)
    ensures AllDifferentExcept([], excluded)
  {
  }

  /** Excluded values may repeat any number of times. */
  lemma {:induction false} ExcludedMayRepeat<T>(v: T, k: nat, excluded: set<T>)
    requires v in excluded
    ensures AllDifferentExcept(seq(k, _ => v), excluded)
  {
    var a := seq(k, _ => v);
    AllDifferentExceptIsPairwise(a, excluded);
  }

  /** A non-excluded value that occurs twice makes the result false. */
  lemma {:induction false} RepeatOutsideFails<T>(a: seq<T>, i: nat, j: nat, excluded: set<T>)
    requires i < j < |a| && a[i] == a[j] && a[i] !in excluded
    ensures !AllDifferentExcept(a, excluded)
  {
    AllDifferentExceptIsPairwise(a, excluded);
  }

  /** The result depends only on the multiset of elements. */
  lemma PermutationInvariant<T>(a: seq<T>, b: seq<T>, excluded: set<T>)
    requires multiset(a) == multiset(b)
    ensures AllDifferentExcept(a, excluded) == AllDifferentExcept(b, excluded)
  {
  }

  /** Enlarging the excluded set can only turn false into true. */
  lemma ExcludingMoreIsWeaker<T>(a: seq<T>, excluded: set<T>, more: set<T>)
    requires excluded <= more
    ensures AllDifferentExcept(a, excluded) ==> AllDifferentExcept(a, more)
  {
  }
}
