/** A model of `Solution::twoSum`: a single pass over a vector of integers with
    a value -> index lookup table, returning the 0-based indices of two elements
    that add up to a target, or the empty vector when there are none. */
module TwoSum {

  datatype Option<T> = None | Some(value: T)

  // ---------------------------------------------------------------------------
  // What an answer is, independently of how it is found
  // ---------------------------------------------------------------------------

  /** Positions i < j of s whose values add up to t. */
  ghost predicate IsPair(s: seq<int>, t: int, i: int, j: int) {
    0 <= i < j < |s| && s[i] + s[j] == t
  }

  /** Some earlier position completes a pair with position j. */
  ghost predicate PairEndsAt(s: seq<int>, t: int, j: int) {
    exists i :: IsPair(s, t, i, j)
  }

  ghost predicate HasPair(s: seq<int>, t: int) {
    exists j :: PairEndsAt(s, t, j)
  }

  /** The pair the single pass picks: j is the first position that completes a
      pair, and i is the LAST earlier position holding the complement t - s[j]
      (the lookup table keeps the latest index of every value). */
  ghost predicate Chosen(s: seq<int>, t: int, i: int, j: int) {
    && IsPair(s, t, i, j)
    && (forall j' :: 0 <= j' < j ==> !PairEndsAt(s, t, j'))
    && (forall k :: i < k < j ==> s[k] != s[i])
  }

  /** r is what twoSum returns for s and t: the empty vector exactly when no
      pair exists, and otherwise the two-element vector of the chosen pair. */
  ghost predicate Answer(s: seq<int>, t: int, r: seq<int>) {
    || (r == [] && !HasPair(s, t))
    || (|r| == 2 && Chosen(s, t, r[0], r[1]))
  }

  // ---------------------------------------------------------------------------
  // The lookup table after a prefix has been scanned
  // ---------------------------------------------------------------------------

  /** The table after inserting s[0], ..., s[n-1] in order, each write
      `m[s[k]] = k` overwriting an earlier index of the same value. */
  function TableAfter(s: seq<int>, n: nat): (m: map<int, int>)
    requires n <= |s|
    ensures m.Keys == set k | 0 <= k < n :: s[k]
  {
    if n == 0 then map[] else TableAfter(s, n - 1)[s[n - 1] := n - 1]
  }

  /** The keys of m are exactly the values of s[..n], and every m[v] is the
      largest index below n that holds v. */
  ghost predicate IndexesLatest(s: seq<int>, n: nat, m: map<int, int>)
    requires n <= |s|
  {
    && (forall k :: 0 <= k < n ==> s[k] in m)
    && (forall v :: v in m ==>
          && 0 <= m[v] < n
          && s[m[v]] == v
          && (forall k :: m[v] < k < n ==> s[k] != v))
  }

  lemma {:induction false} TableAfterIndexesLatest(s: seq<int>, n: nat)
    requires n <= |s|
    ensures IndexesLatest(s, n, TableAfter(s, n))
  {
    if n > 0 {
      TableAfterIndexesLatest(s, n - 1);
      var m := TableAfter(s, n - 1);
      var m' := TableAfter(s, n);
      assert m' == m[s[n - 1] := n - 1];
      forall v | v in m'
        ensures 0 <= m'[v] < n && s[m'[v]] == v
        ensures forall k :: m'[v] < k < n ==> s[k] != v
      {
        if v != s[n - 1] {
          assert v in m && m'[v] == m[v];
        }
      }
    }
  }

  // ---------------------------------------------------------------------------
  // A map-free reference: scan ascending j, search the prefix for a complement
  // ---------------------------------------------------------------------------

  /** The largest k < j with s[k] == v, if there is one. */
  function LastIndexBefore(s: seq<int>, v: int, j: nat): (r: Option<nat>)
    requires j <= |s|
    ensures r.Some? ==> r.value < j && s[r.value] == v
    ensures r.Some? ==> forall k :: r.value < k < j ==> s[k] != v
    ensures r.None? <==> forall k :: 0 <= k < j ==> s[k] != v
  {
    if j == 0 then None
    else if s[j - 1] == v then Some(j - 1)
    else LastIndexBefore(s, v, j - 1)
  }

  /** The table lookup `m[v]` after j iterations is the largest index below j
      holding v: the table and the map-free search agree. */
  lemma TableAfterIsLastIndex(s: seq<int>, v: int, j: nat)
    requires j <= |s|
    ensures v in TableAfter(s, j) <==> LastIndexBefore(s, v, j).Some?
    ensures v in TableAfter(s, j) ==> TableAfter(s, j)[v] == LastIndexBefore(s, v, j).value
  {
    TableAfterIndexesLatest(s, j);
    var m := TableAfter(s, j);
    var r := LastIndexBefore(s, v, j);
    if r.Some? {
      assert v in m;
    }
  }

  function PairFrom(s: seq<int>, t: int, j: nat): seq<int>
    requires j <= |s|
    decreases |s| - j
  {
    if j == |s| then []
    else match LastIndexBefore(s, t - s[j], j)
      case Some(i) => [i, j]
      case None => PairFrom(s, t, j + 1)
  }

  /** The quadratic reference: the pair twoSum returns, found without a table. */
  function ReferencePair(s: seq<int>, t: int): seq<int> {
    PairFrom(s, t, 0)
  }

  lemma {:induction false} PairFromIsAnswer(s: seq<int>, t: int, j: nat)
    requires j <= |s|
    requires forall j' :: 0 <= j' < j ==> !PairEndsAt(s, t, j')
    ensures Answer(s, t, PairFrom(s, t, j))
    decreases |s| - j
  {
    if j == |s| {
      assert !HasPair(s, t);
    } else {
      match LastIndexBefore(s, t - s[j], j)
      case Some(i) =>
        assert IsPair(s, t, i, j);
      case None =>
        assert !PairEndsAt(s, t, j);
        PairFromIsAnswer(s, t, j + 1);
    }
  }

  lemma ReferencePairIsAnswer(s: seq<int>, t: int)
    ensures Answer(s, t, ReferencePair(s, t))
  {
    PairFromIsAnswer(s, t, 0);
  }

  // ---------------------------------------------------------------------------
  // Properties of the answer
  // ---------------------------------------------------------------------------

  /** A returned pair is a valid pair of distinct 0-based positions, first < second. */
  lemma AnswerIsSound(s: seq<int>, t: int, r: seq<int>)
    requires Answer(s, t, r) && r != []
    ensures |r| == 2 && 0 <= r[0] < r[1] < |s| && s[r[0]] + s[r[1]] == t
  {
  }

  /** The result is empty exactly when no two positions add up to t. */
  lemma {:induction false} AnswerEmptyIff(s: seq<int>, t: int, r: seq<int>)
    requires Answer(s, t, r)
    ensures r == [] <==> forall i, j :: 0 <= i < j < |s| ==> s[i] + s[j] != t
  {
    if r == [] {
      forall i, j | 0 <= i < j < |s| ensures s[i] + s[j] != t {
        if s[i] + s[j] == t {
          assert IsPair(s, t, i, j) && PairEndsAt(s, t, j);
        }
      }
    }
  }

  /** The second index is the smallest position that completes any pair. */
  lemma AnswerSecondIsEarliest(s: seq<int>, t: int, r: seq<int>, i: int, j: int)
    requires Answer(s, t, r) && r != []
    requires 0 <= i < j < |s| && s[i] + s[j] == t
    ensures r[1] <= j
  {
    if j < r[1] {
      assert IsPair(s, t, i, j) && PairEndsAt(s, t, j);
    }
  }

  /** The first index is the largest position before the second one that holds
      the complement: an earlier occurrence of the same value is overwritten. */
  lemma AnswerFirstIsLatest(s: seq<int>, t: int, r: seq<int>, k: int)
    requires Answer(s, t, r) && r != []
    requires 0 <= k < r[1] && s[k] == t - s[r[1]]
    ensures k <= r[0]
  {
  }

  /** At most one result satisfies the description, so twoSum is deterministic:
      two calls on the same input give the same vector. */
  lemma {:induction false} AnswerIsUnique(s: seq<int>, t: int, r1: seq<int>, r2: seq<int>)
    requires Answer(s, t, r1) && Answer(s, t, r2)
    ensures r1 == r2
  {
    if r1 != [] && r2 != [] {
      assert r1[1] == r2[1] by {
        assert PairEndsAt(s, t, r1[1]) && PairEndsAt(s, t, r2[1]);
      }
      assert r1 == [r1[0], r1[1]] && r2 == [r2[0], r2[1]];
    } else if r1 != [] {
      assert PairEndsAt(s, t, r1[1]);
    } else if r2 != [] {
      assert PairEndsAt(s, t, r2[1]);
    }
  }

  /** Every answer is the one the map-free reference scan computes. */
  lemma AnswerIsReferencePair(s: seq<int>, t: int, r: seq<int>)
    requires Answer(s, t, r)
    ensures r == ReferencePair(s, t)
  {
    ReferencePairIsAnswer(s, t);
    AnswerIsUnique(s, t, r, ReferencePair(s, t));
  }

  /** Inputs with fewer than two elements give the empty result. */
  lemma ShortInputIsEmpty(s: seq<int>, t: int, r: seq<int>)
    requires Answer(s, t, r) && |s| < 2
    ensures r == []
  {
  }

  // ---------------------------------------------------------------------------
  // Solution::twoSum
  // ---------------------------------------------------------------------------

  /** A hit at iteration i: the complement is a key of the table, so the pair
      returned is the chosen one. */
  lemma HitIsChosen(s: seq<int>, t: int, i: nat)
    requires i < |s| && t - s[i] in TableAfter(s, i)
    requires forall j :: 0 <= j < i ==> !PairEndsAt(s, t, j)
    ensures Chosen(s, t, TableAfter(s, i)[t - s[i]], i)
  {
    TableAfterIndexesLatest(s, i);
    HitWith(s, t, i, TableAfter(s, i));
  }

  lemma HitWith(s: seq<int>, t: int, i: nat, m: map<int, int>)
    requires i < |s| && IndexesLatest(s, i, m) && t - s[i] in m
    requires forall j :: 0 <= j < i ==> !PairEndsAt(s, t, j)
    ensures Chosen(s, t, m[t - s[i]], i)
  {
  }

  /** A miss at iteration i: the complement is not a key, so no pair ends at i. */
  lemma MissEndsNoPair(s: seq<int>, t: int, i: nat)
    requires i < |s| && t - s[i] !in TableAfter(s, i)
    ensures !PairEndsAt(s, t, i)
  {
    TableAfterIndexesLatest(s, i);
    MissWith(s, t, i, TableAfter(s, i));
  }

  lemma MissWith(s: seq<int>, t: int, i: nat, m: map<int, int>)
    requires i < |s| && IndexesLatest(s, i, m) && t - s[i] !in m
    ensures !PairEndsAt(s, t, i)
  {
    forall k | 0 <= k < i ensures !IsPair(s, t, k, i) {
      assert s[k] in m;
    }
  }

  /** One pass with a value -> index table. nums has no modifies clause: it is
      only read, although the source takes it by non-const reference. */
  method TwoSum(nums: array<int>, target: int) returns (r: seq<int>)
    ensures Answer(nums[..], target, r)
    ensures r == ReferencePair(nums[..], target)
  {
    ghost var s := nums[..];
    var m: map<int, int> := map[];
    var i := 0;
    while i < nums.Length
      invariant 0 <= i <= nums.Length
      invariant m == TableAfter(s, i)
      invariant forall j :: 0 <= j < i ==> !PairEndsAt(s, target, j)
    {
      var left := target - nums[i];
      if left in m {
        r := [m[left], i];
        HitIsChosen(s, target, i);
        AnswerIsReferencePair(s, target, r);
        return;
      } else {
        MissEndsNoPair(s, target, i);
        m := m[nums[i] := i];
      }
      i := i + 1;
    }
    r := [];
    AnswerIsReferencePair(s, target, r);
  }

  // ---------------------------------------------------------------------------
  // Concrete cases
  // ---------------------------------------------------------------------------

  /** The input of the source's main: {0,3,4,5,6} with target 6 gives {0,4}. */
  lemma MainInputAnswer(r: seq<int>)
    requires Answer([0, 3, 4, 5, 6], 6, r)
    ensures r == [0, 4]
  {
    ReferencePairIsAnswer([0, 3, 4, 5, 6], 6);
    AnswerIsUnique([0, 3, 4, 5, 6], 6, r, ReferencePair([0, 3, 4, 5, 6], 6));
  }

  /** The header's example {2,7,11,15}, 9 gives the 0-based {0,1}, not the
      1-based {1,2} of the comment. */
  lemma HeaderExampleIsZeroBased(r: seq<int>)
    requires Answer([2, 7, 11, 15], 9, r)
    ensures r == [0, 1] && r != [1, 2]
  {
    ReferencePairIsAnswer([2, 7, 11, 15], 9);
    AnswerIsUnique([2, 7, 11, 15], 9, r, ReferencePair([2, 7, 11, 15], 9));
  }

  /** Equal values: {3,3}, 6 gives {0,1}. */
  lemma DuplicateValuesAnswer(r: seq<int>)
    requires Answer([3, 3], 6, r)
    ensures r == [0, 1]
  {
    ReferencePairIsAnswer([3, 3], 6);
    AnswerIsUnique([3, 3], 6, r, ReferencePair([3, 3], 6));
  }

  /** {1,2,3,4}, 100 has no pair. */
  lemma NoPairAnswer(r: seq<int>)
    requires Answer([1, 2, 3, 4], 100, r)
    ensures r == []
  {
  }

  /** {1,1,5}, 6: the overwrite at index 1 makes the answer {1,2}, not the
      first-occurrence pair {0,2}. */
  lemma OverwriteKeepsLatest(r: seq<int>)
    requires Answer([1, 1, 5], 6, r)
    ensures r == [1, 2] && r != [0, 2]
  {
    ReferencePairIsAnswer([1, 1, 5], 6);
    AnswerIsUnique([1, 1, 5], 6, r, ReferencePair([1, 1, 5], 6));
  }

  /** The computation of the source's main, without the printing. */
  method MainExample() returns (answer: seq<int>)
    ensures answer == [0, 4]
  {
    var nums := new int[5];
    nums[0], nums[1], nums[2], nums[3], nums[4] := 0, 3, 4, 5, 6;
    assert nums[..] == [0, 3, 4, 5, 6];
    answer := TwoSum(nums, 6);
    MainInputAnswer(answer);
  }
}
