/**
 * The LINQ operators the services compose: `FirstOrDefault`, `SingleOrDefault`, `Where`,
 * `OrderBy` / `OrderByDescending` and `Take`, each as a function over a sequence.
 */
module Collections {
  import opened Wrappers

  /** Position of the first element satisfying `p` (the element `FirstOrDefault(p)` returns). */
  function FirstIndexWhere<T>(s: seq<T>, p: T -> bool): (r: Option<nat>)
    ensures r.None? <==> forall i | 0 <= i < |s| :: !p(s[i])
    ensures r.Some? ==> r.value < |s| && p(s[r.value]) && forall j | 0 <= j < r.value :: !p(s[j])
  {
    if |s| == 0 then None
    else if p(s[0]) then Some(0)
    else match FirstIndexWhere(s[1..], p)
      case None => None
      case Some(i) => Some(i + 1)
  }

  /** `FirstOrDefault(p)`: the first element satisfying `p`, or `None`. */
  function FirstWhere<T>(s: seq<T>, p: T -> bool): (r: Option<T>)
    ensures r.None? <==> forall i | 0 <= i < |s| :: !p(s[i])
    ensures r.Some? ==> r.value in s && p(r.value)
  {
    match FirstIndexWhere(s, p)
    case None => None
    case Some(i) => Some(s[i])
  }

  /** An element appended behind elements that all fail `p` is the first match. */
  lemma {:induction false} FirstIndexWhereAppend<T>(s: seq<T>, x: T, p: T -> bool)
    requires forall i | 0 <= i < |s| :: !p(s[i])
    requires p(x)
    ensures FirstIndexWhere(s + [x], p) == Some(|s|)
  {
    if |s| > 0 {
      assert (s + [x])[1..] == s[1..] + [x];
      FirstIndexWhereAppend(s[1..], x, p);
    }
  }

  /** Appending elements behind an existing match does not change the first match. */
  lemma {:induction false} FirstIndexWhereExtend<T>(s: seq<T>, t: seq<T>, p: T -> bool)
    requires FirstIndexWhere(s, p).Some?
    ensures FirstIndexWhere(s + t, p) == FirstIndexWhere(s, p)
  {
    if !p(s[0]) {
      assert (s + t)[1..] == s[1..] + t;
      FirstIndexWhereExtend(s[1..], t, p);
    }
  }

  /** The three outcomes of `SingleOrDefault(p)`: no match (null), exactly one, or several (it throws). */
  datatype Single = NoMatch | OneMatch(index: nat) | ManyMatches

  function SingleIndexWhere<T>(s: seq<T>, p: T -> bool): (r: Single)
    ensures r == NoMatch <==> forall i | 0 <= i < |s| :: !p(s[i])
    ensures r.OneMatch? ==>
              && r.index < |s| && p(s[r.index])
              && forall j | 0 <= j < |s| && j != r.index :: !p(s[j])
    ensures r == ManyMatches <==> exists i, j | 0 <= i < j < |s| :: p(s[i]) && p(s[j])
  {
    match FirstIndexWhere(s, p)
    case None => NoMatch
    case Some(i) =>
      match FirstIndexWhere(s[i + 1..], p)
      case Some(j) =>
        assert s[i + 1..][j] == s[i + 1 + j];
        ManyMatches
      case None =>
        assert forall j | i < j < |s| :: s[j] == s[i + 1..][j - i - 1];
        OneMatch(i)
  }

  /** `Where(p)`: the elements satisfying `p`, in their original order. Each element satisfying `p`
      is kept as often as it occurs, every other element is dropped. */
  function Filter<T>(s: seq<T>, p: T -> bool): (r: seq<T>)
    ensures |r| <= |s|
    ensures forall i | 0 <= i < |r| :: p(r[i])
    ensures multiset(r) <= multiset(s)
    ensures forall x | x in s && p(x) :: multiset(r)[x] == multiset(s)[x]
  {
    if |s| == 0 then []
    else
      assert s == [s[0]] + s[1..];
      if p(s[0]) then [s[0]] + Filter(s[1..], p) else Filter(s[1..], p)
  }

  /** A weaker predicate keeps at least as many elements. */
  lemma {:induction false} FilterMonotone<T>(s: seq<T>, p: T -> bool, q: T -> bool)
    requires forall x :: p(x) ==> q(x)
    ensures |Filter(s, p)| <= |Filter(s, q)|
  {
    if |s| > 0 {
      FilterMonotone(s[1..], p, q);
    }
  }

  /** No two elements share a key (a primary key or a unique index). */
  ghost predicate UniqueBy<T, K>(s: seq<T>, key: T -> K) {
    forall i, j | 0 <= i < j < |s| :: key(s[i]) != key(s[j])
  }

  /** Under a unique key, an element is identified by its key. */
  lemma UniqueByIdentifies<T, K>(s: seq<T>, key: T -> K, x: T, y: T)
    requires UniqueBy(s, key)
    requires x in s && y in s && key(x) == key(y)
    ensures x == y
  {
    var i :| 0 <= i < |s| && s[i] == x;
    var j :| 0 <= j < |s| && s[j] == y;
    if i < j {
      assert false;
    } else if j < i {
      assert false;
    }
  }

  /** The keys run 1, 2, 3, ... in order: how the store numbers an identity column. */
  ghost predicate NumberedFromOne<T>(s: seq<T>, key: T -> nat) {
    forall i | 0 <= i < |s| :: key(s[i]) == i + 1
  }

  /** A numbered table has a unique key. */
  lemma NumberedIsUnique<T>(s: seq<T>, key: T -> nat)
    requires NumberedFromOne(s, key)
    ensures UniqueBy(s, key)
  {
  }

  /** `Take(n)`: at most the first `n` elements. */
  function Take<T>(s: seq<T>, n: nat): (r: seq<T>)
    ensures |r| == if n < |s| then n else |s|
    ensures r == s[..|r|]
  {
    if n < |s| then s[..n] else s
  }

  lemma TakeSubMultiset<T>(s: seq<T>, n: nat)
    ensures multiset(Take(s, n)) <= multiset(s)
  {
    var r := Take(s, n);
    assert s == r + s[|r|..];
  }

  /** `le` is a total preorder: the kind of key comparison `OrderBy` needs. */
  ghost predicate TotalPreorder<T(!new)>(le: (T, T) -> bool) {
    && (forall a, b :: le(a, b) || le(b, a))
    && (forall a, b, c :: le(a, b) && le(b, c) ==> le(a, c))
  }

  ghost predicate SortedBy<T>(s: seq<T>, le: (T, T) -> bool) {
    forall i, j | 0 <= i < j < |s| :: le(s[i], s[j])
  }

  /** Insert `x` in front of the first element it may precede. */
  function Insert<T(!new)>(x: T, s: seq<T>, le: (T, T) -> bool): (r: seq<T>)
    ensures multiset(r) == multiset(s) + multiset{x}
  {
    if |s| == 0 then [x]
    else if le(x, s[0]) then [x] + s
    else
      assert s == [s[0]] + s[1..];
      [s[0]] + Insert(x, s[1..], le)
  }

  /** A common lower bound of `x` and of every element of `s` bounds the result of the insertion. */
  lemma {:induction false} InsertLowerBound<T(!new)>(b: T, x: T, s: seq<T>, le: (T, T) -> bool)
    requires le(b, x)
    requires forall j | 0 <= j < |s| :: le(b, s[j])
    ensures forall j | 0 <= j < |Insert(x, s, le)| :: le(b, Insert(x, s, le)[j])
  {
    if |s| > 0 && !le(x, s[0]) {
      InsertLowerBound(b, x, s[1..], le);
    }
  }

  /** Insertion keeps a sorted sequence sorted. */
  lemma {:induction false} InsertSorted<T(!new)>(x: T, s: seq<T>, le: (T, T) -> bool)
    requires TotalPreorder(le)
    requires SortedBy(s, le)
    ensures SortedBy(Insert(x, s, le), le)
  {
    if |s| == 0 {
    } else if le(x, s[0]) {
      assert forall j | 0 < j < |s| :: le(s[0], s[j]);
    } else {
      InsertSorted(x, s[1..], le);
      assert le(s[0], x);
      InsertLowerBound(s[0], x, s[1..], le);
    }
  }

  /** `OrderBy` with the comparison `le`: a sorted permutation of `s`. */
  function InsertionSort<T(!new)>(s: seq<T>, le: (T, T) -> bool): (r: seq<T>)
    requires TotalPreorder(le)
    ensures SortedBy(r, le)
    ensures multiset(r) == multiset(s)
    ensures |r| == |s|
  {
    if |s| == 0 then []
    else
      assert s == [s[0]] + s[1..];
      var rest := InsertionSort(s[1..], le);
      InsertSorted(s[0], rest, le);
      var r := Insert(s[0], rest, le);
      assert |r| == |multiset(r)|;
      r
  }
}
