/**
  Circular navigation over the detail images of one car.

  The index and the image count are Kotlin `Int`s. The two
  transition functions are total over `int`, exactly like the click handlers,
  which never check their input; the contracts then say what happens when the
  index is in range, which is the only case the rest of the model produces.
 */
module Carousel {

  /** `i` may be used as a subscript into a sequence of `n` images. */
  predicate ValidIndex(i: int, n: int) {
    0 <= i < n
  }

  /** The "Previous Image" button: step back one image, wrapping from the first
      image to the last one. */
  function Previous(i: int, n: int): (r: int)
    ensures ValidIndex(i, n) ==> ValidIndex(r, n)
    // the single-image carousel is the only one on which this is a no-op
    ensures ValidIndex(i, n) ==> (r == i <==> n == 1)
    // it lands on the last image exactly when it starts from the first one
    ensures ValidIndex(i, n) ==> (r == n - 1 <==> i == 0)
  {
    if i > 0 then i - 1 else n - 1
  }

  /** The "Next Image" button: step forward one image, wrapping from the last
      image to the first one. */
  function Next(i: int, n: int): (r: int)
    ensures ValidIndex(i, n) ==> ValidIndex(r, n)
    // the single-image carousel is the only one on which this is a no-op
    ensures ValidIndex(i, n) ==> (r == i <==> n == 1)
    // it lands on the first image exactly when it starts from the last one
    ensures ValidIndex(i, n) ==> (r == 0 <==> i == n - 1)
  {
    if i < n - 1 then i + 1 else 0
  }

  /** Next and Previous undo each other on every valid index. */
  lemma NextPreviousInverse(i: int, n: int)
    requires ValidIndex(i, n)
    ensures Next(Previous(i, n), n) == i
    ensures Previous(Next(i, n), n) == i
  {
  }

  /** Reference definition: Next is the successor modulo `n`. */
  lemma NextIsSuccessorModulo(i: int, n: int)
    requires ValidIndex(i, n)
    ensures Next(i, n) == (i + 1) % n
  {
  }

  /** Reference definition: Previous is the predecessor modulo `n`. Dafny's `%`
      is Euclidean, so `(0 - 1) % n == n - 1`; for `n >= 2` Kotlin's `%` would
      give -1 here, which is why the Kotlin click handler spells out the
      wrap-around with an `if`. */
  lemma PreviousIsPredecessorModulo(i: int, n: int)
    requires ValidIndex(i, n)
    ensures Previous(i, n) == (i - 1) % n
  {
  }

  /** `k` presses of "Next Image" starting from index `i`. */
  function NextTimes(i: int, n: int, k: nat): int
  {
    if k == 0 then i else Next(NextTimes(i, n, k - 1), n)
  }

  /** `k` presses of "Previous Image" starting from index `i`. */
  function PreviousTimes(i: int, n: int, k: nat): int
  {
    if k == 0 then i else Previous(PreviousTimes(i, n, k - 1), n)
  }

  /** The remainder of `a` is determined by any decomposition `a == q * n + r`
      with `0 <= r < n`. */
  lemma ModOfDecomposition(a: int, q: int, n: int, r: int)
    requires n > 0 && 0 <= r < n && a == q * n + r
    ensures a % n == r
  {
    var q', r' := a / n, a % n;
    assert a == q' * n + r';
    if q' < q {
      assert (q - q') * n >= n by { MulAtLeastOne(q - q', n); }
      assert false;
    } else if q' > q {
      assert (q' - q) * n >= n by { MulAtLeastOne(q' - q, n); }
      assert false;
    }
  }

  lemma MulAtLeastOne(d: int, n: int)
    requires d >= 1 && n > 0
    ensures d * n >= n
  {
  }

  /** Stepping the remainder of `m` forward is stepping `m` forward. */
  lemma SuccessorOfRemainder(m: int, n: int)
    requires n > 0
    ensures Next(m % n, n) == (m + 1) % n
  {
    var q, r := m / n, m % n;
    assert m == q * n + r;
    if r < n - 1 {
      ModOfDecomposition(m + 1, q, n, r + 1);
    } else {
      assert m + 1 == (q + 1) * n + 0;
      ModOfDecomposition(m + 1, q + 1, n, 0);
    }
  }

  /** Stepping the remainder of `m` back is stepping `m` back. */
  lemma PredecessorOfRemainder(m: int, n: int)
    requires n > 0
    ensures Previous(m % n, n) == (m - 1) % n
  {
    var q, r := m / n, m % n;
    assert m == q * n + r;
    if r > 0 {
      ModOfDecomposition(m - 1, q, n, r - 1);
    } else {
      assert m - 1 == (q - 1) * n + (n - 1);
      ModOfDecomposition(m - 1, q - 1, n, n - 1);
    }
  }

  /** `k` presses of "Next Image" advance the index by `k` modulo `n`. */
  lemma {:induction false} NextTimesModulo(i: int, n: int, k: nat)
    requires ValidIndex(i, n)
    ensures NextTimes(i, n, k) == (i + k) % n
  {
    if k == 0 {
      ModOfDecomposition(i, 0, n, i);
    } else {
      NextTimesModulo(i, n, k - 1);
      SuccessorOfRemainder(i + k - 1, n);
    }
  }

  /** `k` presses of "Previous Image" move the index back by `k` modulo `n`. */
  lemma {:induction false} PreviousTimesModulo(i: int, n: int, k: nat)
    requires ValidIndex(i, n)
    ensures PreviousTimes(i, n, k) == (i - k) % n
  {
    if k == 0 {
      ModOfDecomposition(i, 0, n, i);
    } else {
      PreviousTimesModulo(i, n, k - 1);
      PredecessorOfRemainder(i - (k - 1), n);
    }
  }

  /** Pressing "Next Image" once per image comes back to the starting image. */
  lemma NextPeriodic(i: int, n: int)
    requires ValidIndex(i, n)
    ensures NextTimes(i, n, n) == i
  {
    NextTimesModulo(i, n, n);
    ModOfDecomposition(i + n, 1, n, i);
  }

  /** Pressing "Previous Image" once per image comes back to the starting image. */
  lemma PreviousPeriodic(i: int, n: int)
    requires ValidIndex(i, n)
    ensures PreviousTimes(i, n, n) == i
  {
    PreviousTimesModulo(i, n, n);
    ModOfDecomposition(i - n, -1, n, i);
  }

  /** From the first image, `k < n` presses of "Next Image" show image `k`:
      every image of the car can be reached. */
  lemma NextTimesFromFirst(n: int, k: nat)
    requires k < n
    ensures NextTimes(0, n, k) == k
  {
    NextTimesModulo(0, n, k);
    ModOfDecomposition(k, 0, n, k);
  }
}
