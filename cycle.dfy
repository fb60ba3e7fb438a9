/** The wraparound index step that the login screens use for the focused control
    (internal/tui/view/login/view.go:124-135, internal/server/view/login.go:105-116)
    and that SwitchTab uses for the selected tab (internal/tui/style/func.go:58-68):
    step, then reset to the other end when the index leaves [0, n). */
module Cycle {

  /** One step forward; past the last index it starts again at 0. */
  function Forward(i: int, n: int): (r: int)
    ensures 0 <= i < n ==> 0 <= r < n && r == (i + 1) % n
  {
    if i + 1 > n - 1 then 0 else i + 1
  }

  /** One step back; below 0 it starts again at the last index. */
  function Backward(i: int, n: int): (r: int)
    ensures 0 <= i < n ==> 0 <= r < n && r == (i - 1 + n) % n
  {
    if i - 1 < 0 then n - 1 else i - 1
  }

  /** Stepping back undoes stepping forward, and the other way round. */
  lemma ForwardBackwardInverse(i: int, n: int)
    requires 0 <= i < n
    ensures Backward(Forward(i, n), n) == i
    ensures Forward(Backward(i, n), n) == i
  {
  }

  /** `k` forward steps from `i`. */
  function ForwardIter(i: int, n: int, k: nat): int
    decreases k
  {
    if k == 0 then i else ForwardIter(Forward(i, n), n, k - 1)
  }

  lemma {:induction false} ForwardIterSplit(i: int, n: int, a: nat, b: nat)
    ensures ForwardIter(i, n, a + b) == ForwardIter(ForwardIter(i, n, a), n, b)
    decreases a
  {
    if a > 0 {
      ForwardIterSplit(Forward(i, n), n, a - 1, b);
    }
  }

  /** Before reaching the end, `k` steps just add `k`. */
  lemma {:induction false} ForwardIterNoWrap(i: int, n: int, k: nat)
    requires 0 <= i && i + k < n
    ensures ForwardIter(i, n, k) == i + k
    decreases k
  {
    if k > 0 {
      ForwardIterNoWrap(i + 1, n, k - 1);
    }
  }

  /** `n` forward steps bring every index in [0, n) back to itself. */
  lemma {:induction false} ForwardCycle(i: int, n: int)
    requires 0 <= i < n
    ensures ForwardIter(i, n, n) == i
  {
    var toLast := n - 1 - i;
    ForwardIterNoWrap(i, n, toLast);
    ForwardIterSplit(i, n, toLast, 1 + i);
    ForwardIterSplit(n - 1, n, 1, i);
    ForwardIterNoWrap(0, n, i);
  }

  /** Every iterate of an index in range stays in range. */
  lemma {:induction false} ForwardIterInRange(i: int, n: int, k: nat)
    requires 0 <= i < n
    ensures 0 <= ForwardIter(i, n, k) < n
    decreases k
  {
    if k > 0 {
      ForwardIterInRange(Forward(i, n), n, k - 1);
    }
  }
}
