/**
 The testimonial carousel of the landing page: a wrap-around pointer over a
 fixed, non-empty list of testimonials. The pointer moves forward, backward,
 or jumps to the position of an indicator button.
 */
module Carousel {

  /** One testimonial card: who said it, what they said, and their picture. */
  datatype Testimonial = Testimonial(name: string, text: string, image: string)

  /** The list as shipped: a single testimonial. The quote and the picture
      address are presentation content, so they are left abstract here. */
  const Shipped: seq<Testimonial> := [Testimonial("Maria Beatriz", "(quote)", "(picture)")]

  /** The pointer starts on the first testimonial. */
  const Start: nat := 0

  /** JavaScript's `%`: the remainder truncates toward zero, so it takes the
      sign of the dividend (Dafny's own `%` never returns a negative value).
      The contract pins the value down: a remainder of a modulo b, of the
      dividend's sign and smaller than b in magnitude. */
  function JsRem(a: int, b: nat): (r: int)
    requires b >= 1
    ensures -(b as int) < r < b
    ensures a >= 0 ==> r >= 0
    ensures a <= 0 ==> r <= 0
    ensures (a - r) % b == 0
    ensures a >= 0 ==> r == a % b
  {
    if a >= 0 then
      RemainderLeavesMultiple(a, b);
      a % b
    else
      RemainderLeavesMultiple(-a, b);
      -((-a) % b)
  }

  /** Removing the remainder leaves a multiple of the divisor, on either side of zero. */
  lemma RemainderLeavesMultiple(x: int, b: nat)
    requires b >= 1
    ensures (x - x % b) % b == 0
    ensures (-(x - x % b)) % b == 0
  {
    var q := x / b;
    assert x - x % b == q * b + 0;
    ModShift(q, 0, b);
    assert -(x - x % b) == (-q) * b + 0;
    ModShift(-q, 0, b);
  }

  /** A pointer position is valid when it selects one of the n testimonials. */
  predicate Valid(i: int, n: nat) {
    0 <= i < n
  }

  /** The "next" arrow: one step forward, wrapping from the last card to the first. */
  function Next(i: nat, n: nat): (j: nat)
    requires n >= 1
    ensures Valid(j, n)
    ensures i < n ==> j == if i == n - 1 then 0 else i + 1
  {
    JsRem(i + 1, n)
  }

  /** The "previous" arrow: one step back, wrapping from the first card to the last. */
  function Prev(i: nat, n: nat): (j: nat)
    requires n >= 1
    ensures Valid(j, n)
    ensures i < n ==> j == if i == 0 then n - 1 else i - 1
  {
    JsRem(i - 1 + n, n)
  }

  /** The targets of the indicator buttons, one per testimonial in list order:
      the button drawn for the k-th testimonial jumps to position k. */
  function Indicators(n: nat): (ts: seq<nat>)
    ensures |ts| == n
    ensures forall k :: 0 <= k < n ==> ts[k] == k
  {
    if n == 0 then [] else Indicators(n - 1) + [n - 1]
  }

  /** Clicking the indicator button with the given position in the row. */
  function Jump(button: nat, n: nat): (j: nat)
    requires button < n
    ensures Valid(j, n)
    ensures j == button
  {
    Indicators(n)[button]
  }

  /** A user action on the carousel. */
  datatype Nav = Forward | Back | Indicator(button: nat)

  /** Apply one action. An indicator outside the drawn row is not a button
      anyone can press, so it leaves the pointer where it is. */
  function Apply(i: nat, n: nat, e: Nav): (j: nat)
    requires n >= 1
    ensures Valid(j, n) || j == i
    ensures Valid(i, n) ==> Valid(j, n)
  {
    match e
    case Forward => Next(i, n)
    case Back => Prev(i, n)
    case Indicator(b) => if b < n then Jump(b, n) else i
  }

  /** Apply a sequence of actions in order. */
  function Navigate(i: nat, n: nat, es: seq<Nav>): nat
    requires n >= 1
    decreases |es|
  {
    if |es| == 0 then i else Navigate(Apply(i, n, es[0]), n, es[1..])
  }

  /** Pressing "next" k times. */
  function NextTimes(i: nat, n: nat, k: nat): nat
    requires n >= 1
  {
    if k == 0 then i else Next(NextTimes(i, n, k - 1), n)
  }

  /** Pressing "previous" k times. */
  function PrevTimes(i: nat, n: nat, k: nat): nat
    requires n >= 1
  {
    if k == 0 then i else Prev(PrevTimes(i, n, k - 1), n)
  }

  /** Every action, from any starting point, leaves the pointer in range when it started there. */
  lemma {:induction false} NavigateStaysValid(i: nat, n: nat, es: seq<Nav>)
    requires n >= 1 && Valid(i, n)
    ensures Valid(Navigate(i, n, es), n)
    decreases |es|
  {
    if |es| > 0 {
      NavigateStaysValid(Apply(i, n, es[0]), n, es[1..]);
    }
  }

  /** "previous" undoes "next", and "next" undoes "previous". */
  lemma NextPrevInverse(i: nat, n: nat)
    requires n >= 1 && Valid(i, n)
    ensures Prev(Next(i, n), n) == i
    ensures Next(Prev(i, n), n) == i
  {
  }

  lemma ModSucc(x: int, n: nat)
    requires n >= 1
    ensures (x % n + 1) % n == (x + 1) % n
  {
    var q, r := x / n, x % n;
    assert x == q * n + r;
    if r == n - 1 {
      assert (q + 1) * n == q * n + n;
      ModShift(q + 1, 0, n);
      ModShift(1, 0, n);
    } else {
      ModShift(q, r + 1, n);
      ModShift(0, r + 1, n);
    }
  }

  lemma ModPred(x: int, n: nat)
    requires n >= 1
    ensures (if x % n == 0 then n - 1 else x % n - 1) == (x - 1) % n
  {
    var q, r := x / n, x % n;
    assert x == q * n + r;
    if r == 0 {
      assert (q - 1) * n == q * n - n;
      ModShift(q - 1, n - 1, n);
    } else {
      ModShift(q, r - 1, n);
    }
  }

  lemma ModShift(q: int, r: int, n: nat)
    requires n >= 1 && 0 <= r < n
    ensures (q * n + r) % n == r
  {
    var x := q * n + r;
    var q', r' := x / n, x % n;
    assert x == q' * n + r';
    var d := q - q';
    assert d * n == r' - r;
    if d >= 1 {
      MulAtLeast(d, n);
    } else if d <= -1 {
      MulAtLeast(-d, n);
    }
  }

  lemma MulAtLeast(d: int, n: nat)
    requires d >= 1
    ensures d * n >= n
  {
  }

  /** Pressing "next" k times from position i lands on position (i + k) mod n. */
  lemma {:induction false} NextTimesIsShift(i: nat, n: nat, k: nat)
    requires n >= 1 && Valid(i, n)
    ensures NextTimes(i, n, k) == (i + k) % n
  {
    if k == 0 {
      assert i % n == i by { ModShift(0, i, n); }
    } else {
      NextTimesIsShift(i, n, k - 1);
      ModSucc(i + k - 1, n);
      assert Next((i + k - 1) % n, n) == ((i + k - 1) % n + 1) % n;
    }
  }

  /** Pressing "previous" k times from position i lands on position (i - k) mod n. */
  lemma {:induction false} PrevTimesIsShift(i: nat, n: nat, k: nat)
    requires n >= 1 && Valid(i, n)
    ensures PrevTimes(i, n, k) == (i - k) % n
  {
    if k == 0 {
      assert i % n == i by { ModShift(0, i, n); }
    } else {
      PrevTimesIsShift(i, n, k - 1);
      ModPred(i - k + 1, n);
    }
  }

  /** Going all the way round, forward or backward, returns to the starting card. */
  lemma FullCycle(i: nat, n: nat)
    requires n >= 1 && Valid(i, n)
    ensures NextTimes(i, n, n) == i
    ensures PrevTimes(i, n, n) == i
    ensures forall k :: 0 < k < n ==> NextTimes(i, n, k) != i
  {
    NextTimesIsShift(i, n, n);
    PrevTimesIsShift(i, n, n);
    ModShift(1, i, n);
    ModShift(-1, i, n);
    forall k | 0 < k < n
      ensures NextTimes(i, n, k) != i
    {
      NextTimesIsShift(i, n, k);
      if i + k < n {
        ModShift(0, i + k, n);
      } else {
        ModShift(1, i + k - n, n);
      }
    }
  }

  /** With a single testimonial nothing the user does moves the pointer off it.
      The page draws the arrows and indicators only when there is more than
      one testimonial, so in that case they are not even offered. */
  lemma SingleCardNeverMoves(i: nat, e: Nav)
    requires Valid(i, 1)
    ensures Apply(i, 1, e) == 0
  {
  }

  /** The list as shipped holds one testimonial, so "next" and "previous" both
      stay on the first card. */
  lemma ShippedListStaysAtStart()
    ensures |Shipped| == 1
    ensures Next(Start, |Shipped|) == Start
    ensures Prev(Start, |Shipped|) == Start
  {
  }
}
