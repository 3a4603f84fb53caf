/** Unbiased draws below a bound, the shuffle built on them, and words with a chosen number
    of bits set at random places. */
module RandUtils {

  // ---------- Where the randomness comes from ----------

  /** rand(): an endless stream of values from 0 to RAND_MAX. */
  class Rand {
    const randMax: nat
    const draws: nat -> nat
    var used: nat

    /** Draws are in range, and whatever the bound, acceptable ones never stop coming. */
    ghost predicate Valid() {
      && (forall i :: draws(i) <= randMax)
      && forall i: nat, n: nat :: 0 < n <= randMax ==> Ends(draws, randMax, i, n)
    }

    constructor (randMax: nat, draws: nat -> nat)
      ensures this.randMax == randMax && this.draws == draws && used == 0
    {
      this.randMax := randMax;
      this.draws := draws;
      used := 0;
    }

    method Next() returns (r: nat)
      modifies this
      ensures used == old(used) + 1
      ensures r == draws(old(used))
    {
      r := draws(used);
      used := used + 1;
    }

    /** Rejection sampling: the first draw below the largest multiple of `n`, modulo `n`. The
        loop ends only if there is such a draw to come. */
    method RandTo(n: nat) returns (r: nat)
      requires 0 < n <= randMax && Ends(draws, randMax, used, n)
      modifies this
      ensures r < n && Accepted(draws, randMax, old(used), used, n, r)
      ensures old(used) < used && r == draws(used - 1) % n && draws(used - 1) < (randMax / n) * n
      ensures forall i | old(used) <= i < used - 1 :: draws(i) >= (randMax / n) * n
    {
      var maxRand := (randMax / n) * n;
      ghost var small: nat :| used <= small && IsAccepted(draws(small), randMax, n);
      r := Next();
      while r >= maxRand
        invariant old(used) < used && r == draws(used - 1)
        invariant used - 1 <= small
        invariant forall i | old(used) <= i < used - 1 :: draws(i) >= maxRand
        decreases small - used
      {
        r := Next();
      }
      r := r % n;
    }
  }

  /** The draws below this bound are accepted. */
  function Limit(randMax: nat, n: nat): nat
    requires n > 0
  {
    (randMax / n) * n
  }

  /** Of the draws from `from` up to `to` only the last is accepted, and it gives `r`. */
  ghost predicate Accepted(draws: nat -> nat, randMax: nat, from: nat, to: nat, n: nat, r: nat)
    requires n > 0
  {
    && from < to
    && (forall i | from <= i < to - 1 :: draws(i) >= Limit(randMax, n))
    && draws(to - 1) < Limit(randMax, n)
    && r == draws(to - 1) % n
  }

  /** The choices of a shuffle of n elements, one accepted draw after the other. */
  ghost predicate Drawn(draws: nat -> nat, randMax: nat, from: nat, to: nat, n: nat, js: seq<nat>)
    requires |js| < n
    decreases |js|
  {
    if js == [] then from == to
    else
      var m := |js| - 1;
      exists mid: nat ::
        Drawn(draws, randMax, from, mid, n, js[..m]) && Accepted(draws, randMax, mid, to, n - m, js[m])
  }

  predicate IsAccepted(draw: nat, randMax: nat, n: nat)
    requires n > 0
  {
    draw < Limit(randMax, n)
  }

  /** Some draw from `from` on is accepted. */
  ghost predicate Ends(draws: nat -> nat, randMax: nat, from: nat, n: nat)
    requires n > 0
  {
    exists j: nat :: from <= j && IsAccepted(draws(j), randMax, n)
  }

  /** The rejection loop has a result if and only if a draw below the limit is still to come. */
  lemma EndsIff(draws: nat -> nat, randMax: nat, from: nat, n: nat)
    requires n > 0
    ensures Ends(draws, randMax, from, n) <==>
            exists to: nat, r: nat :: Accepted(draws, randMax, from, to, n, r)
  {
    if Ends(draws, randMax, from, n) {
      var j: nat :| from <= j && IsAccepted(draws(j), randMax, n);
      FirstAccepted(draws, randMax, from, j, n);
    }
    if to: nat, r: nat :| Accepted(draws, randMax, from, to, n, r) {
      assert IsAccepted(draws(to - 1), randMax, n);
    }
  }

  lemma {:induction false} FirstAccepted(draws: nat -> nat, randMax: nat, from: nat, j: nat, n: nat)
    requires n > 0 && from <= j && IsAccepted(draws(j), randMax, n)
    ensures exists to: nat, r: nat :: Accepted(draws, randMax, from, to, n, r)
    decreases j - from
  {
    if IsAccepted(draws(from), randMax, n) {
      assert Accepted(draws, randMax, from, from + 1, n, draws(from) % n);
    } else {
      FirstAccepted(draws, randMax, from + 1, j, n);
      var to: nat, r: nat :| Accepted(draws, randMax, from + 1, to, n, r);
      assert Accepted(draws, randMax, from, to, n, r);
    }
  }

  /** A stream with small draws to come ends every loop: more than half of the draws are below
      the limit. */
  lemma SmallDrawsEnd(draws: nat -> nat, randMax: nat, from: nat, j: nat, n: nat)
    requires 0 < n <= randMax && from <= j && 2 * draws(j) <= randMax
    ensures Ends(draws, randMax, from, n)
  {
    LimitIsLarge(randMax, n);
    assert IsAccepted(draws(j), randMax, n);
  }

  lemma AcceptedOnce(draws: nat -> nat, randMax: nat, from: nat, to: nat, also: nat, n: nat, r: nat, q: nat)
    requires n > 0
    requires Accepted(draws, randMax, from, to, n, r) && Accepted(draws, randMax, from, also, n, q)
    ensures to == also && r == q
  {
  }

  /** The stream of draws decides the choices. */
  lemma {:induction false} DrawnOnce(draws: nat -> nat, randMax: nat, from: nat, to: nat, also: nat, n: nat,
                                     a: seq<nat>, b: seq<nat>)
    requires |a| == |b| < n
    requires Drawn(draws, randMax, from, to, n, a) && Drawn(draws, randMax, from, also, n, b)
    ensures to == also && a == b
    decreases |a|
  {
    hide Accepted;
    if a != [] {
      var m := |a| - 1;
      var mid: nat :| Drawn(draws, randMax, from, mid, n, a[..m]) &&
                      Accepted(draws, randMax, mid, to, n - m, a[m]);
      var mid': nat :| Drawn(draws, randMax, from, mid', n, b[..m]) &&
                       Accepted(draws, randMax, mid', also, n - m, b[m]);
      DrawnOnce(draws, randMax, from, mid, mid', n, a[..m], b[..m]);
      AcceptedOnce(draws, randMax, mid, to, also, n - m, a[m], b[m]);
      assert a == a[..m] + [a[m]] && b == b[..m] + [b[m]];
    }
  }

  lemma DrawnNone(draws: nat -> nat, randMax: nat, from: nat, n: nat)
    requires n > 0
    ensures Drawn(draws, randMax, from, from, n, [])
  {
  }

  lemma DrawnNext(draws: nat -> nat, randMax: nat, from: nat, mid: nat, to: nat, n: nat, js: seq<nat>, j: nat)
    requires |js| + 1 < n
    requires Drawn(draws, randMax, from, mid, n, js)
    requires Accepted(draws, randMax, mid, to, n - |js|, j)
    ensures Drawn(draws, randMax, from, to, n, js + [j])
  {
    hide Accepted;
    assert (js + [j])[..|js|] == js;
  }

  lemma LimitIsLarge(randMax: nat, n: nat)
    requires 0 < n <= randMax
    ensures randMax < 2 * Limit(randMax, n)
    ensures Limit(randMax, n) <= randMax
  {
    var q := randMax / n;
    assert randMax == q * n + randMax % n;
    assert q >= 1;
    assert q * n >= n;
  }

  predicate LandsOn(draw: nat, n: nat, residue: nat)
    requires n > 0
  {
    draw % n == residue
  }

  ghost function Landing(bound: nat, n: nat, residue: nat): set<nat>
    requires n > 0
  {
    set d: nat | d < bound && LandsOn(d, n, residue)
  }

  lemma {:induction false} MulMonotone(a: nat, b: nat, n: nat)
    requires a < b
    ensures a * n + n <= b * n
    decreases b
  {
    assert b * n == (b - 1) * n + n;
    if a < b - 1 {
      MulMonotone(a, b - 1, n);
    }
  }

  lemma ModOfSum(q: nat, n: nat, r: nat)
    requires r < n
    ensures (q * n + r) % n == r
  {
    var x := q * n + r;
    var d := x / n;
    assert x == d * n + x % n;
    if d < q {
      MulMonotone(d, q, n);
    } else if q < d {
      MulMonotone(q, d, n);
    }
  }

  lemma LandingStep(q: nat, n: nat, residue: nat)
    requires residue < n
    ensures q * n + residue !in Landing(q * n, n, residue)
    ensures Landing(q * n + n, n, residue) == Landing(q * n, n, residue) + {q * n + residue}
  {
    var before := q * n;
    forall d: nat | before <= d < before + n
      ensures LandsOn(d, n, residue) <==> d == before + residue
    {
      ModOfSum(q, n, d - before);
    }
  }

  lemma LandingNone(n: nat, residue: nat)
    requires n > 0
    ensures Landing(0, n, residue) == {}
  {
  }

  lemma {:induction false} LandingCount(q: nat, n: nat, residue: nat)
    requires residue < n
    ensures |Landing(q * n, n, residue)| == q
  {
    hide LandsOn, Landing;
    if q == 0 {
      LandingNone(n, residue);
    } else {
      LandingCount(q - 1, n, residue);
      LandingStep(q - 1, n, residue);
      assert q * n == (q - 1) * n + n;
    }
  }

  /** A call of RandTo(n) whose first draw is `d` returns `residue` at once. */
  ghost predicate Gives(d: nat, randMax: nat, n: nat, residue: nat)
    requires n > 0
  {
    Accepted((i: nat) => d, randMax, 0, 1, n, residue)
  }

  lemma GivesIsLanding(d: nat, randMax: nat, n: nat, residue: nat)
    requires 0 < n <= randMax
    ensures Gives(d, randMax, n, residue) <==> d < Limit(randMax, n) && LandsOn(d, n, residue)
    ensures Gives(d, randMax, n, residue) ==> d <= randMax
  {
    LimitIsLarge(randMax, n);
  }

  /** No residue is favoured: of all the values rand() can give, equally many make the call
      return each one. */
  lemma RandToUnbiased(randMax: nat, n: nat, residue: nat)
    requires 0 < n <= randMax && residue < n
    ensures |set d: nat | d <= randMax && Gives(d, randMax, n, residue)| == randMax / n
  {
    LandingCount(randMax / n, n, residue);
    forall d: nat
      ensures d <= randMax && Gives(d, randMax, n, residue) <==>
              d in Landing(Limit(randMax, n), n, residue)
    {
      GivesIsLanding(d, randMax, n, residue);
    }
    assert (set d: nat | d <= randMax && Gives(d, randMax, n, residue)) ==
           Landing(Limit(randMax, n), n, residue);
  }

  // ---------- The shuffle ----------

  function Swap<T>(x: seq<T>, i: nat, j: nat): (y: seq<T>)
    requires i < |x| && j < |x|
    ensures |y| == |x|
  {
    x[i := x[j]][j := x[i]]
  }

  lemma SwapKeeps<T>(x: seq<T>, i: nat, j: nat)
    requires i < |x| && j < |x|
    ensures multiset(Swap(x, i, j)) == multiset(x)
  {
  }

  lemma SwapLast<T>(x: seq<T>, j: nat)
    requires j < |x|
    ensures Swap(x, |x| - 1, j)[|x| - 1] == x[j]
  {
  }

  lemma SplitLast<T>(x: seq<T>)
    requires x != []
    ensures multiset(x) == multiset(x[..|x| - 1]) + multiset{x[|x| - 1]}
  {
    assert x == x[..|x| - 1] + [x[|x| - 1]];
  }

  lemma CancelOne<T>(a: multiset<T>, b: multiset<T>, v: T)
    requires a + multiset{v} == b + multiset{v}
    ensures a == b
  {
    assert a == a + multiset{v} - multiset{v};
    assert b == b + multiset{v} - multiset{v};
  }

  /** One index at most `last` for each position `last` of an n-element array, from the back. */
  predicate Choices(n: nat, js: seq<nat>) {
    |js| == (if n == 0 then 0 else n - 1) && forall k | 0 <= k < |js| :: js[k] < n - k
  }

  /** The shuffle as a function of its choices: the first fills the last position, the others
      shuffle what is left. */
  function Shuffled<T>(x: seq<T>, js: seq<nat>): (y: seq<T>)
    requires Choices(|x|, js)
    ensures |y| == |x|
    decreases |x|
  {
    if |x| <= 1 then x
    else
      var n := |x| - 1;
      var y := Swap(x, n, js[0]);
      Shuffled(y[..n], js[1..]) + [y[n]]
  }

  /** Shuffling loses nothing and adds nothing. */
  lemma {:induction false} ShuffledPermutes<T>(x: seq<T>, js: seq<nat>)
    requires Choices(|x|, js)
    ensures multiset(Shuffled(x, js)) == multiset(x)
    decreases |x|
  {
    if |x| > 1 {
      var n := |x| - 1;
      var y := Swap(x, n, js[0]);
      ShuffledPermutes(y[..n], js[1..]);
      SwapKeeps(x, n, js[0]);
      SplitLast(y);
      SplitLast(Shuffled(x, js));
      assert Shuffled(x, js)[..n] == Shuffled(y[..n], js[1..]);
    }
  }

  predicate Distinct<T(==)>(x: seq<T>) {
    forall i, j | 0 <= i < j < |x| :: x[i] != x[j]
  }

  function IndexOf<T(==)>(x: seq<T>, v: T): (i: nat)
    requires v in x
    ensures i < |x| && x[i] == v
  {
    if x[0] == v then 0 else IndexOf(x[1..], v) + 1
  }

  /** The choices that turn `x` into `y`. */
  function ChoicesFor<T(==)>(x: seq<T>, y: seq<T>): (js: seq<nat>)
    requires multiset(x) == multiset(y)
    ensures Choices(|x|, js)
    decreases |x|
  {
    SameLength(x, y);
    if |x| <= 1 then []
    else
      var n := |x| - 1;
      assert y[n] in multiset(x);
      var j := IndexOf(x, y[n]);
      FrontsMatch(x, y, j);
      [j] + ChoicesFor(Swap(x, n, j)[..n], y[..n])
  }

  lemma SameLength<T>(x: seq<T>, y: seq<T>)
    requires multiset(x) == multiset(y)
    ensures |x| == |y|
  {
    assert |multiset(x)| == |x| && |multiset(y)| == |y|;
  }

  lemma SingletonsEqual<T>(x: seq<T>, y: seq<T>)
    requires multiset(x) == multiset(y) && |x| == |y| <= 1
    ensures x == y
  {
    if |x| == 1 {
      assert x == [x[0]] && y == [y[0]];
      assert x[0] in multiset(y);
    }
  }

  /** Once the right element is in the last position, the rest still has to be permuted. */
  lemma FrontsMatch<T>(x: seq<T>, y: seq<T>, j: nat)
    requires multiset(x) == multiset(y) && j < |x| == |y| && x[j] == y[|y| - 1]
    ensures multiset(Swap(x, |x| - 1, j)[..|x| - 1]) == multiset(y[..|y| - 1])
  {
    hide Swap;
    var n := |x| - 1;
    var s := Swap(x, n, j);
    SwapKeeps(x, n, j);
    SwapLast(x, j);
    SplitLast(s);
    SplitLast(y);
    CancelOne(multiset(s[..n]), multiset(y[..n]), y[n]);
  }

  lemma SwapDistinct<T>(x: seq<T>, j: nat)
    requires Distinct(x) && j < |x|
    ensures Distinct(Swap(x, |x| - 1, j)[..|x| - 1])
  {
  }

  lemma ShuffledStep<T>(x: seq<T>, j: nat, js: seq<nat>)
    requires |x| > 1 && j < |x| && Choices(|x| - 1, js)
    ensures Choices(|x|, [j] + js)
    ensures Shuffled(x, [j] + js) == Shuffled(Swap(x, |x| - 1, j)[..|x| - 1], js) + [x[j]]
  {
    assert ([j] + js)[1..] == js;
  }

  /** Every permutation can be reached. */
  lemma {:induction false} ShuffleReaches<T>(x: seq<T>, y: seq<T>)
    requires multiset(x) == multiset(y)
    ensures Shuffled(x, ChoicesFor(x, y)) == y
    decreases |x|
  {
    hide Swap, Shuffled;
    SameLength(x, y);
    if |x| <= 1 {
      SingletonsEqual(x, y);
      ShuffledShort(x);
    } else {
      var n := |x| - 1;
      assert y[n] in multiset(x);
      var j := IndexOf(x, y[n]);
      var front := Swap(x, n, j)[..n];
      FrontsMatch(x, y, j);
      ShuffleReaches(front, y[..n]);
      ShuffledStep(x, j, ChoicesFor(front, y[..n]));
      assert y == y[..n] + [y[n]];
    }
  }

  lemma ShuffledShort<T>(x: seq<T>)
    requires |x| <= 1
    ensures Choices(|x|, []) && Shuffled(x, []) == x
  {
  }

  /** Different choices give different orders. */
  lemma {:induction false} ShuffleInjective<T>(x: seq<T>, a: seq<nat>, b: seq<nat>)
    requires Distinct(x) && Choices(|x|, a) && Choices(|x|, b)
    requires Shuffled(x, a) == Shuffled(x, b)
    ensures a == b
    decreases |x|
  {
    if |x| > 1 {
      var n := |x| - 1;
      assert Shuffled(x, a)[n] == x[a[0]] && Shuffled(x, b)[n] == x[b[0]];
      assert a[0] == b[0];
      var y := Swap(x, n, a[0]);
      assert Shuffled(x, a)[..n] == Shuffled(y[..n], a[1..]);
      assert Shuffled(x, b)[..n] == Shuffled(y[..n], b[1..]);
      SwapDistinct(x, a[0]);
      ShuffleInjective(y[..n], a[1..], b[1..]);
      assert a == [a[0]] + a[1..] && b == [b[0]] + b[1..];
    }
  }

  /** The shuffle is a bijection between sequences of choices and permutations. */
  lemma ShuffleBijection<T>(x: seq<T>, y: seq<T>, js: seq<nat>)
    requires Distinct(x) && multiset(x) == multiset(y) && Choices(|x|, js)
    ensures Shuffled(x, js) == y <==> js == ChoicesFor(x, y)
  {
    ShuffleReaches(x, y);
    if Shuffled(x, js) == y {
      ShuffleInjective(x, js, ChoicesFor(x, y));
    }
  }

  // ---------- The shuffle in place ----------

  /** The array after the choices made so far: each swaps the last open position. */
  function Steps<T>(x: seq<T>, js: seq<nat>): (y: seq<T>)
    requires Open(|x|, js)
    ensures |y| == |x|
    decreases |js|
  {
    if js == [] then x
    else
      var m := |js| - 1;
      Swap(Steps(x, js[..m]), |x| - 1 - m, js[m])
  }

  lemma SwapFront<T>(s: seq<T>, v: T, i: nat, j: nat)
    requires i < |s| && j < |s|
    ensures Swap(s + [v], i, j) == Swap(s, i, j) + [v]
  {
  }

  /** Enough room is left to make the choices `js` in an n-element array. */
  predicate Open(n: nat, js: seq<nat>) {
    |js| < n && forall k | 0 <= k < |js| :: js[k] < n - k
  }

  lemma StepsNone<T>(x: seq<T>)
    requires x != []
    ensures Steps(x, []) == x
  {
  }

  lemma OpenSnoc(n: nat, js: seq<nat>, j: nat)
    requires Open(n, js) && |js| + 1 < n && j < n - |js|
    ensures Open(n, js + [j])
  {
  }

  lemma OpenFront(n: nat, js: seq<nat>)
    requires Open(n, js) && js != []
    ensures Open(n, js[..|js| - 1]) && js[|js| - 1] < n - (|js| - 1)
  {
  }

  lemma StepsUnfold<T>(x: seq<T>, js: seq<nat>)
    requires js != [] && Open(|x|, js)
    ensures var m := |js| - 1;
            && Open(|x|, js[..m]) && js[m] < |x| - m
            && Steps(x, js) == Swap(Steps(x, js[..m]), |x| - 1 - m, js[m])
  {
    hide Swap, Open;
    OpenFront(|x|, js);
  }

  lemma StepsSnoc<T>(x: seq<T>, js: seq<nat>, j: nat)
    requires Open(|x|, js) && |js| + 1 < |x| && j < |x| - |js|
    ensures Open(|x|, js + [j])
    ensures Steps(x, js + [j]) == Swap(Steps(x, js), |x| - 1 - |js|, j)
  {
    hide Swap, Steps, Open;
    OpenSnoc(|x|, js, j);
    StepsUnfold(x, js + [j]);
    assert (js + [j])[..|js|] == js;
  }

  /** The loop's view and the recursive view agree. */
  lemma {:induction false} StepsFront<T>(x: seq<T>, j: nat, js: seq<nat>)
    requires j < |x| && Open(|x| - 1, js)
    ensures Open(|x|, [j] + js)
    ensures var y := Swap(x, |x| - 1, j);
            Steps(x, [j] + js) == Steps(y[..|x| - 1], js) + [y[|x| - 1]]
  {
    var n := |x| - 1;
    var y := Swap(x, n, j);
    hide Swap, Steps;
    StepsNone(x);
    StepsSnoc(x, [], j);
    StepsNone(y[..n]);
    if js == [] {
      assert [] + [j] == [j] + js;
      assert y == y[..n] + [y[n]];
    } else {
      var m := |js| - 1;
      assert js == js[..m] + [js[m]];
      assert [j] + js == [j] + js[..m] + [js[m]];
      StepsSnoc(x, [j] + js[..m], js[m]);
      StepsFront(x, j, js[..m]);
      SwapFront(Steps(y[..n], js[..m]), y[n], n - 1 - m, js[m]);
      StepsSnoc(y[..n], js[..m], js[m]);
    }
  }

  lemma {:induction false} StepsShuffled<T>(x: seq<T>, js: seq<nat>)
    requires |x| > 0 && Choices(|x|, js)
    ensures Steps(x, js) == Shuffled(x, js)
    decreases |x|
  {
    if |x| > 1 {
      StepsFront(x, js[0], js[1..]);
      assert js == [js[0]] + js[1..];
      StepsShuffled(Swap(x, |x| - 1, js[0])[..|x| - 1], js[1..]);
    }
  }

  lemma Swapped<T>(x: seq<T>, y: seq<T>, i: nat, j: nat)
    requires |x| == |y| && i < |x| && j < |x|
    requires y[i] == x[j] && y[j] == x[i]
    requires forall k | 0 <= k < |x| && k != i && k != j :: y[k] == x[k]
    ensures y == Swap(x, i, j)
  {
  }

  method ShuffleSigned<T>(x: array<T>, rand: Rand) returns (ghost js: seq<nat>)
    requires rand.Valid() && 0 < x.Length <= rand.randMax
    modifies x, rand
    ensures Choices(x.Length, js) && x[..] == Shuffled(old(x[..]), js)
    ensures Drawn(rand.draws, rand.randMax, old(rand.used), rand.used, x.Length, js)
  {
    hide Accepted, Drawn, Swap, Shuffled;
    DrawnNone(rand.draws, rand.randMax, rand.used, x.Length);
    js := [];
    var n := x.Length - 1;
    while n != 0
      invariant 0 <= n < x.Length && |js| == x.Length - 1 - n
      invariant Open(x.Length, js)
      invariant x[..] == Steps(old(x[..]), js)
      invariant Drawn(rand.draws, rand.randMax, old(rand.used), rand.used, x.Length, js)
    {
      ghost var mid, y := rand.used, x[..];
      var j := rand.RandTo(n + 1);
      x[n], x[j] := x[j], x[n];
      assert x[..] == Swap(y, n, j) by { Swapped(y, x[..], n, j); }
      DrawnNext(rand.draws, rand.randMax, old(rand.used), mid, rand.used, x.Length, js, j);
      StepsSnoc(old(x[..]), js, j);
      js := js + [j];
      n := n - 1;
    }
    StepsShuffled(old(x[..]), js);
  }

  // ---------- Words with chosen bits ----------

  /** A shift distance as a machine word. */
  function Amount(p: nat): bv32
    requires p < 32
  {
    p as bv32
  }

  lemma NextWord(b: bv32)
    requires b < 32
    ensures (b + 1) as nat == b as nat + 1
  {
  }

  lemma WordBack(b: bv32, p: nat)
    requires p < 32 && b as nat == p
    ensures Amount(p) == b
  {
  }

  lemma SmallWord(b: bv32)
    requires b as nat < 31
    ensures b < 31
  {
  }

  lemma AmountZero()
    ensures Amount(0) == 0
  {
  }

  lemma ZeroIsZero()
    ensures (0 as bv32) as nat == 0
  {
  }

  /** The amount is the number, and one more for the next number. */
  lemma {:induction false} AmountIsInt(p: nat)
    requires p < 32
    ensures Amount(p) as nat == p
    ensures p > 0 ==> Amount(p - 1) < 31 && Amount(p) == Amount(p - 1) + 1
  {
    hide Amount;
    if p == 0 {
      AmountZero();
      ZeroIsZero();
    } else {
      AmountIsInt(p - 1);
      var b := Amount(p - 1);
      SmallWord(b);
      NextWord(b);
      WordBack(b + 1, p);
    }
  }

  lemma AmountInjective(p: nat, q: nat)
    requires p < 32 && q < 32 && Amount(p) == Amount(q)
    ensures p == q
  {
    AmountIsInt(p);
    AmountIsInt(q);
  }

  lemma AmountSmall(p: nat)
    requires p < 32
    ensures Amount(p) < 32
  {
  }

  /** `v | (1 << p)` */
  function SetBit(v: bv32, p: bv32): bv32
    requires p < 32
  {
    v | (1 << p)
  }

  predicate BitAt(v: bv32, p: bv32)
    requires p < 32
  {
    (v >> p) & 1 == 1
  }

  predicate HasBit(v: bv32, i: nat)
    requires i < 32
  {
    AmountSmall(i);
    BitAt(v, Amount(i))
  }

  /** The positions of the bits that are set. */
  ghost function Bits(v: bv32): set<nat> {
    set i: nat | i < 32 && HasBit(v, i)
  }

  lemma BitAfterSet(v: bv32, p: bv32, i: bv32)
    requires p < 32 && i < 32
    ensures BitAt(SetBit(v, p), i) <==> BitAt(v, i) || i == p
  {
  }

  lemma NoBit(i: bv32)
    requires i < 32
    ensures !BitAt(0, i)
  {
  }

  lemma BitsAfterSet(v: bv32, p: nat)
    requires p < 32
    ensures Amount(p) < 32
    ensures Bits(SetBit(v, Amount(p))) == Bits(v) + {p}
  {
    hide Amount, SetBit, BitAt;
    AmountSmall(p);
    var w := SetBit(v, Amount(p));
    forall i: nat | i < 32
      ensures HasBit(w, i) <==> HasBit(v, i) || i == p
    {
      AmountSmall(i);
      BitAfterSet(v, Amount(p), Amount(i));
      if Amount(i) == Amount(p) {
        AmountInjective(i, p);
      }
    }
  }

  lemma NoBits()
    ensures Bits(0) == {}
  {
    hide Amount, BitAt;
    forall i: nat | i < 32
      ensures !HasBit(0, i)
    {
      AmountSmall(i);
      NoBit(Amount(i));
    }
  }

  // ---------- What the words are worth ----------

  function Plus(v: bv32, w: bv32): bv32 {
    v + w
  }

  /** Two to the power `p`, by doubling. */
  function Power(p: nat): bv32 {
    if p == 0 then 1 else Plus(Power(p - 1), Power(p - 1))
  }

  function PowerSum(ps: seq<nat>): bv32 {
    if ps == [] then 0 else Plus(Power(ps[0]), PowerSum(ps[1..]))
  }

  lemma Doubled(i: bv32)
    requires i < 31
    ensures 1 << (i + 1) == Plus(1 << i, 1 << i)
  {
  }

  lemma {:induction false} ShiftIsPower(p: nat)
    requires p < 32
    ensures Amount(p) < 32 && 1 << Amount(p) == Power(p)
  {
    hide Amount;
    AmountSmall(p);
    if p == 0 {
      AmountZero();
    } else {
      ShiftIsPower(p - 1);
      AmountIsInt(p);
      Doubled(Amount(p - 1));
    }
  }

  lemma SetAdds(v: bv32, p: bv32)
    requires p < 32 && !BitAt(v, p)
    ensures SetBit(v, p) == Plus(1 << p, v)
  {
  }

  /** Setting a bit that is not set adds its power of two. */
  lemma SetBitAdds(v: bv32, p: nat)
    requires p < 32 && p !in Bits(v)
    ensures Amount(p) < 32 && SetBit(v, Amount(p)) == Plus(Power(p), v)
  {
    hide SetBit, BitAt, Amount, Power, Plus;
    AmountSmall(p);
    ShiftIsPower(p);
    assert !HasBit(v, p);
    SetAdds(v, Amount(p));
  }

  // ---------- Bytes with chosen bits ----------

  /** An int8_t as its eight bits, and the number they stand for. */
  function SignedValue(v: bv8): int {
    if v >= 0x80 then v as int - 256 else v as int
  }

  /** What a signed byte is before the bitwise or, as an int. */
  function SignExtended(v: bv8): bv32 {
    if v >= 0x80 then 0xffff_ff00 | (v as bv32) else v as bv32
  }

  /** `v |= (1 << p)`: the or is on ints, and its low byte is kept. */
  function SetByteBit(v: bv8, p: bv32): bv8
    requires p < 8
  {
    ((SignExtended(v) | (1 << p)) & 0xff) as bv8
  }

  predicate ByteBitAt(v: bv8, p: bv32)
    requires p < 8
  {
    BitAt(v as bv32, p)
  }

  predicate HasByteBit(v: bv8, i: nat)
    requires i < 8
  {
    AmountBelow8(i);
    ByteBitAt(v, Amount(i))
  }

  ghost function ByteBits(v: bv8): set<nat> {
    set i: nat | i < 8 && HasByteBit(v, i)
  }

  lemma AmountBelow8(p: nat)
    requires p < 8
    ensures Amount(p) < 8
  {
  }

  lemma ByteBitAfterSet(v: bv8, p: bv32, i: bv32)
    requires p < 8 && i < 8
    ensures ByteBitAt(SetByteBit(v, p), i) <==> ByteBitAt(v, i) || i == p
  {
  }

  lemma SetByteAdds(v: bv8, p: bv32)
    requires p < 8 && !ByteBitAt(v, p)
    ensures SetByteBit(v, p) as bv32 == Plus(1 << p, v as bv32)
  {
  }

  lemma SetByteBitAdds(v: bv8, p: nat)
    requires p < 8 && p !in ByteBits(v)
    ensures Amount(p) < 8 && SetByteBit(v, Amount(p)) as bv32 == Plus(Power(p), v as bv32)
  {
    hide SetByteBit, ByteBitAt, Amount, Power, Plus;
    AmountBelow8(p);
    ShiftIsPower(p);
    assert !HasByteBit(v, p);
    SetByteAdds(v, Amount(p));
  }

  lemma ByteBitsAfterSet(v: bv8, p: nat)
    requires p < 8
    ensures Amount(p) < 8
    ensures ByteBits(SetByteBit(v, Amount(p))) == ByteBits(v) + {p}
  {
    hide Amount, SetByteBit, ByteBitAt;
    AmountBelow8(p);
    var w := SetByteBit(v, Amount(p));
    forall i: nat | i < 8
      ensures HasByteBit(w, i) <==> HasByteBit(v, i) || i == p
    {
      AmountBelow8(i);
      ByteBitAfterSet(v, Amount(p), Amount(i));
      if Amount(i) == Amount(p) {
        AmountInjective(i, p);
      }
    }
  }

  lemma NoByteBit(i: bv32)
    requires i < 8
    ensures !ByteBitAt(0, i)
  {
  }

  lemma NoByteBits()
    ensures ByteBits(0) == {}
  {
    hide Amount, ByteBitAt;
    forall i: nat | i < 8
      ensures !HasByteBit(0, i)
    {
      AmountBelow8(i);
      NoByteBit(Amount(i));
    }
  }

  lemma SignBit(v: bv8)
    ensures v >= 0x80 <==> ByteBitAt(v, 7)
  {
  }

  lemma SevenIsSeven()
    ensures Amount(7) == 7
  {
  }

  lemma SignedRange(v: bv8)
    ensures SignedValue(v) < 0 <==> v >= 0x80
  {
  }

  lemma SignIsBit7(v: bv8)
    ensures SignedValue(v) < 0 <==> 7 in ByteBits(v)
  {
    hide Amount, ByteBitAt, SignedValue;
    SignedRange(v);
    SignBit(v);
    SevenIsSeven();
    assert 7 in ByteBits(v) <==> HasByteBit(v, 7);
  }

  // ---------- Positions ----------

  ghost function Elements<T>(s: seq<T>): set<T> {
    set v | v in s
  }

  lemma {:induction false} DistinctElements<T>(s: seq<T>)
    requires Distinct(s)
    ensures |Elements(s)| == |s|
  {
    if s == [] {
      assert Elements(s) == {};
    } else {
      var n := |s| - 1;
      DistinctElements(s[..n]);
      assert Elements(s) == Elements(s[..n]) + {s[n]};
    }
  }

  lemma ElementsFront<T>(s: seq<T>, k: nat, n: nat)
    requires k < n <= |s|
    ensures Elements(s[k..n]) == Elements(s[k + 1..n]) + {s[k]}
  {
    assert s[k..n] == [s[k]] + s[k + 1..n];
  }

  lemma DistinctPrefix<T>(s: seq<T>, n: nat)
    requires Distinct(s) && n <= |s|
    ensures |Elements(s[..n])| == n
  {
    DistinctElements(s[..n]);
  }

  /** A permutation of distinct values is distinct, with the same values. */
  lemma {:induction false} PermutedDistinct<T>(s: seq<T>, t: seq<T>)
    requires multiset(s) == multiset(t) && Distinct(t)
    ensures Distinct(s) && forall v | v in s :: v in t
  {
    forall i, j | 0 <= i < j < |s|
      ensures s[i] != s[j]
    {
      if s[i] == s[j] {
        CountTwice(s, i, j);
        CountOnce(t, s[i]);
      }
    }
    forall v | v in s
      ensures v in t
    {
      assert v in multiset(s);
    }
  }

  lemma CountTwice<T>(s: seq<T>, i: nat, j: nat)
    requires i < j < |s| && s[i] == s[j]
    ensures multiset(s)[s[i]] >= 2
  {
    assert s == s[..j] + [s[j]] + s[j + 1..];
    assert s[i] in s[..j];
  }

  lemma {:induction false} CountOnce<T>(s: seq<T>, v: T)
    requires Distinct(s)
    ensures multiset(s)[v] <= 1
  {
    if v in s {
      var i :| 0 <= i < |s| && s[i] == v;
      assert s == s[..i] + [v] + s[i + 1..];
      assert v !in s[..i] && v !in s[i + 1..];
    }
  }

  function Iota(n: nat): seq<nat> {
    seq(n, i => i)
  }

  lemma NoPowers()
    ensures PowerSum([]) == 0
  {
  }

  lemma PowerSumFront(s: seq<nat>, k: nat, n: nat)
    requires k < n <= |s|
    ensures PowerSum(s[k..n]) == Plus(Power(s[k]), PowerSum(s[k + 1..n]))
  {
    hide Power, Plus;
    assert s[k..n][1..] == s[k + 1..n];
  }

  lemma NotLater<T>(s: seq<T>, k: nat, n: nat)
    requires Distinct(s) && k < n <= |s|
    ensures s[k] !in Elements(s[k + 1..n])
  {
  }

  // ---------- No set of positions is favoured ----------

  /** All the ways to choose in a shuffle of n elements. */
  ghost function AllChoices(n: nat): set<seq<nat>> {
    if n <= 1 then {[]}
    else set j: nat, js | j < n && js in AllChoices(n - 1) :: [j] + js
  }

  lemma {:induction false} AllChoicesAre(n: nat, js: seq<nat>)
    ensures js in AllChoices(n) <==> Choices(n, js)
  {
    if n > 1 && js != [] {
      AllChoicesAre(n - 1, js[1..]);
      assert js == [js[0]] + js[1..];
      assert forall j: nat, rest: seq<nat> :: [j] + rest == js ==> j == js[0] && rest == js[1..] by {
        forall j: nat, rest: seq<nat> | [j] + rest == js
          ensures j == js[0] && rest == js[1..]
        {
          assert ([j] + rest)[1..] == rest;
        }
      }
    }
  }

  ghost predicate PutsFirst<T>(x: seq<T>, n: nat, a: set<T>, js: seq<nat>) {
    Choices(|x|, js) && n <= |x| && Elements(Shuffled(x, js)[..n]) == a
  }

  /** The choices after which the first n elements are those of `a`. */
  ghost function Favouring<T>(x: seq<T>, n: nat, a: set<T>): set<seq<nat>> {
    set js | js in AllChoices(|x|) && PutsFirst(x, n, a, js)
  }

  lemma {:induction false} InjectionBound<A, B>(from: set<A>, to: set<B>, f: A -> B)
    requires forall a | a in from :: f(a) in to
    requires forall a, b | a in from && b in from && f(a) == f(b) :: a == b
    ensures |from| <= |to|
  {
    if from != {} {
      var a :| a in from;
      InjectionBound(from - {a}, to - {f(a)}, f);
    }
  }

  lemma IndexOfUnique<T>(y: seq<T>, i: nat)
    requires Distinct(y) && i < |y|
    ensures IndexOf(y, y[i]) == i
  {
  }

  /** The same order with two values in each other's place. */
  ghost function Exchanged<T>(y: seq<T>, a: T, b: T): (z: seq<T>)
    ensures |z| == |y|
  {
    if a in y && b in y then Swap(y, IndexOf(y, a), IndexOf(y, b)) else y
  }

  lemma SwapAllDistinct<T>(y: seq<T>, i: nat, j: nat)
    requires Distinct(y) && i < |y| && j < |y|
    ensures Distinct(Swap(y, i, j))
  {
  }

  lemma ExchangedTwice<T>(y: seq<T>, a: T, b: T)
    requires Distinct(y)
    ensures Exchanged(Exchanged(y, a, b), a, b) == y
  {
    if a in y && b in y {
      var i, j := IndexOf(y, a), IndexOf(y, b);
      var z := Swap(y, i, j);
      SwapAllDistinct(y, i, j);
      IndexOfUnique(z, i);
      IndexOfUnique(z, j);
      assert z[i] == b && z[j] == a;
    }
  }

  /** The choices that lead to the exchanged order. */
  ghost function Exchange<T>(x: seq<T>, a: T, b: T, js: seq<nat>): seq<nat> {
    if Choices(|x|, js) then
      ExchangePermutes(x, a, b, js);
      ChoicesFor(x, Exchanged(Shuffled(x, js), a, b))
    else js
  }

  lemma ExchangePermutes<T>(x: seq<T>, a: T, b: T, js: seq<nat>)
    requires Choices(|x|, js)
    ensures multiset(x) == multiset(Exchanged(Shuffled(x, js), a, b))
  {
    hide Swap;
    var y := Shuffled(x, js);
    ShuffledPermutes(x, js);
    if a in y && b in y {
      SwapKeeps(y, IndexOf(y, a), IndexOf(y, b));
    }
  }

  lemma ExchangeShuffles<T>(x: seq<T>, a: T, b: T, js: seq<nat>)
    requires Choices(|x|, js)
    ensures Choices(|x|, Exchange(x, a, b, js))
    ensures Shuffled(x, Exchange(x, a, b, js)) == Exchanged(Shuffled(x, js), a, b)
  {
    hide Shuffled, Exchanged;
    ExchangePermutes(x, a, b, js);
    ShuffleReaches(x, Exchanged(Shuffled(x, js), a, b));
  }

  lemma ShuffledDistinct<T>(x: seq<T>, js: seq<nat>)
    requires Distinct(x) && Choices(|x|, js)
    ensures Distinct(Shuffled(x, js)) && Elements(Shuffled(x, js)) == Elements(x)
  {
    hide Shuffled;
    var y := Shuffled(x, js);
    ShuffledPermutes(x, js);
    PermutedDistinct(y, x);
    PermutedDistinct(x, y);
  }

  lemma ExchangeInjective<T>(x: seq<T>, a: T, b: T, js: seq<nat>, ks: seq<nat>)
    requires Distinct(x) && Choices(|x|, js) && Choices(|x|, ks)
    requires Exchange(x, a, b, js) == Exchange(x, a, b, ks)
    ensures js == ks
  {
    hide Shuffled, Exchanged, Exchange, Choices, Distinct;
    ExchangeShuffles(x, a, b, js);
    ExchangeShuffles(x, a, b, ks);
    ShuffledDistinct(x, js);
    ShuffledDistinct(x, ks);
    ExchangedTwice(Shuffled(x, js), a, b);
    ExchangedTwice(Shuffled(x, ks), a, b);
    ShuffleInjective(x, js, ks);
  }

  lemma ElementsUpdate<T>(s: seq<T>, i: nat, b: T)
    requires Distinct(s) && i < |s| && b !in s
    ensures Elements(s[i := b]) == Elements(s) - {s[i]} + {b}
  {
    var t := s[i := b];
    forall v
      ensures v in Elements(t) <==> v in Elements(s) - {s[i]} + {b}
    {
      if v in Elements(s) - {s[i]} {
        var k :| 0 <= k < |s| && s[k] == v;
        assert t[k] == v;
      }
      assert t[i] == b;
    }
  }

  lemma ExchangeMoves<T>(x: seq<T>, n: nat, s: set<T>, a: T, b: T, js: seq<nat>)
    requires Distinct(x) && PutsFirst(x, n, s, js)
    requires a in s && b !in s && b in x
    ensures PutsFirst(x, n, s - {a} + {b}, Exchange(x, a, b, js))
  {
    hide Shuffled, Exchange, Choices;
    var y := Shuffled(x, js);
    ShuffledDistinct(x, js);
    assert a in y[..n] && b in Elements(y);
    var i :| 0 <= i < n && y[i] == a;
    var j :| 0 <= j < |y| && y[j] == b;
    assert y[..n][i] == a;
    assert b !in y[..n] && j >= n;
    IndexOfUnique(y, i);
    IndexOfUnique(y, j);
    ExchangeShuffles(x, a, b, js);
    assert Exchanged(y, a, b)[..n] == y[..n][i := b];
    ElementsUpdate(y[..n], i, b);
  }

  lemma ExchangeBound<T>(x: seq<T>, n: nat, s: set<T>, a: T, b: T)
    requires Distinct(x) && a in s && b !in s && b in Elements(x)
    ensures |Favouring(x, n, s)| <= |Favouring(x, n, s - {a} + {b})|
  {
    hide PutsFirst, Exchange, AllChoices;
    var t := s - {a} + {b};
    var f := js => Exchange(x, a, b, js);
    forall js | js in Favouring(x, n, s)
      ensures f(js) in Favouring(x, n, t) && Choices(|x|, js)
    {
      AllChoicesAre(|x|, js);
      ExchangeMoves(x, n, s, a, b, js);
      ExchangeShuffles(x, a, b, js);
      AllChoicesAre(|x|, f(js));
    }
    forall js, ks | js in Favouring(x, n, s) && ks in Favouring(x, n, s) && f(js) == f(ks)
      ensures js == ks
    {
      ExchangeInjective(x, a, b, js, ks);
    }
    InjectionBound(Favouring(x, n, s), Favouring(x, n, t), f);
  }

  /** Every set of n of the elements comes first for the same number of choices. */
  lemma {:induction false} NoSetFavoured<T>(x: seq<T>, n: nat, s: set<T>, t: set<T>)
    requires Distinct(x) && s <= Elements(x) && t <= Elements(x) && |s| == |t|
    ensures |Favouring(x, n, s)| == |Favouring(x, n, t)|
    decreases |s - t|
  {
    hide Favouring, Distinct, Elements;
    if s != t {
      NotSubsets(s, t);
      var a :| a in s - t;
      var b :| b in t - s;
      var u := s - {a} + {b};
      OneCloser(s, t, a, b);
      ExchangeBound(x, n, s, a, b);
      ExchangeBound(x, n, u, b, a);
      NoSetFavoured(x, n, u, t);
    }
  }

  lemma NotSubsets<T>(s: set<T>, t: set<T>)
    requires |s| == |t| && s != t
    ensures s - t != {} && t - s != {}
  {
    assert s == (s - t) + (s * t) && t == (t - s) + (s * t);
  }

  lemma OneCloser<T>(s: set<T>, t: set<T>, a: T, b: T)
    requires a in s - t && b in t - s
    ensures var u := s - {a} + {b};
            && |u| == |s| && u - {b} + {a} == s
            && |u - t| < |s - t| && u <= s + t
  {
    var u := s - {a} + {b};
    assert u - {b} + {a} == s;
    assert u - t == (s - t) - {a};
  }

  /** The two `static` arrays, which keep the order the last call left them in. */
  class Positions {
    const pos32: array<nat>
    const pos8: array<nat>
    const rand: Rand

    /** Each array is a permutation of its positions. */
    ghost predicate Valid()
      reads pos32, pos8
    {
      && pos32.Length == 32 && multiset(pos32[..]) == multiset(Iota(32))
      && pos8.Length == 8 && multiset(pos8[..]) == multiset(Iota(8))
      && pos32 != pos8
      && rand.Valid() && 32 <= rand.randMax
    }

    constructor (rand: Rand)
      requires rand.Valid() && 32 <= rand.randMax
      ensures Valid() && this.rand == rand && fresh(pos32) && fresh(pos8)
    {
      pos32 := new nat[32](i => i);
      pos8 := new nat[8](i => i);
      this.rand := rand;
      new;
      assert pos32[..] == Iota(32) && pos8[..] == Iota(8);
    }

    /** The positions were shuffled by the next draws. */
    twostate predicate ShuffledBy(pos: array<nat>, js: seq<nat>)
      requires 0 < pos.Length
      reads pos, rand
    {
      && Choices(pos.Length, js)
      && pos[..] == Shuffled(old(pos[..]), js)
      && Drawn(rand.draws, rand.randMax, old(rand.used), rand.used, pos.Length, js)
    }

    /** Exactly `n` bits are set: those at the first `n` shuffled positions. */
    method NRand32(n: nat) returns (v: bv32, ghost js: seq<nat>)
      requires Valid() && n <= 32
      modifies pos32, rand
      ensures Valid() && ShuffledBy(pos32, js)
      ensures Bits(v) == Elements(pos32[..n]) && |Bits(v)| == n && v == PowerSum(pos32[..n])
    {
      hide Bits, SetBit, Amount, Shuffled, Choices, Drawn, Power, PowerSum, Plus;
      NoPowers();
      v := 0;
      js := Reshuffle(pos32);
      ghost var order := pos32[..];
      NoBits();
      var k := n;
      while k > 0
        invariant 0 <= k <= n && pos32[..] == order && ShuffledBy(pos32, js)
        invariant Bits(v) == Elements(order[k..n]) && v == PowerSum(order[k..n])
      {
        k := k - 1;
        assert pos32[k] == order[k] && order[k] in order;
        NotLater(order, k, n);
        SetBitAdds(v, order[k]);
        PowerSumFront(order, k, n);
        BitsAfterSet(v, order[k]);
        v := SetBit(v, Amount(pos32[k]));
        ElementsFront(order, k, n);
      }
      DistinctPrefix(order, n);
      assert pos32[..n] == order[..n] == order[0..n];
    }

    /** The byte version: the result is negative exactly when bit 7 is among those set. */
    method NRand8(n: nat) returns (v: bv8, ghost js: seq<nat>)
      requires Valid() && n <= 8
      modifies pos8, rand
      ensures Valid() && ShuffledBy(pos8, js)
      ensures ByteBits(v) == Elements(pos8[..n]) && |ByteBits(v)| == n
      ensures v as bv32 == PowerSum(pos8[..n])
      ensures SignedValue(v) < 0 <==> 7 in pos8[..n]
    {
      hide ByteBits, SetByteBit, Amount, Shuffled, Choices, Drawn, Power, PowerSum, Plus;
      NoPowers();
      v := 0;
      js := Reshuffle(pos8);
      ghost var order := pos8[..];
      NoByteBits();
      var k := n;
      while k > 0
        invariant 0 <= k <= n && pos8[..] == order && ShuffledBy(pos8, js)
        invariant ByteBits(v) == Elements(order[k..n]) && v as bv32 == PowerSum(order[k..n])
      {
        k := k - 1;
        assert pos8[k] == order[k] && order[k] in order;
        NotLater(order, k, n);
        SetByteBitAdds(v, order[k]);
        PowerSumFront(order, k, n);
        ByteBitsAfterSet(v, order[k]);
        v := SetByteBit(v, Amount(pos8[k]));
        ElementsFront(order, k, n);
      }
      DistinctPrefix(order, n);
      assert pos8[..n] == order[..n] == order[0..n];
      SignIsBit7(v);
    }

    /** Shuffles an array of positions; it stays a permutation of them. */
    method Reshuffle(pos: array<nat>) returns (ghost js: seq<nat>)
      requires rand.Valid() && 0 < pos.Length <= 32 <= rand.randMax
      requires multiset(pos[..]) == multiset(Iota(pos.Length))
      modifies pos, rand
      ensures multiset(pos[..]) == multiset(Iota(pos.Length)) && ShuffledBy(pos, js)
      ensures Distinct(pos[..]) && forall p | p in pos[..] :: p < pos.Length
    {
      hide Shuffled, Choices, Drawn;
      js := ShuffleSigned(pos, rand);
      ShuffledPermutes(old(pos[..]), js);
      PermutedDistinct(pos[..], Iota(pos.Length));
    }
  }
}
