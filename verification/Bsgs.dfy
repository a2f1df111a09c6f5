/** crypto/internal/bsgs.go: baby-step giant-step. */
module Bsgs {
  import opened Scalars
  import opened Groups

  /** The least step whose square reaches max, and at least 1. */
  ghost predicate IsStep(step: int, max: int) {
    step >= 1 && step * step >= max && (step > 1 ==> (step - 1) * (step - 1) < max)
  }

  const INT64_END := 0x8000_0000_0000_0000

  /** The addition of Go ints below 2^64. */
  function Int64(x: int): int {
    if x < INT64_END then x else x - 2 * INT64_END
  }

  /** The largest max for which the first loop stays within a Go int. */
  const MAX_SEARCH := MAX_STEP * MAX_STEP
  const MAX_STEP := 3037000499

  lemma StepSmall(step: int, max: int)
    requires IsStep(step, max) && max <= MAX_SEARCH
    ensures step <= MAX_STEP && step * step < INT64_END
  {
    StepFits(step, max);
    if step > MAX_STEP {
      ProductGrows(step, step, MAX_STEP + 1, MAX_STEP + 1);
    }
  }

  /** The square of the least step fits a Go int exactly when max is at most MAX_SEARCH. */
  lemma StepFits(step: int, max: int)
    requires IsStep(step, max)
    ensures step * step < INT64_END <==> max <= MAX_SEARCH
  {
    if step <= MAX_STEP {
      ProductGrows(MAX_STEP, MAX_STEP, step, step);
    } else {
      ProductGrows(step, step, MAX_STEP + 1, MAX_STEP + 1);
      ProductGrows(step - 1, step - 1, MAX_STEP, MAX_STEP);
    }
  }

  lemma ProductGrows(a: int, b: int, c: int, d: int)
    requires a >= c >= 0 && b >= d >= 0
    ensures a * b >= c * d
  {
    assert a * b >= c * b >= c * d;
  }

  /** The giant steps taken up to and including the round `last`. */
  lemma GiantSteps(step: int, max: int)
    requires IsStep(step, max) && max >= 0
    ensures max / step + 2 <= step + 2
  {
    var d := max / step;
    assert d * step <= max && (step + 1) * step == step * step + step;
    if d > step {
      ProductGrows(d, step, step + 1, step);
    }
  }

  /** The residues of 0*g .. (n-1)*g, each under its multiplier. */
  ghost predicate BabySteps(G: Group, table: map<nat, int>, n: nat)
    requires G.q > 0
  {
    && (forall j :: 0 <= j < n ==> BaseMul(G, j) in table)
    && (forall P :: P in table ==> 0 <= table[P] < n && BaseMul(G, table[P]) == P)
  }

  /** The end of the windows that are searched. */
  function Reach(max: int, step: int): int
    requires step > 0
  {
    if max < 0 then 0 else (max / step + 2) * step
  }

  /** What the search answers for a logarithm x: x up to max and -1 beyond; but in the last window
      i*step + j can leave the Go ints, and wraps to a negative number. */
  function Answer(x: int, max: int, step: int): int
    requires step > 0
  {
    if x <= max then x else if INT64_END <= x < Reach(max, step) then Int64(x) else -1
  }

  /** The answer is -1 for every logarithm beyond max if and only if the last window ends within the
      Go ints. */
  lemma AnswersAsDocumented(max: int, step: int)
    requires IsStep(step, max) && max <= MAX_SEARCH
    ensures (forall x :: x >= 0 ==> Answer(x, max, step) == if x <= max then x else -1) <==> Reach(max, step) <= INT64_END
  {
    assert Answer(INT64_END, max, step) == if INT64_END < Reach(max, step) then -INT64_END else -1;
  }

  /** For callers: the answer is negative beyond max, and -1 when max is well within the Go ints. */
  lemma NegativeBeyond(x: int, max: int, step: int)
    requires IsStep(step, max) && max <= MAX_SEARCH && x > max
    ensures Answer(x, max, step) < 0
    ensures max + 2 * MAX_STEP <= INT64_END ==> Answer(x, max, step) == -1
  {
    StepSmall(step, max);
    if max >= 0 {
      assert (max / step + 2) * step == (max / step) * step + 2 * step <= max + 2 * step;
    }
  }

  /** It ends beyond them for the largest max: the logarithm 2^63 is answered by -2^63. */
  lemma SearchWraps()
    ensures IsStep(MAX_STEP, MAX_SEARCH) && Answer(INT64_END, MAX_SEARCH, MAX_STEP) == -INT64_END
  {
    assert MAX_SEARCH / MAX_STEP == MAX_STEP;
  }

  /** Finds the discrete logarithm of the target in [0, max], in a table of `step` baby steps and at
      most step + 2 giant steps. */
  method BabyStepGiantStep(G: Group, target: int, max: int) returns (m: int, ghost step: int, ghost giants: int)
    requires Valid(G) && max <= MAX_SEARCH
    ensures IsStep(step, max) && 0 <= giants <= step + 2
    ensures m == Answer(Log(G, target), max, step)
  {
    var width := 1;
    while width * width < max
      invariant width >= 1 && (width > 1 ==> (width - 1) * (width - 1) < max)
      decreases max - width * width
    {
      assert (width + 1) * (width + 1) > width * width;
      width := width + 1;
    }
    step, giants := width, 0;
    StepSmall(width, max);
    hide Red;
    RedSmall(G.q, 0);
    var table: map<nat, int> := map[];
    var current := 0;
    for j := 0 to width
      invariant BabySteps(G, table, j) && current == BaseMul(G, j)
    {
      table := table[current := j];
      assert (j + 1) * G.g == j * G.g + G.g;
      RedAgain(G.q, j * G.g);
      RedAdd(G.q, current, G.g, j * G.g, G.g);
      current := Add(G, current, G.g);
    }
    m, giants := GiantSearch(G, target, max, width, table);
  }

  /** The second loop. */
  method GiantSearch(G: Group, target: int, max: int, step: int, table: map<nat, int>) returns (m: int, ghost giants: int)
    requires Valid(G) && max <= MAX_SEARCH && IsStep(step, max) && BabySteps(G, table, step)
    ensures m == Answer(Log(G, target), max, step)
    ensures 0 <= giants <= step + 2
  {
    StepSmall(step, max);
    hide Red, IsStep, BabySteps, BaseMul, Reach;
    var giantStep := Neg(G, BaseMul(G, step));
    var gamma := Red(G.q, target);
    ghost var x := Log(G, target);
    LogCorrect(G, target);
    // Go's division truncates, and a max below 0 divides by a step of 1
    var last := if max < 0 then max + 1 else max / step + 1;
    LastRound(step, max, last);
    var i := 0;
    ghost var base := 0;
    giants := 0;
    while i <= last
      invariant 0 <= i && base == i * step <= x && gamma == BaseMul(G, x - base)
      invariant giants == i <= step + 2 && (i <= last ==> base <= max + step)
      decreases last - i
    {
      giants := giants + 1;
      if gamma in table {
        var j := table[gamma];
        HitIsBaby(G, table, step, gamma);
        BaseMulInjective(G, j, x - base);
        LeastPreimage(G, x, base, j, step);
        WithinReach(i, j, step, max, last);
        var r := Int64(i * step + j);
        if r <= max {
          return r, giants;
        }
        return -1, giants;
      }
      NotBaby(G, table, step, x - base);
      NextGamma(G, x - base, step);
      assert (i + 1) * step == base + step;
      gamma := Add(G, gamma, giantStep);
      i, base := i + 1, base + step;
      RoundBase(i, step, max, last);
    }
    PastTheEnd(x, i, step, max, last);
    return -1, giants;
  }

  lemma LastRound(step: int, max: int, last: int)
    requires IsStep(step, max) && last == if max < 0 then max + 1 else max / step + 1
    ensures last <= step + 1 && (max < 0 ==> last <= 0) && (max < 0 && last == 0 ==> max == -1)
  {
    if max >= 0 {
      GiantSteps(step, max);
    }
  }

  /** In every round that is run, i*step is at most max + step. */
  lemma RoundBase(i: int, step: int, max: int, last: int)
    requires step >= 1 && 0 <= i && last == if max < 0 then max + 1 else max / step + 1
    ensures i <= last ==> i * step <= max + step
  {
    if i <= last && max >= 0 {
      ProductGrows(max / step + 1, step, i, step);
      assert (max / step) * step <= max && (max / step + 1) * step == (max / step) * step + step;
    }
  }

  lemma HitIsBaby(G: Group, table: map<nat, int>, step: nat, P: nat)
    requires G.q > 0 && BabySteps(G, table, step) && P in table
    ensures 0 <= table[P] < step && BaseMul(G, table[P]) == P
  {
  }

  /** A hit below q is the logarithm itself. */
  lemma LeastPreimage(G: Group, x: nat, base: int, j: int, step: int)
    requires Valid(G) && x < G.q && 0 <= base <= x && 0 <= j < step <= 0x1_0000_0000
    requires Red(G.q, j) == Red(G.q, x - base)
    ensures base + j == x
  {
    RedSmall(G.q, j);
    RedSmall(G.q, x - base);
  }

  /** A miss means that the remaining logarithm is not a baby step. */
  lemma NotBaby(G: Group, table: map<nat, int>, step: nat, y: int)
    requires Valid(G) && BabySteps(G, table, step) && BaseMul(G, y) !in table && y >= 0
    ensures y >= step
  {
  }

  lemma NextGamma(G: Group, y: int, step: int)
    requires Valid(G)
    ensures Add(G, BaseMul(G, y), Neg(G, BaseMul(G, step))) == BaseMul(G, y - step)
  {
    assert (y - step) * G.g == y * G.g - step * G.g;
    AddNegated(G.q, y * G.g, step * G.g);
  }

  lemma AddNegated(q: nat, a: int, b: int)
    requires q > 0
    ensures var c: int := Red(q, b);
      Red(q, Red(q, a) + Red(q, -c)) == Red(q, a - b)
  {
    var c: int := Red(q, b);
    RedAgain(q, a);
    RedAgain(q, b);
    RedAdd(q, 0, c, 0, b);
    RedAgain(q, -c);
    RedAdd(q, Red(q, a), Red(q, -c), a, -b);
  }

  lemma WithinReach(i: int, j: int, step: int, max: int, last: int)
    requires step >= 1 && 0 <= i <= last && 0 <= j < step && last == if max < 0 then max + 1 else max / step + 1
    ensures max >= 0 ==> i * step + j < Reach(max, step)
    ensures max < 0 ==> i == 0 && max == -1
  {
    if max >= 0 {
      ProductGrows(last, step, i, step);
      assert (last + 1) * step == last * step + step;
    }
  }

  lemma PastTheEnd(x: int, i: int, step: int, max: int, last: int)
    requires step >= 1 && i * step <= x && i > last && 0 <= i && 0 <= x
    requires last == if max < 0 then max + 1 else max / step + 1
    ensures x > max && x >= Reach(max, step)
  {
    if max >= 0 {
      ProductGrows(i, step, max / step + 2, step);
      assert (max / step + 2) * step == (max / step) * step + step + step;
    }
  }
}
