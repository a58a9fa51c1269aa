/** The tier of a budget is that of its worst dimension. */
module TierLevels {
  import opened Governor
  import opened Wrappers

  /** One dimension by itself; without a positive cap it never leaves Full. */
  function DimensionRank(used: nat, cap: Option<nat>): nat {
    if cap.Some? && 0 < cap.value then TierOf(Fraction(used, cap)).Rank() else 0
  }

  function MaxNat(a: nat, b: nat): nat {
    if a < b then b else a
  }

  lemma RankFollowsFraction(x: real, y: real)
    requires x <= y
    ensures TierOf(x).Rank() <= TierOf(y).Rank()
  {
  }

  lemma UncappedIsFull(used: nat, cap: Option<nat>)
    ensures TierOf(Fraction(used, cap)).Rank() == DimensionRank(used, cap)
  {
  }

  /** The tier's rank is the largest over the three dimensions. */
  lemma TierIsWorstDimension(b: Budget, s: Spend)
    ensures TierNow(b, s).Rank()
            == MaxNat(MaxNat(DimensionRank(s.jobs, b.jobs), DimensionRank(s.cost.tokens, b.tokens)), DimensionRank(s.cost.usdMicros, b.usdMicros))
  {
    hide Fraction, TierOf;
    var x, y, z := Fraction(s.jobs, b.jobs), Fraction(s.cost.tokens, b.tokens), Fraction(s.cost.usdMicros, b.usdMicros);
    UncappedIsFull(s.jobs, b.jobs);
    UncappedIsFull(s.cost.tokens, b.tokens);
    UncappedIsFull(s.cost.usdMicros, b.usdMicros);
    var worst := MaxReal(MaxReal(x, y), z);
    RankFollowsFraction(x, worst);
    RankFollowsFraction(y, worst);
    RankFollowsFraction(z, worst);
  }

  /** Some dimension with a positive cap has used at least `num / den` of it. */
  predicate SomeDimensionReaches(b: Budget, s: Spend, num: nat, den: nat) {
    || Reaches(s.jobs, b.jobs, num, den)
    || Reaches(s.cost.tokens, b.tokens, num, den)
    || Reaches(s.cost.usdMicros, b.usdMicros, num, den)
  }

  predicate Reaches(used: nat, cap: Option<nat>, num: nat, den: nat) {
    cap.Some? && 0 < cap.value && num * cap.value <= den * used
  }

  lemma DimensionInWholeNumbers(used: nat, cap: Option<nat>)
    requires cap.Some? ==> cap.value < LEAST_MISREAD
    ensures 1 <= DimensionRank(used, cap) <==> Reaches(used, cap, 3, 4)
    ensures 2 <= DimensionRank(used, cap) <==> Reaches(used, cap, 9, 10)
    ensures 3 <= DimensionRank(used, cap) <==> Reaches(used, cap, 1, 1)
  {
    hide Fraction, TierOf;
    if cap.Some? && 0 < cap.value {
      PromiseKept(cap.value, used);
    }
  }

  /** For caps below the least misread one, the tier in whole numbers: at least Conserving, Distress or
      Halted exactly when some dimension has used three quarters, nine tenths or all of its cap. */
  lemma TierInWholeNumbers(b: Budget, s: Spend)
    requires b.Caps(cap => cap < LEAST_MISREAD)
    ensures var tier := TierNow(b, s);
            && (!tier.Full? <==> SomeDimensionReaches(b, s, 3, 4))
            && (tier.Distress? || tier.Halted? <==> SomeDimensionReaches(b, s, 9, 10))
            && (tier.Halted? <==> SomeDimensionReaches(b, s, 1, 1))
  {
    hide DimensionRank, TierNow, Reaches;
    TierIsWorstDimension(b, s);
    DimensionInWholeNumbers(s.jobs, b.jobs);
    DimensionInWholeNumbers(s.cost.tokens, b.tokens);
    DimensionInWholeNumbers(s.cost.usdMicros, b.usdMicros);
  }
}
