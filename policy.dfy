/** The password policy of `PolicyMatcher`: ten integer bounds, a min/max pair per counted
    dimension, and the pass/fail decision `_is_compliant` for one mask. */
module Policy {
  import opened MaskCounts

  /** The ten bounds, in the order of the record's fields. A negative maximum means that the
      dimension has no upper bound. */
  datatype PolicyMatcher = PolicyMatcher(
    minLower: int, maxLower: int,
    minUpper: int, maxUpper: int,
    minDigit: int, maxDigit: int,
    minSpecial: int, maxSpecial: int,
    minLength: int, maxLength: int)

  /** The record's defaults: every minimum 0, every maximum -1. */
  function DefaultPolicy(): (p: PolicyMatcher)
    ensures forall d: Dimension :: MinOf(p, d) == 0 && MaxOf(p, d) < 0
  {
    PolicyMatcher(0, -1, 0, -1, 0, -1, 0, -1, 0, -1)
  }

  /** The command line's defaults differ from the record's in the minimum length only. */
  function CommandLineDefaults(): (p: PolicyMatcher)
    ensures MinOf(p, LengthDim) == 8
    ensures forall d: Dimension :: MaxOf(p, d) == MaxOf(DefaultPolicy(), d)
    ensures forall d: Dimension :: d != LengthDim ==> MinOf(p, d) == MinOf(DefaultPolicy(), d)
  {
    DefaultPolicy().(minLength := 8)
  }

  /** One dimension's test: `min <= count` when the maximum is negative, and
      `min <= count <= max` otherwise. A passing count reaches the minimum, and bounds with
      `0 <= max < min` pass no count. */
  function DimensionPasses(min: int, max: int, count: int): (r: bool)
    ensures r ==> min <= count
    ensures 0 <= max < min ==> !r
  {
    if max < 0 then min <= count else min <= count <= max
  }

  /** The five dimensions a policy bounds. */
  datatype Dimension = LengthDim | LowerDim | UpperDim | DigitDim | SpecialDim

  function MinOf(p: PolicyMatcher, d: Dimension): int {
    match d
    case LengthDim => p.minLength
    case LowerDim => p.minLower
    case UpperDim => p.minUpper
    case DigitDim => p.minDigit
    case SpecialDim => p.minSpecial
  }

  function MaxOf(p: PolicyMatcher, d: Dimension): int {
    match d
    case LengthDim => p.maxLength
    case LowerDim => p.maxLower
    case UpperDim => p.maxUpper
    case DigitDim => p.maxDigit
    case SpecialDim => p.maxSpecial
  }

  function CountOf(c: Counts, d: Dimension): nat {
    match d
    case LengthDim => c.length
    case LowerDim => c.lower
    case UpperDim => c.upper
    case DigitDim => c.digit
    case SpecialDim => c.special
  }

  /** `_is_compliant`: the five counts are computed once and each is tested against its own
      pair of bounds; the mask is compliant when all five tests pass. A compliant mask reaches
      every minimum. */
  function IsCompliant(p: PolicyMatcher, u: Categories, mask: string): (r: bool)
    ensures r ==> p.minLength <= LengthCount(mask) && p.minLower <= ClassCount(u, Lower, mask) &&
                  p.minUpper <= ClassCount(u, Upper, mask) && p.minDigit <= ClassCount(u, Digit, mask) &&
                  p.minSpecial <= ClassCount(u, Special, mask)
  {
    var c := CountsOf(u, mask);
    var length := DimensionPasses(p.minLength, p.maxLength, c.length);
    var lower := DimensionPasses(p.minLower, p.maxLower, c.lower);
    var upper := DimensionPasses(p.minUpper, p.maxUpper, c.upper);
    var digit := DimensionPasses(p.minDigit, p.maxDigit, c.digit);
    var special := DimensionPasses(p.minSpecial, p.maxSpecial, c.special);
    length && lower && upper && digit && special
  }

  /** Compliance is the conjunction of the five dimension tests, whichever way they are
      enumerated. */
  lemma CompliantIffAllDimensions(p: PolicyMatcher, u: Categories, mask: string)
    ensures IsCompliant(p, u, mask) <==>
      forall d: Dimension :: DimensionPasses(MinOf(p, d), MaxOf(p, d), CountOf(CountsOf(u, mask), d))
  {
    if IsCompliant(p, u, mask) {
      forall d: Dimension
        ensures DimensionPasses(MinOf(p, d), MaxOf(p, d), CountOf(CountsOf(u, mask), d))
      {
        match d
        case LengthDim =>
        case LowerDim =>
        case UpperDim =>
        case DigitDim =>
        case SpecialDim =>
      }
    } else {
      var c := CountsOf(u, mask);
      var d: Dimension :|
        !DimensionPasses(MinOf(p, d), MaxOf(p, d), CountOf(c, d)) by {
        if !DimensionPasses(p.minLength, p.maxLength, c.length) {
          assert !DimensionPasses(MinOf(p, LengthDim), MaxOf(p, LengthDim), CountOf(c, LengthDim));
        } else if !DimensionPasses(p.minLower, p.maxLower, c.lower) {
          assert !DimensionPasses(MinOf(p, LowerDim), MaxOf(p, LowerDim), CountOf(c, LowerDim));
        } else if !DimensionPasses(p.minUpper, p.maxUpper, c.upper) {
          assert !DimensionPasses(MinOf(p, UpperDim), MaxOf(p, UpperDim), CountOf(c, UpperDim));
        } else if !DimensionPasses(p.minDigit, p.maxDigit, c.digit) {
          assert !DimensionPasses(MinOf(p, DigitDim), MaxOf(p, DigitDim), CountOf(c, DigitDim));
        } else {
          assert !DimensionPasses(MinOf(p, SpecialDim), MaxOf(p, SpecialDim), CountOf(c, SpecialDim));
        }
      }
    }
  }

  /** Any negative maximum means "unbounded", not only -1; a maximum below the minimum
      (and not negative) makes the dimension fail for every count. */
  lemma DimensionCases(min: int, max: int, count: int)
    ensures max < 0 ==> (DimensionPasses(min, max, count) <==> min <= count)
    ensures max >= 0 ==> (DimensionPasses(min, max, count) <==> min <= count && count <= max)
    ensures 0 <= max < min ==> !DimensionPasses(min, max, count)
  {
  }

  /** A dimension whose bounds contradict each other rejects every mask. */
  lemma InconsistentBoundsReject(p: PolicyMatcher, u: Categories, mask: string, d: Dimension)
    requires 0 <= MaxOf(p, d) < MinOf(p, d)
    ensures !IsCompliant(p, u, mask)
  {
    CompliantIffAllDimensions(p, u, mask);
  }

  /** Moving a maximum to `max'` widens it: either `max'` is negative (unbounded), or both
      are non-negative and `max'` is not smaller. */
  predicate MaxWidened(max: int, max': int) {
    max' < 0 || (0 <= max && max <= max')
  }

  /** `q` is `p` with some minima lowered and some maxima widened. */
  predicate Widens(p: PolicyMatcher, q: PolicyMatcher) {
    forall d: Dimension :: MinOf(q, d) <= MinOf(p, d) && MaxWidened(MaxOf(p, d), MaxOf(q, d))
  }

  /** Widening a policy never turns a compliant mask non-compliant. */
  lemma WideningKeepsCompliance(p: PolicyMatcher, q: PolicyMatcher, u: Categories, mask: string)
    requires Widens(p, q)
    requires IsCompliant(p, u, mask)
    ensures IsCompliant(q, u, mask)
  {
    CompliantIffAllDimensions(p, u, mask);
    CompliantIffAllDimensions(q, u, mask);
  }

  /** With the record's defaults every mask is compliant. */
  lemma DefaultPolicyAcceptsAll(u: Categories, mask: string)
    ensures IsCompliant(DefaultPolicy(), u, mask)
  {
  }

  /** With the command line's defaults a mask is compliant exactly when it has at least
      eight characters other than the marker. */
  lemma CommandLineDefaultsNeedLength(u: Categories, mask: string)
    ensures IsCompliant(CommandLineDefaults(), u, mask) <==> LengthCount(mask) >= 8
  {
  }

  /** `?u?l?l?l?d` fails the command line's minimum length of 8 and passes the record's
      defaults. */
  lemma PlaceholderMaskScenario(u: Categories)
    requires AsciiFaithful(u)
    ensures !IsCompliant(CommandLineDefaults(), u, "?u?l?l?l?d")
    ensures IsCompliant(DefaultPolicy(), u, "?u?l?l?l?d")
  {
    PlaceholderMaskCounts(u);
  }

  /** A policy asking for at least one character of each class and eight of length. */
  const EveryClassPolicy: PolicyMatcher := PolicyMatcher(1, -1, 1, -1, 1, -1, 1, -1, 8, -1)

  /** `Password1!` is not compliant with that policy: its upper count is 0, because the
      literal-letter alternative needs a character before the letter. */
  lemma PasswordScenario(u: Categories)
    requires AsciiFaithful(u)
    ensures !IsCompliant(EveryClassPolicy, u, "Password1!")
    ensures IsCompliant(EveryClassPolicy.(minUpper := 0), u, "Password1!")
  {
    PasswordCounts(u);
  }
}
