/** The limits of GetThis: what a sample of a given size is refused for, and why. */
module SampleLimits {
  import opened Windows

  const INFINITE: nat := 0xFFFF_FFFF

  datatype LimitStatus =
    | SampleWithinLimits
    | GlobalSampleCountLimitReached
    | GlobalMaxBytesPerSample
    | GlobalMaxBytesTotal
    | LocalSampleCountLimitReached
    | LocalMaxBytesPerSample
    | LocalMaxBytesTotal
    | FailedToComputeLimits
    | NoLimits

  datatype Limits = Limits(
    ignoreLimits: bool,
    maxBytesTotal: nat, accumulatedBytes: nat, maxBytesTotalReached: bool,
    maxBytesPerSample: nat, maxBytesPerSampleReached: bool,
    maxSampleCount: nat, accumulatedCount: nat, maxSampleCountReached: bool)

  function SampleLimitStatus(global: Limits, local: Limits, dataSize: nat): LimitStatus {
    if global.ignoreLimits then NoLimits
    else if global.maxSampleCount != INFINITE && global.accumulatedCount >= global.maxSampleCount then
      GlobalSampleCountLimitReached
    else if local.maxSampleCount != INFINITE && local.accumulatedCount >= local.maxSampleCount then
      LocalSampleCountLimitReached
    else if global.maxBytesPerSample != INFINITE && dataSize > global.maxBytesPerSample then
      GlobalMaxBytesPerSample
    else if global.maxBytesTotal != INFINITE && Low64(dataSize + global.accumulatedBytes) > global.maxBytesTotal then
      GlobalMaxBytesTotal
    else if local.maxBytesPerSample != INFINITE && dataSize > local.maxBytesPerSample then
      LocalMaxBytesPerSample
    else if local.maxBytesTotal != INFINITE && Low64(dataSize + local.accumulatedBytes) > local.maxBytesTotal then
      LocalMaxBytesTotal
    else SampleWithinLimits
  }

  predicate Accepts(status: LimitStatus) { status.NoLimits? || status.SampleWithinLimits? }

  predicate Refused(global: Limits, local: Limits, dataSize: nat) {
    !Accepts(SampleLimitStatus(global, local, dataSize))
  }

  /** One more sample, in 32-bit and 64-bit counters. */
  function Account(limits: Limits, dataSize: nat): Limits {
    limits.(accumulatedBytes := Low64(limits.accumulatedBytes + dataSize),
            accumulatedCount := Low32(limits.accumulatedCount + 1))
  }

  /** Every accumulator is at or below its maximum, if it has one. */
  ghost predicate Bounded(limits: Limits) {
    && (limits.maxSampleCount != INFINITE ==> limits.accumulatedCount <= limits.maxSampleCount < INFINITE)
    && (limits.maxBytesTotal != INFINITE ==> limits.accumulatedBytes <= limits.maxBytesTotal < TWO_64)
  }

  /** Exactly these samples are accepted: short of each limited count, at most as large as each limited size, and, in
      64 bits, within each limited total. */
  lemma AcceptsIff(global: Limits, local: Limits, dataSize: nat)
    ensures Accepts(SampleLimitStatus(global, local, dataSize)) <==>
      || global.ignoreLimits
      || (&& (global.maxSampleCount == 0xFFFF_FFFF || global.accumulatedCount < global.maxSampleCount)
          && (local.maxSampleCount == 0xFFFF_FFFF || local.accumulatedCount < local.maxSampleCount)
          && (global.maxBytesPerSample == 0xFFFF_FFFF || dataSize <= global.maxBytesPerSample)
          && (local.maxBytesPerSample == 0xFFFF_FFFF || dataSize <= local.maxBytesPerSample)
          && (global.maxBytesTotal == 0xFFFF_FFFF
              || (dataSize + global.accumulatedBytes) % 0x1_0000_0000_0000_0000 <= global.maxBytesTotal)
          && (local.maxBytesTotal == 0xFFFF_FFFF
              || (dataSize + local.accumulatedBytes) % 0x1_0000_0000_0000_0000 <= local.maxBytesTotal))
  {
  }

  /** The counts come first, then the global limits on bytes, then the local ones; the first that refuses is named. */
  lemma StatusIsFirst(global: Limits, local: Limits, dataSize: nat)
    requires !global.ignoreLimits
    ensures var status := SampleLimitStatus(global, local, dataSize);
            var counts := CountReached(global) || CountReached(local);
            && (status == GlobalSampleCountLimitReached <==> CountReached(global))
            && (status == LocalSampleCountLimitReached <==> !CountReached(global) && CountReached(local))
            && (status == GlobalMaxBytesPerSample <==> !counts && TooLarge(global, dataSize))
            && (status == GlobalMaxBytesTotal <==>
                  !counts && !TooLarge(global, dataSize) && TotalPassed(global, dataSize))
            && (status == LocalMaxBytesPerSample <==>
                  !counts && !RefusedBy(global, dataSize) && TooLarge(local, dataSize))
            && (status == LocalMaxBytesTotal <==>
                  !counts && !RefusedBy(global, dataSize) && !TooLarge(local, dataSize) && TotalPassed(local, dataSize))
            && (status == SampleWithinLimits <==> !RefusedBy(global, dataSize) && !RefusedBy(local, dataSize))
  {
  }

  /** Accounting for a sample that was not refused keeps the bounds, even where the sum wraps. */
  lemma AccountKeepsBounds(global: Limits, local: Limits, dataSize: nat)
    requires Bounded(global) && Bounded(local) && SampleLimitStatus(global, local, dataSize).SampleWithinLimits?
    ensures Bounded(Account(global, dataSize)) && Bounded(Account(local, dataSize))
  {
  }

  ghost predicate SameMaxima(before: Limits, after: Limits) {
    && after.ignoreLimits == before.ignoreLimits && after.maxSampleCount == before.maxSampleCount
    && after.maxBytesTotal == before.maxBytesTotal && after.maxBytesPerSample == before.maxBytesPerSample
  }

  /** A maximum total that a 64-bit sum can pass. */
  predicate HasTotal(limits: Limits) {
    limits.maxBytesTotal != INFINITE && limits.maxBytesTotal < TWO_64 - 1
  }

  /** The same limits, with no limited accumulator below where it was. */
  ghost predicate NotBelow(before: Limits, after: Limits) {
    && SameMaxima(before, after)
    && (after.maxSampleCount != INFINITE ==> before.accumulatedCount <= after.accumulatedCount)
    && (HasTotal(after) ==> before.accumulatedBytes <= after.accumulatedBytes)
  }

  predicate CountReached(limits: Limits) {
    limits.maxSampleCount != INFINITE && limits.accumulatedCount >= limits.maxSampleCount
  }

  predicate TooLarge(limits: Limits, dataSize: nat) {
    limits.maxBytesPerSample != INFINITE && dataSize > limits.maxBytesPerSample
  }

  /** The total would pass its maximum, as far as 64 bits tell. */
  predicate TotalPassed(limits: Limits, dataSize: nat) {
    limits.maxBytesTotal != INFINITE && Low64(dataSize + limits.accumulatedBytes) > limits.maxBytesTotal
  }

  predicate RefusedBy(limits: Limits, dataSize: nat) {
    CountReached(limits) || TooLarge(limits, dataSize) || TotalPassed(limits, dataSize)
  }

  /** The size can wrap its sum with a total that is within the maximum. */
  predicate Wrappable(limits: Limits, dataSize: nat) {
    HasTotal(limits) && dataSize + limits.maxBytesTotal >= TWO_64
  }

  /** Refusal is monotone in the size and in the accumulators as long as no limited sum can wrap. */
  lemma RefusalMonotone(global: Limits, local: Limits, size: nat, global': Limits, local': Limits, size': nat)
    requires Refused(global, local, size) && size <= size'
    requires NotBelow(global, global') && NotBelow(local, local') && Bounded(global') && Bounded(local')
    requires !Wrappable(global, size') && !Wrappable(local, size')
    ensures Refused(global', local', size')
  {
  }

  // --------------------------------------------- when refusal is permanent

  /** The maxima fit their widths. */
  ghost predicate Fits(limits: Limits) {
    limits.maxSampleCount <= INFINITE && limits.maxBytesTotal < TWO_64
  }

  /** The maxima alone refuse the size. */
  predicate NeverTakes(limits: Limits, dataSize: nat) {
    || limits.maxSampleCount == 0 || TooLarge(limits, dataSize)
    || (HasTotal(limits) && limits.maxBytesTotal < dataSize && !Wrappable(limits, dataSize))
  }

  /** What makes a refusal of this size permanent: some maxima refuse it outright, or it cannot wrap any total. */
  predicate Permanent(global: Limits, local: Limits, dataSize: nat) {
    || NeverTakes(global, dataSize) || NeverTakes(local, dataSize)
    || (!Wrappable(global, dataSize) && !Wrappable(local, dataSize))
  }

  /** Within these maxima, the refusal of a size carries over to a size at least as large in any later state. */
  ghost predicate Persists(global: Limits, local: Limits, size': nat) {
    forall g, l, g', l', size: nat ::
      && SameMaxima(global, g) && SameMaxima(local, l) && NotBelow(g, g') && NotBelow(l, l')
      && Bounded(g') && Bounded(l') && size <= size' && Refused(g, l, size)
      ==> Refused(g', l', size')
  }

  /** Accumulators with which the size is taken unless the maxima refuse it. */
  function Taking(limits: Limits, dataSize: nat): Limits {
    limits.(accumulatedCount := 0,
            accumulatedBytes := if Wrappable(limits, dataSize) && dataSize < TWO_64 then TWO_64 - dataSize else 0)
  }

  lemma TakingTakes(limits: Limits, dataSize: nat)
    requires Fits(limits) && dataSize < TWO_64
    ensures SameMaxima(limits, Taking(limits, dataSize)) && Bounded(Taking(limits, dataSize))
    ensures RefusedBy(Taking(limits, dataSize), dataSize) <==> NeverTakes(limits, dataSize)
  {
  }

  /** The maxima refuse a size exactly when no accumulators within them let it through. */
  lemma {:induction false} NeverTakesIff(limits: Limits, dataSize: nat)
    requires Fits(limits) && dataSize < TWO_64
    ensures NeverTakes(limits, dataSize) <==>
      forall other :: SameMaxima(limits, other) && Bounded(other) ==> RefusedBy(other, dataSize)
  {
    TakingTakes(limits, dataSize);
  }

  /** A size refused where a larger one that wraps is taken. */
  function SmallerRefused(limits: Limits, dataSize: nat): nat
    requires Wrappable(limits, dataSize)
  {
    limits.maxBytesTotal + dataSize - TWO_64 + 1
  }

  lemma SmallerIsRefused(limits: Limits, dataSize: nat)
    requires Fits(limits) && dataSize < TWO_64 && Wrappable(limits, dataSize)
    ensures SmallerRefused(limits, dataSize) <= dataSize
    ensures RefusedBy(Taking(limits, dataSize), SmallerRefused(limits, dataSize))
  {
  }

  lemma RefusedIff(global: Limits, local: Limits, dataSize: nat)
    ensures Refused(global, local, dataSize) <==>
      !global.ignoreLimits && (RefusedBy(global, dataSize) || RefusedBy(local, dataSize))
  {
  }

  /** Unless refusal is permanent, there are accumulators that refuse a smaller size and take this one. */
  lemma TakenAfterRefusal(global: Limits, local: Limits, size': nat) returns (size: nat)
    requires !global.ignoreLimits && Fits(global) && Fits(local) && size' < TWO_64 && !Permanent(global, local, size')
    ensures size <= size' && Refused(Taking(global, size'), Taking(local, size'), size)
    ensures !Refused(Taking(global, size'), Taking(local, size'), size')
  {
    hide RefusedBy, Refused;
    TakingTakes(global, size');
    TakingTakes(local, size');
    var limits := if Wrappable(global, size') then global else local;
    SmallerIsRefused(limits, size');
    size := SmallerRefused(limits, size');
    RefusedIff(Taking(global, size'), Taking(local, size'), size);
    RefusedIff(Taking(global, size'), Taking(local, size'), size');
  }

  lemma PermanentCarries(global: Limits, local: Limits, size: nat, global': Limits, local': Limits, size': nat)
    requires Permanent(global, local, size') && Refused(global, local, size) && size <= size' < TWO_64
    requires NotBelow(global, global') && NotBelow(local, local') && Bounded(global') && Bounded(local')
    ensures Refused(global', local', size')
  {
    if !Wrappable(global, size') && !Wrappable(local, size') {
      RefusalMonotone(global, local, size, global', local', size');
    }
  }

  /** Once a size is refused, a size at least as large is refused ever after, for all accumulators, exactly when
      the maxima make it permanent. */
  lemma {:induction false} RefusalPersistsIff(global: Limits, local: Limits, size': nat)
    requires !global.ignoreLimits && Fits(global) && Fits(local) && size' < TWO_64
    ensures Persists(global, local, size') <==> Permanent(global, local, size')
  {
    hide Refused;
    if Permanent(global, local, size') {
      forall g, l, g', l', size: nat |
        && SameMaxima(global, g) && SameMaxima(local, l) && NotBelow(g, g') && NotBelow(l, l')
        && Bounded(g') && Bounded(l') && size <= size' && Refused(g, l, size)
        ensures Refused(g', l', size')
      {
        PermanentCarries(g, l, size, g', l', size');
      }
    } else {
      var size := TakenAfterRefusal(global, local, size');
      TakingTakes(global, size');
      TakingTakes(local, size');
      assert NotBelow(Taking(global, size'), Taking(global, size')) && NotBelow(Taking(local, size'), Taking(local, size'));
    }
  }

  const UNLIMITED := Limits(false, INFINITE, 0, false, INFINITE, false, INFINITE, 0, false)
}
