/** Whether a refusal lasts: in the runs of GetThis from its configured limits, can a size be refused for a
    specification and a size at least as large be taken later? */
module SampleRefusal {
  import opened Windows
  import opened SampleLimits
  import opened SampleNaming
  import opened SampleKeys
  import opened SampleCollection

  ghost predicate SizesAtMost(matches: seq<Match>, size: nat) {
    forall k, i :: 0 <= k < |matches| && 0 <= i < |matches[k].attributes| ==> matches[k].attributes[i].dataSize <= size
  }

  /** No sample yet, nothing counted or marked, limits enabled. */
  ghost predicate Start(st: State) {
    && st.collected == Collected([], {}) && !st.global.ignoreLimits && AtZero(st.global) && Unmarked(st.global)
    && forall j :: 0 <= j < |st.specs| ==> AtZero(st.specs[j].limits) && Unmarked(st.specs[j].limits)
  }

  /** If a size is refused for the specification after the earlier matches, the larger size is refused for it after
      the later ones. */
  ghost predicate LastsOver(st: State, earlier: seq<Match>, later: seq<Match>, spec: nat, size: nat, size': nat)
    requires spec < |st.specs|
  {
    && SizesAtMost(earlier, size') && SizesAtMost(later, size') && size <= size'
    && !Accepts(StatusOf(Run(st, earlier), spec, size))
    ==> !Accepts(StatusOf(Run(Run(st, earlier), later), spec, size'))
  }

  /** So it is for all runs over files of at most `size'` bytes. */
  ghost predicate Lasts(st: State, spec: nat, size': nat)
    requires spec < |st.specs|
  {
    forall earlier, later, size: nat :: LastsOver(st, earlier, later, spec, size, size')
  }

  // ------------------------------------------------- a condition on the maxima

  /** The count leaves room for files of this size to fill 64 bits. */
  predicate Many(limits: Limits, size: nat) {
    limits.maxSampleCount == INFINITE || limits.maxSampleCount * size >= TWO_64
  }

  /** Files of at most this size can bring the total so far that one more wraps it. */
  predicate Reaches(limits: Limits, size: nat) {
    (HasTotal(limits) ==> Wrappable(limits, size)) && Many(limits, size)
  }

  /** Some total is limited, and samples of a single specification can wrap what is limited. */
  predicate CanWrap(global: Limits, local: Limits, size: nat) {
    (HasTotal(global) || HasTotal(local)) && Reaches(global, size) && Reaches(local, size)
  }

  /** The maxima refuse the size outright, or keep the samples of the specification from wrapping a total. */
  predicate Lasting(global: Limits, local: Limits, size: nat) {
    NeverTakes(global, size) || NeverTakes(local, size) || !CanWrap(global, local, size)
  }

  /** No other specification can wrap the global total either. */
  predicate Alone(st: State, size: nat) {
    |st.specs| == 1 || !HasTotal(st.global) || !Reaches(st.global, size)
  }

  // ----------------------------------------------------- what bounds the totals

  /** With a limited count, the total is at most that many files of the size. */
  ghost predicate Filled(bytes: nat, limits: Limits, size: nat) {
    limits.maxSampleCount != INFINITE ==> bytes <= limits.accumulatedCount * size
  }

  /** What holds in every run over files of at most this size. */
  ghost predicate Bounds(st: State, spec: nat, size: nat)
    requires spec < |st.specs|
  {
    var global, local := st.global, st.specs[spec].limits;
    && WithinLimits(st)
    && Filled(global.accumulatedBytes, global, size) && Filled(local.accumulatedBytes, global, size)
    && Filled(local.accumulatedBytes, local, size)
    && (|st.specs| == 1 ==> local.accumulatedBytes == global.accumulatedBytes)
    && (HasTotal(global) && !Reaches(global, size) ==> local.accumulatedBytes <= global.accumulatedBytes)
  }

  /** Short of a count, one more file of the size wraps no limited total. */
  ghost predicate NoWrap(bytes: nat, limits: Limits, size: nat) {
    HasTotal(limits) ==> bytes + size < TWO_64
  }

  lemma TimesOrder(a: nat, b: nat, size: nat)
    requires a <= b
    ensures a * size <= b * size
  {
    assert b * size == a * size + (b - a) * size;
  }

  lemma TimesNext(n: nat, size: nat)
    ensures (n + 1) * size == n * size + size
  {
  }

  lemma FilledStep(bytes: nat, limits: Limits, size: nat, more: nat)
    requires Filled(bytes, limits, size) && more <= size && Bounded(limits) && !CountReached(limits)
    ensures forall dataSize: nat :: Filled(Low64(bytes + more), Account(limits, dataSize), size)
    ensures forall dataSize: nat :: Filled(bytes, Account(limits, dataSize), size)
  {
    TimesNext(limits.accumulatedCount, size);
  }

  lemma FilledSame(bytes: nat, before: Limits, after: Limits, size: nat)
    requires Filled(bytes, before, size) && SameAccumulators(before, after)
    ensures Filled(bytes, after, size)
  {
  }

  /** A count that is not many keeps the next file from wrapping. */
  lemma FewCannotWrap(bytes: nat, limits: Limits, size: nat)
    requires Filled(bytes, limits, size) && !CountReached(limits) && !Many(limits, size)
    ensures bytes + size < TWO_64
  {
    var n := limits.accumulatedCount;
    TimesNext(n, size);
    TimesOrder(n + 1, limits.maxSampleCount, size);
  }

  lemma UnreachedCannotWrap(limits: Limits, size: nat)
    requires Filled(limits.accumulatedBytes, limits, size) && Bounded(limits) && !CountReached(limits)
    requires HasTotal(limits) && !Reaches(limits, size)
    ensures limits.accumulatedBytes + size < TWO_64
  {
    if !Many(limits, size) { FewCannotWrap(limits.accumulatedBytes, limits, size); }
  }

  /** While no count is reached, neither total can wrap. */
  lemma CannotWrap(st: State, spec: nat, size: nat)
    requires spec < |st.specs| && Bounds(st, spec, size) && Alone(st, size)
    requires !CanWrap(st.global, st.specs[spec].limits, size)
    requires !CountReached(st.global) && !CountReached(st.specs[spec].limits)
    ensures NoWrap(st.global.accumulatedBytes, st.global, size)
    ensures NoWrap(st.specs[spec].limits.accumulatedBytes, st.specs[spec].limits, size)
  {
    hide Filled, Many;
    var global, local := st.global, st.specs[spec].limits;
    assert Bounded(local);
    if HasTotal(global) && !Reaches(global, size) {
      UnreachedCannotWrap(global, size);
    } else if HasTotal(local) && !Reaches(local, size) {
      UnreachedCannotWrap(local, size);
    } else if !Many(global, size) {
      FewCannotWrap(local.accumulatedBytes, global, size);
    } else if !Many(local, size) {
      FewCannotWrap(local.accumulatedBytes, local, size);
    }
  }

  // ---------------------------------------------------------- refusals that last

  /** A count is reached, or no limited accumulator is below where it was. */
  ghost predicate Kept(st: State, s: State, spec: nat)
    requires spec < |st.specs|
  {
    && SameConfiguration(st, s)
    && (CountReached(s.global) || CountReached(s.specs[spec].limits) || Later(st, s, spec))
  }

  lemma StepBounds(s: State, of: nat, spec: nat, match_: Match, i: nat, size: nat)
    requires of < |s.specs| && spec < |s.specs| && i < |match_.attributes| && Bounds(s, of, size)
    requires match_.attributes[i].dataSize <= size
    ensures Bounds(StepAttribute(s, spec, match_, i), of, size)
  {
    hide StepAttribute, Counted, Filled, Low64, Low32, WithinLimits, Reaches, Bounded;
    var after, more := StepAttribute(s, spec, match_, i), match_.attributes[i].dataSize;
    var global, local := s.global, s.specs[of].limits;
    StepAttributeLimits(s, spec, match_, i);
    StepAttributeWithinLimits(s, spec, match_, i);
    if Counted(s, spec, match_, i) {
      CountedIsTaken(s, spec, match_, i);
      FilledStep(global.accumulatedBytes, global, size, more);
      FilledStep(local.accumulatedBytes, global, size, more);
      if spec == of { FilledStep(local.accumulatedBytes, local, size, more); }
      if HasTotal(global) && !Reaches(global, size) { UnreachedCannotWrap(global, size); }
      ReachesSame(global, after.global, size);
    } else {
      FilledSame(global.accumulatedBytes, global, after.global, size);
      FilledSame(local.accumulatedBytes, global, after.global, size);
      if spec == of { FilledSame(local.accumulatedBytes, local, after.specs[of].limits, size); }
      ReachesSame(global, after.global, size);
    }
  }

  lemma ReachesSame(before: Limits, after: Limits, size: nat)
    requires SameMaxima(before, after)
    ensures Reaches(before, size) <==> Reaches(after, size)
    ensures HasTotal(before) <==> HasTotal(after)
  {
  }

  /** Whether refusals last is a matter of the maxima. */
  lemma SameMaximaSame(st: State, s: State, spec: nat, size: nat)
    requires SameConfiguration(st, s) && spec < |st.specs|
    ensures CanWrap(st.global, st.specs[spec].limits, size) <==> CanWrap(s.global, s.specs[spec].limits, size)
    ensures Alone(st, size) <==> Alone(s, size)
  {
    hide Reaches, HasTotal;
    ReachesSame(st.global, s.global, size);
    ReachesSame(st.specs[spec].limits, s.specs[spec].limits, size);
  }

  lemma CountStaysReached(limits: Limits, after: Limits)
    requires CountReached(limits) && SameAccumulators(limits, after)
    ensures CountReached(after)
  {
  }

  lemma AccountNotBelow(before: Limits, limits: Limits, more: nat, size: nat)
    requires NotBelow(before, limits) && Bounded(limits) && !CountReached(limits)
    requires more <= size && NoWrap(limits.accumulatedBytes, limits, size)
    ensures NotBelow(before, Account(limits, more))
  {
  }

  lemma SameNotBelow(before: Limits, limits: Limits, after: Limits)
    requires NotBelow(before, limits) && SameAccumulators(limits, after)
    ensures NotBelow(before, after)
  {
  }

  lemma StepKept(st: State, s: State, of: nat, spec: nat, match_: Match, i: nat, size: nat)
    requires of < |st.specs| && Kept(st, s, of) && Bounds(s, of, size) && Alone(st, size)
    requires !CanWrap(st.global, st.specs[of].limits, size)
    requires spec < |s.specs| && i < |match_.attributes| && match_.attributes[i].dataSize <= size
    ensures Kept(st, StepAttribute(s, spec, match_, i), of)
  {
    hide StepAttribute, Counted, CanWrap, Alone, CountReached, Bounded, NotBelow, NoWrap, WithinLimits, SameConfiguration;
    var after, more := StepAttribute(s, spec, match_, i), match_.attributes[i].dataSize;
    SameSpecs(st, s);
    StepAttributeConfiguration(st, s, spec, match_, i);
    SameSpecs(st, after);
    StepAttributeLimits(s, spec, match_, i);
    if Counted(s, spec, match_, i) {
      CountedIsTaken(s, spec, match_, i);
      if !CountReached(s.specs[of].limits) {
        SameMaximaSame(st, s, of, size);
        CannotWrap(s, of, size);
        AccountNotBelow(st.global, s.global, more, size);
        if spec == of { AccountNotBelow(st.specs[of].limits, s.specs[of].limits, more, size); }
      }
    } else if CountReached(s.global) {
      CountStaysReached(s.global, after.global);
    } else if CountReached(s.specs[of].limits) {
      if spec == of { CountStaysReached(s.specs[of].limits, after.specs[of].limits); }
    } else {
      SameNotBelow(st.global, s.global, after.global);
      if spec == of { SameNotBelow(st.specs[of].limits, s.specs[of].limits, after.specs[of].limits); }
    }
  }

  lemma SameSpecs(st: State, s: State)
    requires SameConfiguration(st, s)
    ensures |s.specs| == |st.specs|
  {
  }

  /** Over every run over files of at most this size, the bounds hold; and where no total can wrap, no limited
      accumulator decreases before a count is reached. */
  lemma {:induction false} RunKept(st: State, matches: seq<Match>, of: nat, size: nat)
    requires of < |st.specs| && Bounds(st, of, size) && SizesAtMost(matches, size)
    ensures |Run(st, matches).specs| == |st.specs| && Bounds(Run(st, matches), of, size)
    ensures Alone(st, size) && !CanWrap(st.global, st.specs[of].limits, size) ==> Kept(st, Run(st, matches), of)
  {
    hide StepAttribute, Bounds, Kept, CanWrap, Alone;
    var safe := Alone(st, size) && !CanWrap(st.global, st.specs[of].limits, size);
    KeptAtFirst(st, of);
    forall s: State, spec: nat, k: nat, i: nat
      | of < |s.specs| && Bounds(s, of, size) && (safe ==> Kept(st, s, of)) && spec < |s.specs|
        && k < |matches| && i < |matches[k].attributes|
      ensures Bounds(StepAttribute(s, spec, matches[k], i), of, size)
      ensures safe ==> Kept(st, StepAttribute(s, spec, matches[k], i), of)
    {
      StepBounds(s, of, spec, matches[k], i, size);
      if safe { StepKept(st, s, of, spec, matches[k], i, size); }
    }
    RunInvariant((s: State) => of < |s.specs| && Bounds(s, of, size) && (safe ==> Kept(st, s, of)), st, matches);
  }

  lemma KeptAtFirst(st: State, of: nat)
    requires of < |st.specs|
    ensures Kept(st, st, of)
  {
  }

  lemma StartBounds(st: State, spec: nat, size: nat)
    requires Start(st) && spec < |st.specs|
    ensures Bounds(st, spec, size)
  {
    InitialState(st.global, st.specs);
  }

  /** Where no total wraps before a count is reached, what was refused is refused. */
  lemma KeptRefuses(st: State, s: State, spec: nat, size: nat, size': nat)
    requires spec < |st.specs| && Kept(st, s, spec) && !st.global.ignoreLimits && size <= size'
    requires RefusedBy(st.global, size) || RefusedBy(st.specs[spec].limits, size)
    requires !CountReached(s.global) && !CountReached(s.specs[spec].limits) ==>
      && NoWrap(s.global.accumulatedBytes, s.global, size')
      && NoWrap(s.specs[spec].limits.accumulatedBytes, s.specs[spec].limits, size')
    ensures RefusedBy(s.global, size') || RefusedBy(s.specs[spec].limits, size')
  {
    if !CountReached(s.global) && !CountReached(s.specs[spec].limits) {
      if RefusedBy(st.global, size) {
        NotBelowRefuses(st.global, s.global, size, size');
      } else {
        NotBelowRefuses(st.specs[spec].limits, s.specs[spec].limits, size, size');
      }
    }
  }

  lemma NotBelowRefuses(before: Limits, after: Limits, size: nat, size': nat)
    requires NotBelow(before, after) && size <= size' && RefusedBy(before, size)
    requires NoWrap(after.accumulatedBytes, after, size')
    ensures RefusedBy(after, size')
  {
  }

  /** Maxima that refuse a size outright refuse it in every run. */
  lemma NeverTakesRefuses(st: State, s: State, spec: nat, size: nat)
    requires spec < |st.specs| && SameConfiguration(st, s) && WithinLimits(s)
    requires NeverTakes(st.global, size) || NeverTakes(st.specs[spec].limits, size)
    ensures RefusedBy(s.global, size) || RefusedBy(s.specs[spec].limits, size)
  {
    assert Bounded(s.specs[spec].limits) && SameMaxima(st.specs[spec].limits, s.specs[spec].limits);
  }

  /** If the maxima make refusals last, and no other specification can wrap the global total, they last over every
      run from the start. */
  lemma {:induction false} RefusalLasts(st: State, spec: nat, size': nat)
    requires Start(st) && spec < |st.specs|
    requires Lasting(st.global, st.specs[spec].limits, size') && Alone(st, size')
    ensures Lasts(st, spec, size')
  {
    hide Lasting, Alone, Start, StatusOf, Run, SizesAtMost;
    forall earlier, later, size: nat ensures LastsOver(st, earlier, later, spec, size, size') {
      if SizesAtMost(earlier, size') && SizesAtMost(later, size') && size <= size'
         && !Accepts(StatusOf(Run(st, earlier), spec, size)) {
        RefusalLastsOver(st, earlier, later, spec, size, size');
      }
    }
  }

  lemma StatusIff(s: State, spec: nat, size: nat)
    requires spec < |s.specs|
    ensures Accepts(StatusOf(s, spec, size)) <==>
      s.global.ignoreLimits || !(RefusedBy(s.global, size) || RefusedBy(s.specs[spec].limits, size))
  {
  }

  lemma RefusalLastsOver(st: State, earlier: seq<Match>, later: seq<Match>, spec: nat, size: nat, size': nat)
    requires Start(st) && spec < |st.specs|
    requires Lasting(st.global, st.specs[spec].limits, size') && Alone(st, size')
    requires SizesAtMost(earlier, size') && SizesAtMost(later, size') && size <= size'
    requires !Accepts(StatusOf(Run(st, earlier), spec, size))
    ensures !Accepts(StatusOf(Run(Run(st, earlier), later), spec, size'))
  {
    hide Alone, StatusOf, Run, SizesAtMost, CanWrap, NeverTakes, RefusedBy, Kept, NoWrap, CountReached;
    var s := Run(st, earlier);
    var after := Run(s, later);
    StartBounds(st, spec, size');
    RunKept(st, earlier, spec, size');
    RunConfiguration(st, earlier);
    RunKept(s, later, spec, size');
    RunConfiguration(s, later);
    StatusIff(s, spec, size);
    StatusIff(after, spec, size');
    SameMaximaSame(st, s, spec, size');
    SameMaximaSame(s, after, spec, size');
    if CanWrap(st.global, st.specs[spec].limits, size') {
      NeverTakesRefuses(st, after, spec, size');
    } else {
      if !CountReached(after.global) && !CountReached(after.specs[spec].limits) {
        CannotWrap(after, spec, size');
      }
      KeptRefuses(s, after, spec, size, size');
    }
  }

  lemma CountedIsTaken(s: State, spec: nat, match_: Match, i: nat)
    requires spec < |s.specs| && i < |match_.attributes| && WithinLimits(s) && Counted(s, spec, match_, i)
    ensures !CountReached(s.global) && !CountReached(s.specs[spec].limits)
    ensures Bounded(s.global) && Bounded(s.specs[spec].limits)
  {
    hide AddMatch;
  }

  // ------------------------------------------------- refusals that are lifted

  /** A file with one name and one stream, on a volume of its own. */
  function File(term: int, volume: nat, size: nat): Match {
    Match(term, volume, None, FileReference(1, 0, 40),
          [NameMatch("\\a", Some(FileName(5, 0, 5, "a")))], [AttributeMatch(1, "", size, 0, 0, true)])
  }

  function Files(term: int, sizes: seq<nat>): seq<Match> {
    if sizes == [] then []
    else
      var n := |sizes| - 1;
      Files(term, sizes[..n]) + [File(term, n, sizes[n])]
  }

  function Sum(sizes: seq<nat>): nat {
    if sizes == [] then 0 else Sum(sizes[..|sizes| - 1]) + sizes[|sizes| - 1]
  }

  ghost predicate AtMost(sizes: seq<nat>, size: nat) {
    forall k :: 0 <= k < |sizes| ==> sizes[k] <= size
  }

  /** These limits let so many files of at most this size through, up to this total. */
  ghost predicate Room(limits: Limits, count: nat, size: nat, total: nat) {
    && (limits.maxSampleCount != INFINITE ==> count <= limits.maxSampleCount)
    && !TooLarge(limits, size)
    && (limits.maxBytesTotal != INFINITE ==> total <= limits.maxBytesTotal)
    && total < TWO_64
  }

  /** The files have been collected and counted. */
  ghost predicate Holds(st: State, s: State, spec: nat, sizes: seq<nat>)
    requires spec < |st.specs|
  {
    && SameConfiguration(st, s) && SameTerms(st, s)
    && HoldsLimits(s.global, sizes) && HoldsLimits(s.specs[spec].limits, sizes)
    && (forall j :: 0 <= j < |st.specs| && j != spec ==> s.specs[j] == st.specs[j])
    && forall e :: e in s.collected.samples ==> e.matches != [] && e.volume < |sizes|
  }

  ghost predicate HoldsLimits(limits: Limits, sizes: seq<nat>) {
    && limits.accumulatedBytes == Sum(sizes)
    && (limits.maxSampleCount != INFINITE ==> limits.accumulatedCount == |sizes|)
  }

  lemma SumAppend(sizes: seq<nat>, last: nat)
    ensures Sum(sizes + [last]) == Sum(sizes) + last
  {
    assert (sizes + [last])[..|sizes|] == sizes;
  }

  lemma FilesAppend(term: int, sizes: seq<nat>, last: nat)
    ensures Files(term, sizes + [last]) == Files(term, sizes) + [File(term, |sizes|, last)]
  {
    assert (sizes + [last])[..|sizes|] == sizes;
  }

  lemma RoomTakes(limits: Limits, sizes: seq<nat>, last: nat, count: nat, size: nat, total: nat)
    requires Room(limits, count, size, total) && Fits(limits) && HoldsLimits(limits, sizes)
    requires |sizes| < count && last <= size && Sum(sizes) + last <= total
    ensures !RefusedBy(limits, last) && HoldsLimits(Account(limits, last), sizes + [last])
  {
    SumAppend(sizes, last);
  }

  lemma RoomSame(before: Limits, after: Limits, count: nat, size: nat, total: nat)
    requires SameMaxima(before, after)
    ensures Room(before, count, size, total) <==> Room(after, count, size, total)
    ensures Fits(before) <==> Fits(after)
  {
  }

  /** A file on a volume no sample comes from is collected and counted. */
  lemma NewFileCounted(s: State, spec: nat, term: int, volume: nat, size: nat)
    requires spec < |s.specs| && FindSpec(s.specs, term) == spec
    requires !RefusedBy(s.global, size) && !RefusedBy(s.specs[spec].limits, size)
    requires forall e :: e in s.collected.samples ==> e.matches != [] && e.volume < volume
    ensures var after := StepMatch(s, File(term, volume, size));
            && after == StepAttribute(s, spec, File(term, volume, size), 0)
            && Counted(s, spec, File(term, volume, size), 0)
            && forall e :: e in after.collected.samples ==> e.matches != [] && e.volume <= volume
  {
    hide Counted, AddAttribute, StatusOf, StepAttribute, Less, RefusedBy;
    var file := File(term, volume, size);
    assert StepAttributes(s, spec, file, 0) == s;
    assert StepAttributes(s, spec, file, 1) == StepAttribute(s, spec, file, 0);
    StatusIff(s, spec, size);
    NewFileAdded(s.collected, StatusOf(s, spec, size), s.specs[spec], file);
    CountedIs(s, spec, file);
  }

  lemma CountedIs(s: State, spec: nat, match_: Match)
    requires spec < |s.specs| && |match_.attributes| == 1
    ensures var status := StatusOf(s, spec, match_.attributes[0].dataSize);
            && (Counted(s, spec, match_, 0) <==>
                  Accepts(status) && AddAttribute(s.collected, status, s.specs[spec], match_, 0).1 != S_FALSE)
            && StepAttribute(s, spec, match_, 0).collected == AddAttribute(s.collected, status, s.specs[spec], match_, 0).0
  {
    hide AddAttribute, SampleLimitStatus;
    var status := StatusOf(s, spec, match_.attributes[0].dataSize);
    assert AddAttributes(s.collected, status, s.specs[spec], match_, 0).0 == s.collected;
    assert AddAttributes(s.collected, status, s.specs[spec], match_, 1)
        == AddAttribute(s.collected, status, s.specs[spec], match_, 0);
  }

  lemma NewFileAdded(c: Collected, status: LimitStatus, spec: SampleSpec, file: Match)
    requires |file.attributes| == 1 && forall e :: e in c.samples ==> e.matches != [] && e.volume < file.volume
    ensures var (after, hr) := AddAttribute(c, status, spec, file, 0);
            && hr != S_FALSE
            && forall e :: e in after.samples ==> e.matches != [] && e.volume <= file.volume
  {
    hide Less, Insert;
    AddAttributePresent(c, status, spec, file, 0);
    var ref, named := RefFor(file, 0, false), NamedRef(c, spec, file, 0, !Accepts(status));
    forall e | e in c.samples ensures !Equivalent(e, ref) {
      LessIsStrictWeakOrder(e, ref, ref);
    }
    InsertMembers(c.samples, named);
  }

  /** Files that have room are all collected and counted. */
  lemma {:induction false} FilesHold(st: State, spec: nat, term: int, sizes: seq<nat>, size: nat)
    requires Start(st) && spec < |st.specs| && FindSpec(st.specs, term) == spec && AtMost(sizes, size)
    requires Room(st.global, |sizes|, size, Sum(sizes)) && Room(st.specs[spec].limits, |sizes|, size, Sum(sizes))
    ensures Holds(st, Run(st, Files(term, sizes)), spec, sizes)
  {
    hide StepMatch, File, Room;
    if sizes != [] {
      var n := |sizes| - 1;
      var before, last := sizes[..n], sizes[n];
      assert sizes == before + [last];
      SumAppend(before, last);
      RoomShrinks(st.global, |sizes|, size, Sum(sizes), n, Sum(before));
      RoomShrinks(st.specs[spec].limits, |sizes|, size, Sum(sizes), n, Sum(before));
      FilesHold(st, spec, term, before, size);
      FilesAppend(term, before, last);
      RunAppend(st, Files(term, before), File(term, n, last));
      NextFileHolds(st, Run(st, Files(term, before)), spec, term, before, last, size);
    }
  }

  lemma RoomShrinks(limits: Limits, count: nat, size: nat, total: nat, count': nat, total': nat)
    requires Room(limits, count, size, total) && count' <= count && total' <= total
    ensures Room(limits, count', size, total')
  {
  }

  /** A file there is room for is accounted for, globally and for its specification, and changes nothing else. */
  lemma NextFileCounts(st: State, s: State, spec: nat, term: int, sizes: seq<nat>, last: nat, size: nat)
    requires Start(st) && spec < |st.specs| && FindSpec(st.specs, term) == spec && Holds(st, s, spec, sizes)
    requires last <= size
    requires Room(st.global, |sizes| + 1, size, Sum(sizes) + last)
    requires Room(st.specs[spec].limits, |sizes| + 1, size, Sum(sizes) + last)
    ensures var after := StepMatch(s, File(term, |sizes|, last));
            && after.global == Account(s.global, last)
            && |after.specs| == |s.specs| == |st.specs|
            && after.specs[spec] == s.specs[spec].(limits := Account(s.specs[spec].limits, last))
            && (forall j :: 0 <= j < |st.specs| && j != spec ==> after.specs[j] == s.specs[j])
            && (forall e :: e in after.collected.samples ==> e.matches != [] && e.volume <= |sizes|)
            && HoldsLimits(after.global, sizes + [last]) && HoldsLimits(after.specs[spec].limits, sizes + [last])
  {
    hide StepMatch, StepAttribute, Room, HoldsLimits, Counted, RefusedBy, Fits, Sum;
    var file := File(term, |sizes|, last);
    SameTermsFind(st, s, term);
    RoomSame(st.global, s.global, |sizes| + 1, size, Sum(sizes) + last);
    RoomSame(st.specs[spec].limits, s.specs[spec].limits, |sizes| + 1, size, Sum(sizes) + last);
    RoomTakes(s.global, sizes, last, |sizes| + 1, size, Sum(sizes) + last);
    RoomTakes(s.specs[spec].limits, sizes, last, |sizes| + 1, size, Sum(sizes) + last);
    NewFileCounted(s, spec, term, |sizes|, last);
    StepAttributeLimits(s, spec, file, 0);
  }

  lemma NextFileHolds(st: State, s: State, spec: nat, term: int, sizes: seq<nat>, last: nat, size: nat)
    requires Start(st) && spec < |st.specs| && FindSpec(st.specs, term) == spec && Holds(st, s, spec, sizes)
    requires last <= size
    requires Room(st.global, |sizes| + 1, size, Sum(sizes) + last)
    requires Room(st.specs[spec].limits, |sizes| + 1, size, Sum(sizes) + last)
    ensures Holds(st, StepMatch(s, File(term, |sizes|, last)), spec, sizes + [last])
  {
    hide StepMatch, Room, HoldsLimits, File, Sum, Start, FindSpec;
    NextFileCounts(st, s, spec, term, sizes, last, size);
  }

  lemma SameTermsFind(st: State, s: State, term: int)
    requires SameTerms(st, s)
    ensures FindSpec(s.specs, term) == FindSpec(st.specs, term)
  {
  }

  // ------------------------------------------------ filling up to a given total

  /** Sizes of at most `size` that add up to a total. */
  function Filling(total: nat, size: nat): seq<nat>
    requires size > 0
    decreases total
  {
    if total == 0 then [] else if total <= size then [total] else Filling(total - size, size) + [size]
  }

  lemma FillingStep(total: nat, size: nat)
    requires 0 < size < total
    ensures Filling(total, size) == Filling(total - size, size) + [size]
  {
  }

  lemma AtMostAppend(sizes: seq<nat>, size: nat)
    requires AtMost(sizes, size)
    ensures AtMost(sizes + [size], size)
  {
  }

  lemma {:induction false} FillingIs(total: nat, size: nat)
    requires size > 0
    ensures Sum(Filling(total, size)) == total && AtMost(Filling(total, size), size)
    ensures |Filling(total, size)| * size < total + size
    ensures |Filling(total, size)| <= total
  {
    if total > size {
      hide Filling, Sum, AtMost;
      var rest := Filling(total - size, size);
      FillingStep(total, size);
      FillingIs(total - size, size);
      SumAppend(rest, size);
      AtMostAppend(rest, size);
      TimesNext(|rest|, size);
    } else if total > 0 {
      SumAppend([], total);
      assert [] + [total] == [total];
    }
  }

  /** A count with room for many files has room for more than it takes to fill up to where one more wraps. */
  lemma FillingFits(limits: Limits, size: nat)
    requires 0 < size < TWO_64 && Many(limits, size)
    ensures limits.maxSampleCount != INFINITE ==> |Filling(TWO_64 - size, size)| < limits.maxSampleCount
  {
    FillingIs(TWO_64 - size, size);
    var k, max := |Filling(TWO_64 - size, size)|, limits.maxSampleCount;
    if max != INFINITE && max <= k { TimesOrder(max, k, size); }
  }

  lemma {:induction false} FilesAtMost(term: int, sizes: seq<nat>, size: nat)
    requires AtMost(sizes, size)
    ensures SizesAtMost(Files(term, sizes), size)
  {
    if sizes != [] {
      FilesAtMost(term, sizes[..|sizes| - 1], size);
    }
  }

  lemma FillingHasRoom(limits: Limits, size: nat, total: nat, count: nat)
    requires Reaches(limits, size) && !NeverTakes(limits, size) && Fits(limits) && 0 < size < TWO_64
    requires total <= TWO_64 - size && (limits.maxSampleCount != INFINITE ==> count <= limits.maxSampleCount)
    ensures Room(limits, count, size, total)
  {
  }

  /** Filled up to where one more wraps, limits that are short of their count take the size. */
  lemma FilledTakes(limits: Limits, sizes: seq<nat>, size: nat)
    requires Reaches(limits, size) && !NeverTakes(limits, size) && 0 < size < TWO_64
    requires HoldsLimits(limits, sizes) && Sum(sizes) == TWO_64 - size
    requires limits.maxSampleCount != INFINITE ==> |sizes| < limits.maxSampleCount
    ensures !RefusedBy(limits, size)
  {
  }

  /** A limited total refuses a size that takes it past its maximum and not past 64 bits. */
  lemma TotalRefuses(limits: Limits, sizes: seq<nat>, size: nat)
    requires HasTotal(limits) && HoldsLimits(limits, sizes)
    requires limits.maxBytesTotal < Sum(sizes) + size < TWO_64
    ensures RefusedBy(limits, size)
  {
  }

  /** What the limits of a specification hold once the files have been collected. */
  lemma {:induction false} FilledLimits(st: State, spec: nat, term: int, sizes: seq<nat>, size: nat)
    requires Start(st) && spec < |st.specs| && FindSpec(st.specs, term) == spec && AtMost(sizes, size)
    requires 0 < size < TWO_64 && Sum(sizes) <= TWO_64 - size
    requires Reaches(st.global, size) && Reaches(st.specs[spec].limits, size)
    requires !NeverTakes(st.global, size) && !NeverTakes(st.specs[spec].limits, size)
    requires st.global.maxSampleCount != INFINITE ==> |sizes| <= st.global.maxSampleCount
    requires st.specs[spec].limits.maxSampleCount != INFINITE ==> |sizes| <= st.specs[spec].limits.maxSampleCount
    ensures var s := Run(st, Files(term, sizes));
            && Holds(st, s, spec, sizes) && SizesAtMost(Files(term, sizes), size)
            && SameMaxima(st.global, s.global) && SameMaxima(st.specs[spec].limits, s.specs[spec].limits)
            && Reaches(s.global, size) && !NeverTakes(s.global, size)
            && Reaches(s.specs[spec].limits, size) && !NeverTakes(s.specs[spec].limits, size)
  {
    hide Run, Room;
    FillingHasRoom(st.global, size, Sum(sizes), |sizes|);
    FillingHasRoom(st.specs[spec].limits, size, Sum(sizes), |sizes|);
    FilesHold(st, spec, term, sizes, size);
    FilesAtMost(term, sizes, size);
  }

  /** Unless the maxima make refusals last, a run of files of at most this size fills the total up to where a smaller
      size is refused and this one is taken. */
  lemma {:induction false} RefusalLifted(st: State, spec: nat, term: int, size': nat)
    requires Start(st) && spec < |st.specs| && FindSpec(st.specs, term) == spec && size' < TWO_64
    requires !Lasting(st.global, st.specs[spec].limits, size')
    ensures !Lasts(st, spec, size')
  {
    hide Run, Files, Filling, Reaches, NeverTakes, RefusedBy, StatusOf, Holds, Many;
    assert 0 < size' by { ReachesPositive(st.global, st.specs[spec].limits, size'); }
    var sizes := Filling(TWO_64 - size', size');
    FillingIs(TWO_64 - size', size');
    ManyReached(st.global, size');
    ManyReached(st.specs[spec].limits, size');
    FillingFits(st.global, size');
    FillingFits(st.specs[spec].limits, size');
    FilledLimits(st, spec, term, sizes, size');
    var s := Run(st, Files(term, sizes));
    HeldLimits(st, s, spec, sizes);
    FilledTakes(s.global, sizes, size');
    FilledTakes(s.specs[spec].limits, sizes, size');
    var limits := if HasTotal(s.global) then s.global else s.specs[spec].limits;
    var size := limits.maxBytesTotal - Sum(sizes) + 1;
    TotalRefuses(limits, sizes, size);
    StatusIff(s, spec, size);
    StatusIff(s, spec, size');
    RunNothing(s);
    assert !LastsOver(st, Files(term, sizes), [], spec, size, size');
  }

  lemma RunNothing(s: State)
    ensures Run(s, []) == s && forall size :: SizesAtMost([], size)
  {
  }

  lemma ReachesPositive(global: Limits, local: Limits, size: nat)
    requires CanWrap(global, local, size)
    ensures size > 0
  {
  }

  lemma ManyReached(limits: Limits, size: nat)
    requires Reaches(limits, size)
    ensures Many(limits, size) && (HasTotal(limits) ==> Wrappable(limits, size))
  {
  }

  lemma HeldLimits(st: State, s: State, spec: nat, sizes: seq<nat>)
    requires spec < |st.specs| && Holds(st, s, spec, sizes)
    ensures |s.specs| == |st.specs| && forall j :: 0 <= j < |st.specs| && j != spec ==> s.specs[j] == st.specs[j]
    ensures HoldsLimits(s.global, sizes) && HoldsLimits(s.specs[spec].limits, sizes)
  {
  }

  /** From the start, over all runs of files of at most `size'` bytes, a refusal for a specification that some term
      leads to lasts exactly when the maxima make it last; where there are other specifications, as long as no file of
      that size can wrap the global total. */
  lemma {:induction false} RefusalLastsIff(st: State, spec: nat, term: int, size': nat)
    requires Start(st) && spec < |st.specs| && FindSpec(st.specs, term) == spec && size' < TWO_64
    requires |st.specs| == 1 || !Wrappable(st.global, size')
    ensures Lasts(st, spec, size') <==> Lasting(st.global, st.specs[spec].limits, size')
  {
    hide Lasts, Lasting, Start;
    if Lasting(st.global, st.specs[spec].limits, size') {
      RefusalLasts(st, spec, size');
    } else {
      RefusalLifted(st, spec, term, size');
    }
  }

  /** Among other specifications, it is enough that samples of one of them can fill the global total: a refusal for a
      specification that takes the size at the start is lifted once they have. */
  lemma {:induction false} RefusalLiftedByOther(st: State, spec: nat, other: nat, term: int, size': nat)
    requires Start(st) && spec < |st.specs| && other < |st.specs| && other != spec
    requires FindSpec(st.specs, term) == other && size' < TWO_64 && HasTotal(st.global)
    requires Reaches(st.global, size') && !NeverTakes(st.global, size')
    requires Reaches(st.specs[other].limits, size') && !NeverTakes(st.specs[other].limits, size')
    requires !RefusedBy(st.specs[spec].limits, size')
    ensures !Lasts(st, spec, size')
  {
    hide Run, Files, Filling, Reaches, NeverTakes, RefusedBy, StatusOf, Holds, Many;
    ManyReached(st.global, size');
    ManyReached(st.specs[other].limits, size');
    assert 0 < size' by { assert Wrappable(st.global, size'); }
    var sizes := Filling(TWO_64 - size', size');
    FillingIs(TWO_64 - size', size');
    FillingFits(st.global, size');
    FillingFits(st.specs[other].limits, size');
    FilledLimits(st, other, term, sizes, size');
    var s := Run(st, Files(term, sizes));
    HeldLimits(st, s, other, sizes);
    FilledTakes(s.global, sizes, size');
    var size := s.global.maxBytesTotal - Sum(sizes) + 1;
    TotalRefuses(s.global, sizes, size);
    StatusIff(s, spec, size);
    StatusIff(s, spec, size');
    RunNothing(s);
    assert !LastsOver(st, Files(term, sizes), [], spec, size, size');
  }

  /** The refusal of a size lasts for that very size. */
  ghost predicate SameSizeLasts(st: State, spec: nat, size: nat)
    requires spec < |st.specs|
  {
    forall earlier, later :: LastsOver(st, earlier, later, spec, size, size)
  }

  /** A byte short of where one more wraps, the size is refused by a limited total. */
  lemma {:induction false} RefusedWhenShort(st: State, spec: nat, term: int, sizes: seq<nat>, size: nat)
    requires Start(st) && spec < |st.specs| && FindSpec(st.specs, term) == spec && AtMost(sizes, size)
    requires 0 < size < TWO_64 && Sum(sizes) == TWO_64 - size - 1
    requires st.global.maxSampleCount == INFINITE && st.specs[spec].limits.maxSampleCount == INFINITE
    requires !Lasting(st.global, st.specs[spec].limits, size)
    ensures var s := Run(st, Files(term, sizes));
            |s.specs| == |st.specs| && !Accepts(StatusOf(s, spec, size)) && SizesAtMost(Files(term, sizes), size)
  {
    hide Run, Files, Reaches, NeverTakes, RefusedBy, StatusOf, Holds, Many, Start, AtMost, SizesAtMost;
    FilledLimits(st, spec, term, sizes, size);
    var s := Run(st, Files(term, sizes));
    HeldLimits(st, s, spec, sizes);
    TotalRefuses(if HasTotal(s.global) then s.global else s.specs[spec].limits, sizes, size);
    StatusIff(s, spec, size);
    StartEnabled(st);
    RunConfiguration(st, Files(term, sizes));
  }

  lemma StartEnabled(st: State)
    requires Start(st)
    ensures !st.global.ignoreLimits
  {
  }

  /** With that byte more, it is taken. */
  lemma {:induction false} TakenWhenFilled(st: State, spec: nat, term: int, sizes: seq<nat>, size: nat)
    requires Start(st) && spec < |st.specs| && FindSpec(st.specs, term) == spec && AtMost(sizes, size)
    requires 0 < size < TWO_64 && Sum(sizes) == TWO_64 - size
    requires st.global.maxSampleCount == INFINITE && st.specs[spec].limits.maxSampleCount == INFINITE
    requires !Lasting(st.global, st.specs[spec].limits, size)
    ensures var s := Run(st, Files(term, sizes));
            |s.specs| == |st.specs| && Accepts(StatusOf(s, spec, size)) && SizesAtMost(Files(term, sizes), size)
  {
    hide Run, Files, Reaches, NeverTakes, RefusedBy, StatusOf, Holds, Many, Start, AtMost, SizesAtMost;
    FilledLimits(st, spec, term, sizes, size);
    var s := Run(st, Files(term, sizes));
    HeldLimits(st, s, spec, sizes);
    FilledTakes(s.global, sizes, size);
    FilledTakes(s.specs[spec].limits, sizes, size);
    StatusIff(s, spec, size);
  }

  /** Without limits on counts, one file of a single byte lifts the refusal of a size. */
  lemma {:induction false} SameSizeLifted(st: State, spec: nat, term: int, size: nat)
    requires Start(st) && spec < |st.specs| && FindSpec(st.specs, term) == spec && size < TWO_64
    requires st.global.maxSampleCount == INFINITE && st.specs[spec].limits.maxSampleCount == INFINITE
    requires !Lasting(st.global, st.specs[spec].limits, size)
    ensures !SameSizeLasts(st, spec, size)
  {
    assert 0 < size by { ReachesPositive(st.global, st.specs[spec].limits, size); }
    hide Run, Files, Filling, StatusOf, File, Start, Lasting, AtMost, SizesAtMost;
    var sizes := Filling(TWO_64 - size - 1, size);
    FillingIs(TWO_64 - size - 1, size);
    SumAppend(sizes, 1);
    AtMostOne(sizes, size);
    RefusedWhenShort(st, spec, term, sizes, size);
    TakenWhenFilled(st, spec, term, sizes + [1], size);
    var earlier, file := Files(term, sizes), File(term, |sizes|, 1);
    FilesAppend(term, sizes, 1);
    RunAppend(st, earlier, file);
    RunOne(Run(st, earlier), file);
    LastAtMost(earlier, file, size);
    assert !LastsOver(st, earlier, [file], spec, size, size);
  }

  lemma AtMostOne(sizes: seq<nat>, size: nat)
    requires AtMost(sizes, size) && size > 0
    ensures AtMost(sizes + [1], size)
  {
  }

  lemma LastAtMost(matches: seq<Match>, last: Match, size: nat)
    requires SizesAtMost(matches + [last], size)
    ensures SizesAtMost([last], size)
  {
    assert (matches + [last])[|matches|] == last;
  }

  /** So without limits on counts, it lasts for that very size under the same condition. */
  lemma {:induction false} SameSizeLastsIff(st: State, spec: nat, term: int, size: nat)
    requires Start(st) && spec < |st.specs| && FindSpec(st.specs, term) == spec && size < TWO_64
    requires |st.specs| == 1 || !Wrappable(st.global, size)
    requires st.global.maxSampleCount == INFINITE && st.specs[spec].limits.maxSampleCount == INFINITE
    ensures SameSizeLasts(st, spec, size) <==> Lasting(st.global, st.specs[spec].limits, size)
  {
    hide LastsOver, Lasting, Start;
    if Lasting(st.global, st.specs[spec].limits, size) {
      RefusalLasts(st, spec, size);
    } else {
      SameSizeLifted(st, spec, term, size);
    }
  }

  /** With 100 bytes at most, 2^64 - 100 bytes are refused; once 100 bytes are collected, they are taken, and a single
      byte is refused. */
  lemma WrappedSumIsAccepted()
    ensures var st := State(Collected([], {}), UNLIMITED.(maxBytesTotal := 100), [SampleSpec("", DATA, [0], UNLIMITED)]);
            var after := Run(st, [File(0, 0, 100)]);
            && Start(st) && !Accepts(StatusOf(st, 0, TWO_64 - 100))
            && Accepts(StatusOf(after, 0, TWO_64 - 100)) && !Accepts(StatusOf(after, 0, 1))
  {
    hide Run, File;
    var st := State(Collected([], {}), UNLIMITED.(maxBytesTotal := 100), [SampleSpec("", DATA, [0], UNLIMITED)]);
    assert [] + [100] == [100];
    SumAppend([], 100);
    FilesAppend(0, [], 100);
    assert Files(0, [100]) == [File(0, 0, 100)];
    FilesHold(st, 0, 0, [100], 100);
  }
}
