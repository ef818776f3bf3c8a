/** One run of GetThis over the matches of the file finder: limits are checked,
    samples collected once each, names made unique, and the limits accounted for. */
module SampleCollection {
  import opened Windows
  import opened SampleLimits
  import opened SampleNaming
  import opened SampleKeys

  datatype SampleSpec = SampleSpec(name: string, content: ContentType, terms: seq<int>, limits: Limits)

  /** The samples collected so far and the names in use. */
  datatype Collected = Collected(samples: seq<SampleRef>, names: set<string>)

  datatype State = State(collected: Collected, global: Limits, specs: seq<SampleSpec>)

  // ------------------------------------------------------ collecting a match

  function RefFor(match_: Match, i: nat, offLimits: bool): SampleRef
    requires i < |match_.attributes|
  {
    SampleRef("", INVALID, 0, offLimits, match_.volume,
              if match_.snapshot.Some? then match_.snapshot.value else GUID_NULL,
              match_.frn, match_.attributes[i].instance, i, [match_])
  }

  /** The name for one of the names of the file; a file name that is missing leaves it empty. */
  function NameFor(spec: SampleSpec, name: NameMatch, attribute: AttributeMatch, names: set<string>): (r: string)
    ensures r == "" || r !in names
  {
    if name.file.None? then ""
    else UniqueName(Request(spec.name, spec.content, name.file.value, attribute.name), names)
  }

  /** The names in use and the last one given, after the first `n` names of the file. */
  function GiveNames(spec: SampleSpec, match_: Match, attribute: AttributeMatch, names: set<string>, n: nat)
    : (r: (set<string>, string))
    requires n <= |match_.names|
    ensures names <= r.0 && (n > 0 ==> r.1 in r.0)
    ensures r.1 == "" || r.1 !in names
  {
    if n == 0 then (names, "")
    else
      var taken := GiveNames(spec, match_, attribute, names, n - 1).0;
      var name := NameFor(spec, match_.names[n - 1], attribute, taken);
      (taken + {name}, name)
  }

  /** Setting up the streams fails without a name; otherwise it tells the size of the sample. */
  function StreamSize(name: string, content: ContentType, attribute: AttributeMatch): Option<nat> {
    if name == "" || !attribute.streamsOpen then None
    else
      match content
      case STRINGS => Some(attribute.stringsSize)
      case RAW => Some(attribute.rawSize)
      case DATA => Some(attribute.dataSize)
      case INVALID => Some(attribute.dataSize)
  }

  function NamedRef(c: Collected, spec: SampleSpec, match_: Match, i: nat, offLimits: bool): SampleRef
    requires i < |match_.attributes|
  {
    var name := GiveNames(spec, match_, match_.attributes[i], c.names, |match_.names|).1;
    var stream := StreamSize(name, if match_.names == [] then INVALID else spec.content, match_.attributes[i]);
    RefFor(match_, i, offLimits).(
      name := name,
      content := if match_.names == [] then INVALID else spec.content,
      size := if stream.Some? then stream.value else 0)
  }

  /** One attribute of a match: S_FALSE if it is collected already. */
  function AddAttribute(c: Collected, status: LimitStatus, spec: SampleSpec, match_: Match, i: nat)
    : (Collected, HResult)
    requires i < |match_.attributes|
  {
    var ref := RefFor(match_, i, !Accepts(status));
    if Contains(c.samples, ref) then (c, S_FALSE)
    else
      var attribute := match_.attributes[i];
      var named := NamedRef(c, spec, match_, i, !Accepts(status));
      (Collected(Insert(c.samples, named), GiveNames(spec, match_, attribute, c.names, |match_.names|).0),
       if StreamSize(named.name, named.content, attribute).Some? then S_OK else Failed(0))
  }

  /** The first `n` attributes of a match, with the result of the last. */
  function AddAttributes(c: Collected, status: LimitStatus, spec: SampleSpec, match_: Match, n: nat)
    : (Collected, HResult)
    requires n <= |match_.attributes|
  {
    if n == 0 then (c, Failed(0))
    else AddAttribute(AddAttributes(c, status, spec, match_, n - 1).0, status, spec, match_, n - 1)
  }

  /** All attributes of a match go by the same status; only a duplicate in last place is reported. */
  function AddMatch(c: Collected, status: LimitStatus, spec: SampleSpec, match_: Match): (Collected, HResult) {
    var (after, hr) := AddAttributes(c, status, spec, match_, |match_.attributes|);
    (after, if hr == S_FALSE then S_FALSE else S_OK)
  }

  // -------------------------------------------------------- running the limits

  /** The first specification that holds the term. */
  function FindSpec(specs: seq<SampleSpec>, term: int): (i: nat)
    ensures i <= |specs| && (i < |specs| ==> term in specs[i].terms)
    ensures forall j :: 0 <= j < i ==> term !in specs[j].terms
  {
    if specs == [] || term in specs[0].terms then 0 else 1 + FindSpec(specs[1..], term)
  }

  /** A refusal leaves a mark on the limits that refused. */
  function MarkGlobal(global: Limits, status: LimitStatus): Limits {
    match status
    case GlobalSampleCountLimitReached => global.(maxSampleCountReached := true)
    case GlobalMaxBytesPerSample => global.(maxBytesPerSampleReached := true)
    case GlobalMaxBytesTotal => global.(maxBytesTotalReached := true)
    case _ => global
  }

  function MarkLocal(local: Limits, status: LimitStatus): Limits {
    match status
    case LocalSampleCountLimitReached => local.(maxSampleCountReached := true)
    case LocalMaxBytesPerSample => local.(maxBytesPerSampleReached := true)
    case LocalMaxBytesTotal => local.(maxBytesTotalReached := true)
    case _ => local
  }

  function StatusOf(st: State, spec: nat, dataSize: nat): LimitStatus
    requires spec < |st.specs|
  {
    SampleLimitStatus(st.global, st.specs[spec].limits, dataSize)
  }

  /** What the callback does for attribute `i` of a match of specification `spec`. */
  function StepAttribute(st: State, spec: nat, match_: Match, i: nat): (after: State)
    requires spec < |st.specs| && i < |match_.attributes|
    ensures |after.specs| == |st.specs|
  {
    var size := match_.attributes[i].dataSize;
    var status := StatusOf(st, spec, size);
    var (collected, hr) := AddMatch(st.collected, status, st.specs[spec], match_);
    var local := st.specs[spec].limits;
    if !Accepts(status) then
      State(collected, MarkGlobal(st.global, status),
            st.specs[spec := st.specs[spec].(limits := MarkLocal(local, status))])
    else if hr == S_FALSE then st.(collected := collected)
    else
      State(collected, Account(st.global, size), st.specs[spec := st.specs[spec].(limits := Account(local, size))])
  }

  function StepAttributes(st: State, spec: nat, match_: Match, n: nat): (after: State)
    requires spec < |st.specs| && n <= |match_.attributes|
    ensures |after.specs| == |st.specs|
  {
    if n == 0 then st else StepAttribute(StepAttributes(st, spec, match_, n - 1), spec, match_, n - 1)
  }

  function StepMatch(st: State, match_: Match): (after: State)
    ensures |after.specs| == |st.specs|
  {
    var spec := FindSpec(st.specs, match_.term);
    if spec == |st.specs| then st else StepAttributes(st, spec, match_, |match_.attributes|)
  }

  function Run(st: State, matches: seq<Match>): (after: State)
    ensures |after.specs| == |st.specs|
  {
    if matches == [] then st else StepMatch(Run(st, matches[..|matches| - 1]), matches[|matches| - 1])
  }

  // ------------------------------------------- first wins, and names are unique

  ghost predicate NamesUnique(c: Collected) {
    && (forall e :: e in c.samples && e.name != "" ==> e.name in c.names)
    && (forall d, e :: d in c.samples && e in c.samples && d != e && d.name != "" ==> d.name != e.name)
  }

  ghost predicate Sound(c: Collected) {
    Ordered(c.samples) && NamesUnique(c)
  }

  /** Nothing is dropped or altered: a sample once collected stays as it is, and names stay taken. */
  ghost predicate Extends(before: Collected, after: Collected) {
    before.names <= after.names && forall e :: e in before.samples ==> e in after.samples
  }

  /** A sample with the key of attribute `i` is there. */
  ghost predicate Present(c: Collected, match_: Match, i: nat)
    requires i < |match_.attributes|
  {
    Contains(c.samples, RefFor(match_, i, false))
  }

  lemma PresentIffContains(c: Collected, match_: Match, i: nat, offLimits: bool)
    requires i < |match_.attributes|
    ensures Present(c, match_, i) <==> Contains(c.samples, RefFor(match_, i, offLimits))
  {
    var a, b := RefFor(match_, i, false), RefFor(match_, i, offLimits);
    assert forall e :: Equivalent(e, a) <==> Equivalent(e, b);
  }

  lemma AddAttributeExtends(c: Collected, status: LimitStatus, spec: SampleSpec, match_: Match, i: nat)
    requires i < |match_.attributes|
    ensures Extends(c, AddAttribute(c, status, spec, match_, i).0)
  {
    InsertMembers(c.samples, NamedRef(c, spec, match_, i, !Accepts(status)));
  }

  lemma {:induction false} AddAttributesExtends(c: Collected, status: LimitStatus, spec: SampleSpec, match_: Match, n: nat)
    requires n <= |match_.attributes|
    ensures Extends(c, AddAttributes(c, status, spec, match_, n).0)
  {
    hide AddAttribute;
    if n > 0 {
      AddAttributesExtends(c, status, spec, match_, n - 1);
      AddAttributeExtends(AddAttributes(c, status, spec, match_, n - 1).0, status, spec, match_, n - 1);
    }
  }

  lemma {:induction false} NotContainsNamed(c: Collected, status: LimitStatus, spec: SampleSpec, match_: Match, i: nat)
    requires i < |match_.attributes|
    ensures var named := NamedRef(c, spec, match_, i, !Accepts(status));
            && Equivalent(named, RefFor(match_, i, false))
            && (Contains(c.samples, named) <==> Contains(c.samples, RefFor(match_, i, !Accepts(status))))
  {
    var ref, named := RefFor(match_, i, !Accepts(status)), NamedRef(c, spec, match_, i, !Accepts(status));
    assert forall e :: Equivalent(e, named) <==> Equivalent(e, ref);
    LessIsStrictWeakOrder(named, RefFor(match_, i, false), ref);
  }

  lemma {:induction false} AddAttributeSound(c: Collected, status: LimitStatus, spec: SampleSpec, match_: Match, i: nat)
    requires i < |match_.attributes| && Sound(c)
    ensures Sound(AddAttribute(c, status, spec, match_, i).0)
  {
    if !Contains(c.samples, RefFor(match_, i, !Accepts(status))) {
      var named := NamedRef(c, spec, match_, i, !Accepts(status));
      InsertOrdered(c.samples, named);
      InsertMembers(c.samples, named);
    }
  }

  lemma {:induction false} AddAttributesSound(c: Collected, status: LimitStatus, spec: SampleSpec, match_: Match, n: nat)
    requires n <= |match_.attributes| && Sound(c)
    ensures Sound(AddAttributes(c, status, spec, match_, n).0)
  {
    hide AddAttribute;
    if n > 0 {
      AddAttributesSound(c, status, spec, match_, n - 1);
      AddAttributeSound(AddAttributes(c, status, spec, match_, n - 1).0, status, spec, match_, n - 1);
    }
  }

  lemma {:induction false} AddAttributePresent(c: Collected, status: LimitStatus, spec: SampleSpec, match_: Match, i: nat)
    requires i < |match_.attributes|
    ensures Present(AddAttribute(c, status, spec, match_, i).0, match_, i)
    ensures AddAttribute(c, status, spec, match_, i).1 == S_FALSE <==> Present(c, match_, i)
  {
    var named := NamedRef(c, spec, match_, i, !Accepts(status));
    PresentIffContains(c, match_, i, !Accepts(status));
    NotContainsNamed(c, status, spec, match_, i);
    InsertMembers(c.samples, named);
  }

  lemma {:induction false} PresentKept(before: Collected, after: Collected, match_: Match, i: nat)
    requires i < |match_.attributes| && Present(before, match_, i) && Extends(before, after)
    ensures Present(after, match_, i)
  {
    var e :| e in before.samples && Equivalent(e, RefFor(match_, i, false));
    assert e in after.samples;
  }

  lemma {:induction false} AddAttributeKeepsPresent(c: Collected, status: LimitStatus, spec: SampleSpec, match_: Match,
                                                   n: nat, i: nat)
    requires i <= n < |match_.attributes| && (i < n ==> Present(c, match_, i))
    ensures Present(AddAttribute(c, status, spec, match_, n).0, match_, i)
  {
    if i == n {
      AddAttributePresent(c, status, spec, match_, n);
    } else {
      AddAttributeExtends(c, status, spec, match_, n);
      PresentKept(c, AddAttribute(c, status, spec, match_, n).0, match_, i);
    }
  }

  lemma {:induction false} AddAttributesPresent(c: Collected, status: LimitStatus, spec: SampleSpec, match_: Match,
                                               n: nat, i: nat)
    requires i < n <= |match_.attributes|
    ensures Present(AddAttributes(c, status, spec, match_, n).0, match_, i)
  {
    hide AddAttribute;
    var before := AddAttributes(c, status, spec, match_, n - 1).0;
    if i < n - 1 {
      AddAttributesPresent(c, status, spec, match_, n - 1, i);
    }
    AddAttributeKeepsPresent(before, status, spec, match_, n - 1, i);
    assert AddAttributes(c, status, spec, match_, n) == AddAttribute(before, status, spec, match_, n - 1);
  }

  lemma {:induction false} AllPresentAddsNothing(c: Collected, status: LimitStatus, spec: SampleSpec, match_: Match, n: nat)
    requires 0 < n <= |match_.attributes| && forall i :: 0 <= i < n ==> Present(c, match_, i)
    ensures AddAttributes(c, status, spec, match_, n) == (c, S_FALSE)
  {
    if n > 1 { AllPresentAddsNothing(c, status, spec, match_, n - 1); }
    PresentIffContains(c, match_, n - 1, !Accepts(status));
  }

  /** Adding a match again, whatever the status and the specification, changes nothing and says so. */
  lemma {:induction false} AddAgainIsNoOp(c: Collected, status: LimitStatus, spec: SampleSpec, match_: Match,
                                          status': LimitStatus, spec': SampleSpec)
    requires match_.attributes != []
    ensures var after := AddMatch(c, status, spec, match_).0;
            AddMatch(after, status', spec', match_) == (after, S_FALSE)
  {
    var n := |match_.attributes|;
    forall i | 0 <= i < n ensures Present(AddAttributes(c, status, spec, match_, n).0, match_, i) {
      AddAttributesPresent(c, status, spec, match_, n, i);
    }
    AllPresentAddsNothing(AddAttributes(c, status, spec, match_, n).0, status', spec', match_, n);
  }

  lemma StepAttributeSound(st: State, spec: nat, match_: Match, i: nat)
    requires spec < |st.specs| && i < |match_.attributes|
    ensures Sound(st.collected) ==> Sound(StepAttribute(st, spec, match_, i).collected)
    ensures Extends(st.collected, StepAttribute(st, spec, match_, i).collected)
  {
    var status, n := StatusOf(st, spec, match_.attributes[i].dataSize), |match_.attributes|;
    if Sound(st.collected) { AddAttributesSound(st.collected, status, st.specs[spec], match_, n); }
    AddAttributesExtends(st.collected, status, st.specs[spec], match_, n);
  }

  /** What every attribute of every match of a run keeps, the run keeps. */
  lemma {:induction false} RunInvariant(p: State -> bool, st: State, matches: seq<Match>)
    requires p(st)
    requires forall s: State, spec: nat, k: nat, i: nat ::
      p(s) && |s.specs| == |st.specs| && k < |matches| && i < |matches[k].attributes|
      && spec == FindSpec(s.specs, matches[k].term) < |s.specs| ==>
      p(StepAttribute(s, spec, matches[k], i))
    ensures p(Run(st, matches))
  {
    hide StepAttribute;
    if matches != [] {
      var n := |matches| - 1;
      RunInvariant(p, st, matches[..n]);
      var before := Run(st, matches[..n]);
      var spec := FindSpec(before.specs, matches[n].term);
      if spec < |before.specs| {
        StepAttributesInvariant(p, before, spec, matches[n], |matches[n].attributes|);
      }
    }
  }

  lemma {:induction false} StepAttributesInvariant(p: State -> bool, st: State, spec: nat, match_: Match, n: nat)
    requires p(st) && spec < |st.specs| && n <= |match_.attributes|
    requires FindSpec(st.specs, match_.term) == spec
    requires forall s: State, i: nat ::
      p(s) && |s.specs| == |st.specs| && i < n && FindSpec(s.specs, match_.term) == spec ==> p(StepAttribute(s, spec, match_, i))
    ensures p(StepAttributes(st, spec, match_, n))
  {
    hide StepAttribute, FindSpec;
    if n > 0 {
      StepAttributesInvariant(p, st, spec, match_, n - 1);
      StepAttributesFind(st, spec, match_, n - 1);
    }
  }

  lemma {:induction false} StepAttributesFind(st: State, spec: nat, match_: Match, n: nat)
    requires spec < |st.specs| && n <= |match_.attributes|
    ensures FindSpec(StepAttributes(st, spec, match_, n).specs, match_.term) == FindSpec(st.specs, match_.term)
  {
    hide StepAttribute, FindSpec;
    if n > 0 {
      var before := StepAttributes(st, spec, match_, n - 1);
      StepAttributesFind(st, spec, match_, n - 1);
      StepAttributeTerms(before, spec, match_, n - 1);
    }
  }

  lemma StepAttributeTerms(st: State, spec: nat, match_: Match, i: nat)
    requires spec < |st.specs| && i < |match_.attributes|
    ensures forall term :: FindSpec(StepAttribute(st, spec, match_, i).specs, term) == FindSpec(st.specs, term)
  {
    hide StepAttribute, Counted;
    StepAttributeLimits(st, spec, match_, i);
  }

  /** In every run the samples stay ordered by key, and distinct samples with a name have distinct names,
      all of them among the names in use. */
  lemma {:induction false} RunSound(st: State, matches: seq<Match>)
    requires Sound(st.collected)
    ensures Sound(Run(st, matches).collected)
  {
    hide StepAttribute;
    forall s: State, spec: nat, k: nat, i: nat
      | Sound(s.collected) && spec < |s.specs| && k < |matches| && i < |matches[k].attributes|
      ensures Sound(StepAttribute(s, spec, matches[k], i).collected)
    {
      StepAttributeSound(s, spec, matches[k], i);
    }
    RunInvariant((s: State) => Sound(s.collected), st, matches);
  }

  /** In every run no sample collected earlier is dropped or altered, so the first one with a key wins, and
      whether it is off limits never changes. */
  lemma {:induction false} RunExtends(st: State, matches: seq<Match>)
    ensures Extends(st.collected, Run(st, matches).collected)
  {
    hide StepAttribute;
    forall s: State, spec: nat, k: nat, i: nat
      | Extends(st.collected, s.collected) && spec < |s.specs| && k < |matches| && i < |matches[k].attributes|
      ensures Extends(st.collected, StepAttribute(s, spec, matches[k], i).collected)
    {
      StepAttributeSound(s, spec, matches[k], i);
    }
    RunInvariant((s: State) => Extends(st.collected, s.collected), st, matches);
  }

  /** A sample has no name only if its match has no name, or one without a file name in last place. */
  lemma {:induction false} NamedUnlessMissing(spec: SampleSpec, match_: Match, attribute: AttributeMatch, names: set<string>)
    ensures GiveNames(spec, match_, attribute, names, |match_.names|).1 == "" <==>
      match_.names == [] || match_.names[|match_.names| - 1].file.None?
  {
    var n := |match_.names|;
    if n > 0 && match_.names[n - 1].file.Some? {
      var taken := GiveNames(spec, match_, attribute, names, n - 1).0;
      var r := Request(spec.name, spec.content, match_.names[n - 1].file.value, attribute.name);
      assert |Candidate(r, FirstFree(r, taken, 0))| > 0;
    }
  }

  /** A name tried for one of the first `n` names of the file. */
  ghost predicate TriedFor(name: string, spec: SampleSpec, match_: Match, attribute: AttributeMatch, j: nat)
    requires j < |match_.names|
  {
    && match_.names[j].file.Some?
    && exists idx: nat ::
         name == Candidate(Request(spec.name, spec.content, match_.names[j].file.value, attribute.name), idx)
  }

  /** Every name of the file takes a name that was free. */
  lemma {:induction false} NamesTaken(spec: SampleSpec, match_: Match, attribute: AttributeMatch, names: set<string>,
                                     n: nat, j: nat)
    requires j < n <= |match_.names| && match_.names[j].file.Some?
    ensures exists name :: name in GiveNames(spec, match_, attribute, names, n).0 && name !in names
                           && TriedFor(name, spec, match_, attribute, j)
  {
    hide UniqueName, Candidate, NameFor, TriedFor;
    if j < n - 1 {
      NamesTaken(spec, match_, attribute, names, n - 1, j);
    } else {
      var before := GiveNames(spec, match_, attribute, names, n - 1).0;
      NameTried(spec, match_, attribute, before, n - 1);
      assert NameFor(spec, match_.names[j], attribute, before) in GiveNames(spec, match_, attribute, names, n).0;
    }
  }

  /** Nothing else is taken but, for a missing file name, the empty name. */
  lemma {:induction false} OnlyNamesTaken(spec: SampleSpec, match_: Match, attribute: AttributeMatch, names: set<string>,
                                         n: nat, name: string)
    requires n <= |match_.names| && name in GiveNames(spec, match_, attribute, names, n).0
    ensures || name in names
            || (name == "" && exists j :: 0 <= j < n && match_.names[j].file.None?)
            || exists j :: 0 <= j < n && TriedFor(name, spec, match_, attribute, j)
  {
    hide UniqueName, Candidate, NameFor, TriedFor;
    if n > 0 {
      var before := GiveNames(spec, match_, attribute, names, n - 1).0;
      if name in before {
        OnlyNamesTaken(spec, match_, attribute, names, n - 1, name);
      } else {
        NameTried(spec, match_, attribute, before, n - 1);
        assert name == NameFor(spec, match_.names[n - 1], attribute, before);
      }
    }
  }

  lemma NameTried(spec: SampleSpec, match_: Match, attribute: AttributeMatch, names: set<string>, j: nat)
    requires j < |match_.names|
    ensures var name := NameFor(spec, match_.names[j], attribute, names);
            if match_.names[j].file.None? then name == ""
            else TriedFor(name, spec, match_, attribute, j) && name !in names
  {
    if match_.names[j].file.Some? {
      var request := Request(spec.name, spec.content, match_.names[j].file.value, attribute.name);
      assert UniqueName(request, names) == Candidate(request, FirstFree(request, names, 0));
    }
  }

  // --------------------------------------------- the limits hold in every run

  /** The callback counts attribute `i`: it is within limits and the last attribute of the match was new. */
  predicate Counted(st: State, spec: nat, match_: Match, i: nat)
    requires spec < |st.specs| && i < |match_.attributes|
  {
    var status := StatusOf(st, spec, match_.attributes[i].dataSize);
    Accepts(status) && AddMatch(st.collected, status, st.specs[spec], match_).1 != S_FALSE
  }

  ghost predicate SameAccumulators(before: Limits, after: Limits) {
    && SameMaxima(before, after) && after.accumulatedCount == before.accumulatedCount
    && after.accumulatedBytes == before.accumulatedBytes
  }

  /** Both the global limits and those of the specification account for a counted attribute, and only they. */
  lemma StepAttributeLimits(st: State, spec: nat, match_: Match, i: nat)
    requires spec < |st.specs| && i < |match_.attributes|
    ensures var after, size := StepAttribute(st, spec, match_, i), match_.attributes[i].dataSize;
            && (forall j :: 0 <= j < |st.specs| && j != spec ==> after.specs[j] == st.specs[j])
            && after.specs[spec] == st.specs[spec].(limits := after.specs[spec].limits)
            && if Counted(st, spec, match_, i) then
                 after.global == Account(st.global, size) && after.specs[spec].limits == Account(st.specs[spec].limits, size)
               else
                 && SameAccumulators(st.global, after.global)
                 && SameAccumulators(st.specs[spec].limits, after.specs[spec].limits)
  {
    hide AddMatch, SampleLimitStatus;
  }

  /** Every accumulator is within its maximum. */
  ghost predicate WithinLimits(st: State) {
    && !st.global.ignoreLimits && Bounded(st.global)
    && forall j :: 0 <= j < |st.specs| ==> Bounded(st.specs[j].limits)
  }

  lemma StepAttributeWithinLimits(st: State, spec: nat, match_: Match, i: nat)
    requires spec < |st.specs| && i < |match_.attributes| && WithinLimits(st)
    ensures WithinLimits(StepAttribute(st, spec, match_, i))
  {
    hide StepAttribute;
    StepAttributeLimits(st, spec, match_, i);
    if Counted(st, spec, match_, i) {
      AccountKeepsBounds(st.global, st.specs[spec].limits, match_.attributes[i].dataSize);
    }
  }

  /** Over every run with limits enabled, no accumulated count or total passes its maximum, globally or for
      a specification. */
  lemma {:induction false} RunWithinLimits(st: State, matches: seq<Match>)
    requires WithinLimits(st)
    ensures WithinLimits(Run(st, matches))
  {
    hide StepAttribute;
    forall s: State, spec: nat, k: nat, i: nat
      | WithinLimits(s) && spec < |s.specs| && k < |matches| && i < |matches[k].attributes|
      ensures WithinLimits(StepAttribute(s, spec, matches[k], i))
    {
      StepAttributeWithinLimits(s, spec, matches[k], i);
    }
    RunInvariant((s: State) => WithinLimits(s), st, matches);
  }

  // --------------------------------------------------- what the marks tell

  /** No mark without a maximum to pass; a mark on the count says that it is reached now. */
  ghost predicate Truthful(limits: Limits) {
    && (limits.maxSampleCountReached ==> CountReached(limits))
    && (limits.maxBytesPerSampleReached ==> limits.maxBytesPerSample != INFINITE)
    && (limits.maxBytesTotalReached ==> limits.maxBytesTotal != INFINITE)
  }

  ghost predicate AllTruthful(st: State) {
    && WithinLimits(st) && Truthful(st.global)
    && forall j :: 0 <= j < |st.specs| ==> Truthful(st.specs[j].limits)
  }

  /** The limits carry a mark that tells why a sample of this size is refused. */
  ghost predicate Explains(limits: Limits, dataSize: nat) {
    || (limits.maxSampleCountReached && CountReached(limits))
    || (limits.maxBytesPerSampleReached && TooLarge(limits, dataSize))
    || (limits.maxBytesTotalReached && limits.maxBytesTotal != INFINITE
        && Low64(dataSize + limits.accumulatedBytes) > limits.maxBytesTotal)
  }

  /** A refusal leaves the mark that explains it, on the global limits or on those of the specification. */
  lemma RefusalIsExplained(st: State, spec: nat, match_: Match, i: nat)
    requires spec < |st.specs| && i < |match_.attributes|
    requires !Accepts(StatusOf(st, spec, match_.attributes[i].dataSize))
    ensures var after, size := StepAttribute(st, spec, match_, i), match_.attributes[i].dataSize;
            Explains(after.global, size) || Explains(after.specs[spec].limits, size)
  {
    hide AddMatch, Low64;
  }

  lemma StepAttributeTruthful(st: State, spec: nat, match_: Match, i: nat)
    requires spec < |st.specs| && i < |match_.attributes| && AllTruthful(st)
    ensures AllTruthful(StepAttribute(st, spec, match_, i))
  {
    hide AddMatch, Low64;
    StepAttributeWithinLimits(st, spec, match_, i);
  }

  datatype Mark = CountMark | PerSampleMark | TotalMark

  /** The marks that limits carry. */
  function Marks(limits: Limits): set<Mark> {
    (if limits.maxSampleCountReached then {CountMark} else {})
    + (if limits.maxBytesPerSampleReached then {PerSampleMark} else {})
    + if limits.maxBytesTotalReached then {TotalMark} else {}
  }

  /** The one mark a refusal adds to the limits that refuse, and those are the global ones first. */
  lemma OneMarkAdded(st: State, spec: nat, match_: Match, i: nat)
    requires spec < |st.specs| && i < |match_.attributes|
    ensures var after, size := StepAttribute(st, spec, match_, i), match_.attributes[i].dataSize;
            var global, local, status := st.global, st.specs[spec].limits, StatusOf(st, spec, size);
            && Marks(after.global) == Marks(global) +
               (if status == GlobalSampleCountLimitReached then {CountMark}
                else if status == GlobalMaxBytesPerSample then {PerSampleMark}
                else if status == GlobalMaxBytesTotal then {TotalMark} else {})
            && Marks(after.specs[spec].limits) == Marks(local) +
               (if status == LocalSampleCountLimitReached then {CountMark}
                else if status == LocalMaxBytesPerSample then {PerSampleMark}
                else if status == LocalMaxBytesTotal then {TotalMark} else {})
  {
    hide AddMatch, SampleLimitStatus;
  }

  /** Over every run with limits enabled, the marks tell the truth. */
  lemma {:induction false} RunTruthful(st: State, matches: seq<Match>)
    requires AllTruthful(st)
    ensures AllTruthful(Run(st, matches))
  {
    hide StepAttribute;
    forall s: State, spec: nat, k: nat, i: nat
      | AllTruthful(s) && spec < |s.specs| && k < |matches| && i < |matches[k].attributes|
      ensures AllTruthful(StepAttribute(s, spec, matches[k], i))
    {
      StepAttributeTruthful(s, spec, matches[k], i);
    }
    RunInvariant((s: State) => AllTruthful(s), st, matches);
  }

  function SumCounts(specs: seq<SampleSpec>): nat {
    if specs == [] then 0 else specs[0].limits.accumulatedCount + SumCounts(specs[1..])
  }

  function SumBytes(specs: seq<SampleSpec>): nat {
    if specs == [] then 0 else specs[0].limits.accumulatedBytes + SumBytes(specs[1..])
  }

  lemma {:induction false} SumUpdate(specs: seq<SampleSpec>, specs': seq<SampleSpec>, i: nat)
    requires i < |specs| == |specs'| && forall j :: 0 <= j < |specs| && j != i ==> specs'[j] == specs[j]
    ensures SumCounts(specs) >= specs[i].limits.accumulatedCount && SumBytes(specs) >= specs[i].limits.accumulatedBytes
    ensures SumCounts(specs') + specs[i].limits.accumulatedCount == SumCounts(specs) + specs'[i].limits.accumulatedCount
    ensures SumBytes(specs') + specs[i].limits.accumulatedBytes == SumBytes(specs) + specs'[i].limits.accumulatedBytes
  {
    if i == 0 {
      assert specs'[1..] == specs[1..];
    } else {
      SumUpdate(specs[1..], specs'[1..], i - 1);
    }
  }

  /** In 32 and 64 bits, the global accumulators are the sums of those of the specifications. */
  ghost predicate Balanced(st: State) {
    && st.global.accumulatedCount == Low32(SumCounts(st.specs))
    && st.global.accumulatedBytes == Low64(SumBytes(st.specs))
    && forall j :: 0 <= j < |st.specs| ==>
         st.specs[j].limits.accumulatedCount < TWO_32 && st.specs[j].limits.accumulatedBytes < TWO_64
  }

  lemma StepAttributeBalanced(st: State, spec: nat, match_: Match, i: nat)
    requires spec < |st.specs| && i < |match_.attributes| && Balanced(st)
    ensures Balanced(StepAttribute(st, spec, match_, i))
  {
    hide StepAttribute, Low32, Low64, Counted;
    var after, size := StepAttribute(st, spec, match_, i), match_.attributes[i].dataSize;
    StepAttributeLimits(st, spec, match_, i);
    SumUpdate(st.specs, after.specs, spec);
    if Counted(st, spec, match_, i) {
      SumsAccount(st, after, spec, size);
    }
  }

  lemma SumsAccount(st: State, after: State, spec: nat, size: nat)
    requires Balanced(st) && spec < |st.specs| == |after.specs|
    requires after.global == Account(st.global, size) && after.specs[spec].limits == Account(st.specs[spec].limits, size)
    requires SumCounts(after.specs) + st.specs[spec].limits.accumulatedCount
          == SumCounts(st.specs) + after.specs[spec].limits.accumulatedCount
    requires SumBytes(after.specs) + st.specs[spec].limits.accumulatedBytes
          == SumBytes(st.specs) + after.specs[spec].limits.accumulatedBytes
    requires SumCounts(st.specs) >= st.specs[spec].limits.accumulatedCount
    requires SumBytes(st.specs) >= st.specs[spec].limits.accumulatedBytes
    ensures after.global.accumulatedCount == Low32(SumCounts(after.specs))
    ensures after.global.accumulatedBytes == Low64(SumBytes(after.specs))
  {
    hide Low32, Low64;
    var count, bytes := st.specs[spec].limits.accumulatedCount, st.specs[spec].limits.accumulatedBytes;
    Low32Sum(SumCounts(st.specs), 1);
    Low32Sum(count + 1, SumCounts(st.specs) - count);
    Low64Sum(SumBytes(st.specs), size);
    Low64Sum(bytes + size, SumBytes(st.specs) - bytes);
  }

  /** Over every run, the global accumulators equal the sums over the specifications. */
  lemma {:induction false} RunBalanced(st: State, matches: seq<Match>)
    requires Balanced(st)
    ensures Balanced(Run(st, matches))
  {
    hide StepAttribute;
    forall s: State, spec: nat, k: nat, i: nat
      | Balanced(s) && spec < |s.specs| && k < |matches| && i < |matches[k].attributes|
      ensures Balanced(StepAttribute(s, spec, matches[k], i))
    {
      StepAttributeBalanced(s, spec, matches[k], i);
    }
    RunInvariant((s: State) => Balanced(s), st, matches);
  }

  // ------------------------------------------------- refusal over a whole run

  /** No data size of the matches can wrap the global total or that of the specification. */
  ghost predicate SizesFit(st: State, spec: nat, matches: seq<Match>)
    requires spec < |st.specs|
  {
    forall k, i :: 0 <= k < |matches| && 0 <= i < |matches[k].attributes| ==>
      SizeFits(st, spec, matches[k].attributes[i].dataSize)
  }

  predicate SizeFits(st: State, spec: nat, dataSize: nat)
    requires spec < |st.specs|
  {
    !Wrappable(st.global, dataSize) && !Wrappable(st.specs[spec].limits, dataSize)
  }

  /** The same maxima everywhere. */
  ghost predicate SameConfiguration(st: State, after: State) {
    && |after.specs| == |st.specs| && SameMaxima(st.global, after.global)
    && forall j :: 0 <= j < |st.specs| ==> SameMaxima(st.specs[j].limits, after.specs[j].limits)
  }

  lemma StepAttributeConfiguration(st: State, s: State, spec: nat, match_: Match, i: nat)
    requires SameConfiguration(st, s) && spec < |s.specs| && i < |match_.attributes|
    ensures SameConfiguration(st, StepAttribute(s, spec, match_, i))
  {
    hide StepAttribute, Counted;
    StepAttributeLimits(s, spec, match_, i);
  }

  /** No run changes a maximum. */
  lemma {:induction false} RunConfiguration(st: State, matches: seq<Match>)
    ensures SameConfiguration(st, Run(st, matches))
  {
    hide StepAttribute;
    forall s: State, spec: nat, k: nat, i: nat
      | SameConfiguration(st, s) && spec < |s.specs| && k < |matches| && i < |matches[k].attributes|
      ensures SameConfiguration(st, StepAttribute(s, spec, matches[k], i))
    {
      StepAttributeConfiguration(st, s, spec, matches[k], i);
    }
    RunInvariant((s: State) => SameConfiguration(st, s), st, matches);
  }

  /** Neither the global accumulators nor those of the specification are below where they were. */
  ghost predicate Later(st: State, after: State, spec: nat)
    requires spec < |st.specs|
  {
    && |after.specs| == |st.specs| && NotBelow(st.global, after.global)
    && NotBelow(st.specs[spec].limits, after.specs[spec].limits)
  }

  lemma StepAttributeLater(st: State, s: State, of: nat, spec: nat, match_: Match, i: nat)
    requires of < |st.specs| && WithinLimits(s) && Later(st, s, of) && spec < |s.specs| && i < |match_.attributes|
    requires SizeFits(st, of, match_.attributes[i].dataSize)
    ensures Later(st, StepAttribute(s, spec, match_, i), of)
  {
    hide StepAttribute, Counted;
    StepAttributeLimits(s, spec, match_, i);
  }

  lemma {:induction false} RunLater(st: State, matches: seq<Match>, of: nat)
    requires of < |st.specs| && WithinLimits(st) && SizesFit(st, of, matches)
    ensures Later(st, Run(st, matches), of)
  {
    hide StepAttribute;
    forall s: State, spec: nat, k: nat, i: nat
      | WithinLimits(s) && Later(st, s, of) && spec < |s.specs| && k < |matches| && i < |matches[k].attributes|
      ensures WithinLimits(StepAttribute(s, spec, matches[k], i)) && Later(st, StepAttribute(s, spec, matches[k], i), of)
    {
      StepAttributeWithinLimits(s, spec, matches[k], i);
      assert SizeFits(st, of, matches[k].attributes[i].dataSize);
      StepAttributeLater(st, s, of, spec, matches[k], i);
    }
    RunInvariant((s: State) => WithinLimits(s) && Later(st, s, of), st, matches);
  }

  /** A size once refused for a specification stays refused for it, and so does every larger one, however the
      run goes on. */
  lemma {:induction false} RefusalPersists(st: State, matches: seq<Match>, spec: nat, size: nat, size': nat)
    requires spec < |st.specs| && WithinLimits(st) && SizesFit(st, spec, matches)
    requires !Accepts(StatusOf(st, spec, size)) && size <= size' && SizeFits(st, spec, size')
    ensures !Accepts(StatusOf(Run(st, matches), spec, size'))
  {
    RunLater(st, matches, spec);
    RunWithinLimits(st, matches);
    var after := Run(st, matches);
    RefusalMonotone(st.global, st.specs[spec].limits, size, after.global, after.specs[spec].limits, size');
  }

  // ------------------------------------------- what is counted and what is kept

  function InLimitCount(refs: seq<SampleRef>): nat {
    if refs == [] then 0 else (if refs[0].offLimits then 0 else 1) + InLimitCount(refs[1..])
  }

  function DataSize(ref: SampleRef): nat {
    if ref.matches != [] && ref.attributeIndex < |ref.matches[0].attributes|
    then ref.matches[0].attributes[ref.attributeIndex].dataSize else 0
  }

  function InLimitBytes(refs: seq<SampleRef>): nat {
    if refs == [] then 0 else (if refs[0].offLimits then 0 else DataSize(refs[0])) + InLimitBytes(refs[1..])
  }

  lemma {:induction false} InsertCounts(refs: seq<SampleRef>, ref: SampleRef)
    requires !Contains(refs, ref)
    ensures InLimitCount(Insert(refs, ref)) == InLimitCount(refs) + if ref.offLimits then 0 else 1
    ensures InLimitBytes(Insert(refs, ref)) == InLimitBytes(refs) + if ref.offLimits then 0 else DataSize(ref)
  {
    if refs != [] {
      assert refs[0] in refs && !Equivalent(refs[0], ref);
      assert Contains(refs[1..], ref) ==> Contains(refs, ref);
      if !Less(ref, refs[0]) { InsertCounts(refs[1..], ref); }
    }
  }

  lemma {:induction false} AddAttributeCounts(c: Collected, status: LimitStatus, spec: SampleSpec, match_: Match, i: nat)
    requires i < |match_.attributes|
    ensures var (after, hr) := AddAttribute(c, status, spec, match_, i);
            var added := Accepts(status) && hr != S_FALSE;
            && InLimitCount(after.samples) == InLimitCount(c.samples) + (if added then 1 else 0)
            && InLimitBytes(after.samples) ==
               InLimitBytes(c.samples) + (if added then match_.attributes[i].dataSize else 0)
  {
    if !Contains(c.samples, RefFor(match_, i, !Accepts(status))) {
      NotContainsNamed(c, status, spec, match_, i);
      InsertCounts(c.samples, NamedRef(c, spec, match_, i, !Accepts(status)));
    }
  }

  /** A result that added something new is ahead by at least one. */
  ghost predicate Ahead(c: Collected, r: (Collected, HResult), accepts: bool) {
    InLimitCount(r.0.samples) >= InLimitCount(c.samples) + if accepts && r.1 != S_FALSE then 1 else 0
  }

  lemma AddAttributeAhead(c: Collected, before: Collected, status: LimitStatus, spec: SampleSpec, match_: Match, i: nat)
    requires i < |match_.attributes| && InLimitCount(before.samples) >= InLimitCount(c.samples)
    ensures Ahead(c, AddAttribute(before, status, spec, match_, i), Accepts(status))
  {
    AddAttributeCounts(before, status, spec, match_, i);
  }

  lemma {:induction false} AddAttributesAhead(c: Collected, status: LimitStatus, spec: SampleSpec, match_: Match, n: nat)
    requires 0 < n <= |match_.attributes|
    ensures Ahead(c, AddAttributes(c, status, spec, match_, n), Accepts(status))
  {
    hide AddAttribute;
    if n > 1 {
      AddAttributesAhead(c, status, spec, match_, n - 1);
    }
    AddAttributeAhead(c, AddAttributes(c, status, spec, match_, n - 1).0, status, spec, match_, n - 1);
  }

  ghost predicate CountCovered(st: State) {
    st.global.accumulatedCount <= InLimitCount(st.collected.samples)
  }

  lemma StepAttributeCountCovered(st: State, spec: nat, match_: Match, i: nat)
    requires spec < |st.specs| && i < |match_.attributes| && CountCovered(st)
    ensures CountCovered(StepAttribute(st, spec, match_, i))
  {
    hide AddAttributes;
    var status, n := StatusOf(st, spec, match_.attributes[i].dataSize), |match_.attributes|;
    StepAttributeLimits(st, spec, match_, i);
    AddAttributesAhead(st.collected, status, st.specs[spec], match_, n);
  }

  /** However many attributes the matches have, no more samples are counted than are kept within limits. */
  lemma {:induction false} RunCountCovered(st: State, matches: seq<Match>)
    requires CountCovered(st)
    ensures CountCovered(Run(st, matches))
  {
    hide StepAttribute;
    forall s: State, spec: nat, k: nat, i: nat
      | CountCovered(s) && spec < |s.specs| && k < |matches| && i < |matches[k].attributes|
      ensures CountCovered(StepAttribute(s, spec, matches[k], i))
    {
      StepAttributeCountCovered(s, spec, matches[k], i);
    }
    RunInvariant((s: State) => CountCovered(s), st, matches);
  }

  /** The global accumulators are the number and the total size of the samples kept within limits. */
  ghost predicate Accurate(st: State) {
    && st.global.accumulatedCount == Low32(InLimitCount(st.collected.samples))
    && st.global.accumulatedBytes == Low64(InLimitBytes(st.collected.samples))
  }

  lemma {:induction false} StepSingleAccurate(st: State, spec: nat, match_: Match, i: nat)
    requires spec < |st.specs| && i < |match_.attributes| == 1 && Accurate(st)
    ensures Accurate(StepAttribute(st, spec, match_, i))
  {
    hide AddMatch, Low32, Low64;
    var size := match_.attributes[i].dataSize;
    var status := StatusOf(st, spec, size);
    StepAttributeLimits(st, spec, match_, i);
    AddSingleCounts(st.collected, status, st.specs[spec], match_);
    Low32Sum(InLimitCount(st.collected.samples), 1);
    Low64Sum(InLimitBytes(st.collected.samples), size);
  }

  lemma AddSingleCounts(c: Collected, status: LimitStatus, spec: SampleSpec, match_: Match)
    requires |match_.attributes| == 1
    ensures var (after, hr) := AddMatch(c, status, spec, match_);
            var added := Accepts(status) && hr != S_FALSE;
            && InLimitCount(after.samples) == InLimitCount(c.samples) + (if added then 1 else 0)
            && InLimitBytes(after.samples) ==
               InLimitBytes(c.samples) + (if added then match_.attributes[0].dataSize else 0)
  {
    AddAttributeCounts(c, status, spec, match_, 0);
    assert AddAttributes(c, status, spec, match_, 0).0 == c;
    assert AddAttributes(c, status, spec, match_, 1) == AddAttribute(c, status, spec, match_, 0);
  }

  /** With one attribute per match, what is counted is exactly what is kept within limits. */
  lemma {:induction false} RunAccurate(st: State, matches: seq<Match>)
    requires Accurate(st) && forall k :: 0 <= k < |matches| ==> |matches[k].attributes| == 1
    ensures Accurate(Run(st, matches))
  {
    hide StepAttribute;
    forall s: State, spec: nat, k: nat, i: nat
      | Accurate(s) && spec < |s.specs| && k < |matches| && i < |matches[k].attributes|
      ensures Accurate(StepAttribute(s, spec, matches[k], i))
    {
      assert |matches[k].attributes| == 1;
      StepSingleAccurate(s, spec, matches[k], i);
    }
    RunInvariant((s: State) => Accurate(s), st, matches);
  }

  // ------------------------------------- the first attribute speaks for a match

  lemma {:induction false} PresentStepAddsNothing(st: State, spec: nat, match_: Match, i: nat)
    requires spec < |st.specs| && i < |match_.attributes|
    requires forall k :: 0 <= k < |match_.attributes| ==> Present(st.collected, match_, k)
    ensures StepAttribute(st, spec, match_, i).collected == st.collected && !Counted(st, spec, match_, i)
  {
    AllPresentAddsNothing(st.collected, StatusOf(st, spec, match_.attributes[i].dataSize), st.specs[spec], match_,
                          |match_.attributes|);
  }

  /** Whatever the sizes of its other attributes, a match is collected entirely under the status of its first
      attribute, and at most that one is counted. */
  lemma {:induction false} FirstAttributeDecides(st: State, spec: nat, match_: Match, n: nat)
    requires spec < |st.specs| && 0 < n <= |match_.attributes|
    ensures var first, after := StatusOf(st, spec, match_.attributes[0].dataSize), StepAttributes(st, spec, match_, n);
            && after.collected == AddMatch(st.collected, first, st.specs[spec], match_).0
            && if Counted(st, spec, match_, 0) then
                 SameAccumulators(Account(st.global, match_.attributes[0].dataSize), after.global)
               else SameAccumulators(st.global, after.global)
  {
    hide AddAttribute;
    if n == 1 {
      assert StepAttributes(st, spec, match_, 1) == StepAttribute(st, spec, match_, 0);
      StepAttributeLimits(st, spec, match_, 0);
    } else {
      var before := StepAttributes(st, spec, match_, n - 1);
      FirstAttributeDecides(st, spec, match_, n - 1);
      var first := StatusOf(st, spec, match_.attributes[0].dataSize);
      forall k | 0 <= k < |match_.attributes| ensures Present(before.collected, match_, k) {
        AddAttributesPresent(st.collected, first, st.specs[spec], match_, |match_.attributes|, k);
      }
      PresentStepAddsNothing(before, spec, match_, n - 1);
      StepAttributeLimits(before, spec, match_, n - 1);
    }
  }

  // ------------------------------------------- what exactly a match adds

  /** Collecting one attribute makes no other one present. */
  lemma OtherStaysAbsent(c: Collected, status: LimitStatus, spec: SampleSpec, match_: Match, i: nat, other: nat)
    requires i < |match_.attributes| && other < |match_.attributes| && !Present(c, match_, other)
    requires match_.attributes[i].instance != match_.attributes[other].instance
    ensures !Present(AddAttribute(c, status, spec, match_, i).0, match_, other)
  {
    hide Less, Insert;
    var named, ref := NamedRef(c, spec, match_, i, !Accepts(status)), RefFor(match_, other, false);
    InsertMembers(c.samples, named);
    LessIsStrictWeakOrder(named, ref, ref);
  }

  lemma SameInstancePresent(c: Collected, match_: Match, i: nat, other: nat)
    requires i < |match_.attributes| && other < |match_.attributes|
    requires match_.attributes[i].instance == match_.attributes[other].instance
    ensures Present(c, match_, i) <==> Present(c, match_, other)
  {
    var a, b := RefFor(match_, i, false), RefFor(match_, other, false);
    assert forall e :: Equivalent(e, a) <==> Equivalent(e, b);
  }

  /** One of the first `n` attributes has the instance of attribute `i`. */
  predicate SeenBefore(match_: Match, n: nat, i: nat)
    requires n <= |match_.attributes| && i < |match_.attributes|
  {
    exists j :: 0 <= j < n && match_.attributes[j].instance == match_.attributes[i].instance
  }

  lemma AddAttributePresence(c: Collected, status: LimitStatus, spec: SampleSpec, match_: Match, n: nat, i: nat)
    requires n < |match_.attributes| && i < |match_.attributes|
    ensures Present(AddAttribute(c, status, spec, match_, n).0, match_, i) <==>
      Present(c, match_, i) || match_.attributes[n].instance == match_.attributes[i].instance
  {
    hide AddAttribute, Present;
    var after := AddAttribute(c, status, spec, match_, n).0;
    if match_.attributes[n].instance == match_.attributes[i].instance {
      AddAttributePresent(c, status, spec, match_, n);
      SameInstancePresent(after, match_, n, i);
    } else if Present(c, match_, i) {
      AddAttributeExtends(c, status, spec, match_, n);
      PresentKept(c, after, match_, i);
    } else {
      OtherStaysAbsent(c, status, spec, match_, n, i);
    }
  }

  /** What is present after some attributes is what was and what has one of their instances. */
  lemma {:induction false} AddAttributesPresence(c: Collected, status: LimitStatus, spec: SampleSpec, match_: Match,
                                                n: nat, i: nat)
    requires n <= |match_.attributes| && i < |match_.attributes|
    ensures Present(AddAttributes(c, status, spec, match_, n).0, match_, i) <==>
      Present(c, match_, i) || SeenBefore(match_, n, i)
  {
    hide AddAttribute, Present;
    if n > 0 {
      AddAttributesPresence(c, status, spec, match_, n - 1, i);
      AddAttributePresence(AddAttributes(c, status, spec, match_, n - 1).0, status, spec, match_, n - 1, i);
    }
  }

  /** The attribute is the first of its match with its instance, and no sample with its key is there. */
  predicate Fresh(c: Collected, match_: Match, i: nat)
    requires i < |match_.attributes|
  {
    !Contains(c.samples, RefFor(match_, i, false)) && !SeenBefore(match_, i, i)
  }

  function FreshCount(c: Collected, match_: Match, n: nat): (count: nat)
    requires n <= |match_.attributes|
    ensures count <= n
  {
    if n == 0 then 0 else FreshCount(c, match_, n - 1) + if Fresh(c, match_, n - 1) then 1 else 0
  }

  function FreshBytes(c: Collected, match_: Match, n: nat): nat
    requires n <= |match_.attributes|
  {
    if n == 0 then 0
    else FreshBytes(c, match_, n - 1) + if Fresh(c, match_, n - 1) then match_.attributes[n - 1].dataSize else 0
  }

  lemma FreshStep(c: Collected, match_: Match, n: nat)
    requires 0 < n <= |match_.attributes|
    ensures FreshCount(c, match_, n) == FreshCount(c, match_, n - 1) + if Fresh(c, match_, n - 1) then 1 else 0
    ensures FreshBytes(c, match_, n) ==
      FreshBytes(c, match_, n - 1) + if Fresh(c, match_, n - 1) then match_.attributes[n - 1].dataSize else 0
  {
  }

  lemma FreshIsAbsent(c: Collected, match_: Match, i: nat)
    requires i < |match_.attributes|
    ensures Fresh(c, match_, i) <==> !Present(c, match_, i) && !SeenBefore(match_, i, i)
  {
  }

  /** Within limits, exactly the fresh attributes are added; the last result tells whether the last one was. */
  lemma {:induction false} AddAttributesFresh(c: Collected, status: LimitStatus, spec: SampleSpec, match_: Match, n: nat)
    requires n <= |match_.attributes| && Accepts(status)
    ensures var (after, hr) := AddAttributes(c, status, spec, match_, n);
            && InLimitCount(after.samples) == InLimitCount(c.samples) + FreshCount(c, match_, n)
            && InLimitBytes(after.samples) == InLimitBytes(c.samples) + FreshBytes(c, match_, n)
            && (n > 0 ==> (hr != S_FALSE <==> Fresh(c, match_, n - 1)))
  {
    hide AddAttribute, Present, Fresh, SeenBefore;
    if n > 0 {
      hide FreshCount, FreshBytes, InLimitCount, InLimitBytes;
      FreshStep(c, match_, n);
      FreshIsAbsent(c, match_, n - 1);
      var before := AddAttributes(c, status, spec, match_, n - 1).0;
      AddAttributesFresh(c, status, spec, match_, n - 1);
      AddAttributesPresence(c, status, spec, match_, n - 1, n - 1);
      AddAttributePresent(before, status, spec, match_, n - 1);
      AddAttributeCounts(before, status, spec, match_, n - 1);
    }
  }

  /** Off limits, nothing is added within limits. */
  lemma {:induction false} AddAttributesOffLimits(c: Collected, status: LimitStatus, spec: SampleSpec, match_: Match, n: nat)
    requires n <= |match_.attributes| && !Accepts(status)
    ensures var after := AddAttributes(c, status, spec, match_, n).0;
            InLimitCount(after.samples) == InLimitCount(c.samples) && InLimitBytes(after.samples) == InLimitBytes(c.samples)
  {
    hide AddAttribute;
    if n > 0 {
      AddAttributesOffLimits(c, status, spec, match_, n - 1);
      AddAttributeCounts(AddAttributes(c, status, spec, match_, n - 1).0, status, spec, match_, n - 1);
    }
  }

  /** The status under which a match is collected. */
  function FirstStatus(st: State, spec: nat, match_: Match): LimitStatus
    requires spec < |st.specs| && match_.attributes != []
  {
    StatusOf(st, spec, match_.attributes[0].dataSize)
  }

  /** A match within limits adds its fresh attributes to the samples, and is counted, as one sample of the size of
      its first attribute, exactly if its last attribute is fresh; one off limits adds and counts nothing. */
  lemma {:induction false} MatchAddsFresh(st: State, spec: nat, match_: Match)
    requires spec < |st.specs| && match_.attributes != []
    ensures var n := |match_.attributes|;
            var after, accepted := StepAttributes(st, spec, match_, n), Accepts(FirstStatus(st, spec, match_));
            var counted := accepted && Fresh(st.collected, match_, n - 1);
            && InLimitCount(after.collected.samples) == InLimitCount(st.collected.samples) +
               (if accepted then FreshCount(st.collected, match_, n) else 0)
            && InLimitBytes(after.collected.samples) == InLimitBytes(st.collected.samples) +
               (if accepted then FreshBytes(st.collected, match_, n) else 0)
            && after.global.accumulatedCount ==
               (if counted then Low32(st.global.accumulatedCount + 1) else st.global.accumulatedCount)
            && after.global.accumulatedBytes ==
               (if counted then Low64(st.global.accumulatedBytes + match_.attributes[0].dataSize)
                else st.global.accumulatedBytes)
  {
    hide AddAttributes, Fresh, StepAttributes, FreshCount, FreshBytes;
    var n, status := |match_.attributes|, FirstStatus(st, spec, match_);
    FirstAttributeDecides(st, spec, match_, n);
    if Accepts(status) {
      AddAttributesFresh(st.collected, status, st.specs[spec], match_, n);
    } else {
      AddAttributesOffLimits(st.collected, status, st.specs[spec], match_, n);
    }
  }

  /** What keeps the accounting accurate over a match: it is off limits, or no attribute but the last is fresh, and
      the last, if fresh, is as large as the first. */
  predicate StaysAccurate(st: State, spec: nat, match_: Match)
    requires spec < |st.specs| && match_.attributes != []
  {
    var n := |match_.attributes|;
    || !Accepts(FirstStatus(st, spec, match_))
    || (&& FreshCount(st.collected, match_, n - 1) == 0
        && (Fresh(st.collected, match_, n - 1) ==> match_.attributes[n - 1].dataSize == match_.attributes[0].dataSize))
  }

  lemma {:induction false} NoFreshNoBytes(c: Collected, match_: Match, n: nat)
    requires n <= |match_.attributes| && FreshCount(c, match_, n) == 0
    ensures FreshBytes(c, match_, n) == 0
  {
    if n > 0 { NoFreshNoBytes(c, match_, n - 1); }
  }

  /** The numbers of a match as the source holds them. */
  ghost predicate HasWidths(match_: Match) {
    && |match_.attributes| < TWO_32
    && forall i :: 0 <= i < |match_.attributes| ==> match_.attributes[i].dataSize < TWO_64
  }

  /** The accounting stays accurate over a match exactly under that condition. */
  lemma {:induction false} AccurateAfterIff(st: State, spec: nat, match_: Match)
    requires spec < |st.specs| && match_.attributes != [] && Accurate(st) && HasWidths(match_)
    ensures Accurate(StepAttributes(st, spec, match_, |match_.attributes|)) <==> StaysAccurate(st, spec, match_)
  {
    hide Fresh, FreshCount, FreshBytes, StepAttributes, FirstStatus, Low32, Low64, StatusOf;
    var n, c := |match_.attributes|, st.collected;
    var counted := if Fresh(c, match_, n - 1) then 1 else 0;
    MatchAddsFresh(st, spec, match_);
    FreshStep(c, match_, n);
    CountsAgree(InLimitCount(c.samples), counted, FreshCount(c, match_, n));
    if FreshCount(c, match_, n - 1) == 0 {
      NoFreshNoBytes(c, match_, n - 1);
      BytesAgree(InLimitBytes(c.samples), match_.attributes[0].dataSize, match_.attributes[n - 1].dataSize);
    }
  }

  lemma CountsAgree(count: nat, counted: nat, added: nat)
    requires counted <= 1 && counted <= added < TWO_32
    ensures Low32(Low32(count) + counted) == Low32(count + added) <==> counted == added
    ensures Low32(Low32(count)) == Low32(count)
  {
  }

  lemma BytesAgree(bytes: nat, size: nat, size': nat)
    requires size < TWO_64 && size' < TWO_64
    ensures Low64(Low64(bytes) + size) == Low64(bytes + size') <==> size == size'
  {
  }

  /** The specification that a match goes to, if it has one and attributes to collect. */
  predicate Collects(st: State, match_: Match) {
    FindSpec(st.specs, match_.term) < |st.specs| && match_.attributes != []
  }

  /** The accounting is accurate at the start of a run and after each of its matches. */
  ghost predicate AccurateThroughout(st: State, matches: seq<Match>) {
    forall k :: 0 <= k <= |matches| ==> Accurate(Run(st, matches[..k]))
  }

  /** Each match, when its turn comes, is not collected or meets the condition. */
  ghost predicate AllStayAccurate(st: State, matches: seq<Match>) {
    forall k :: 0 <= k < |matches| ==> MatchStaysAccurate(Run(st, matches[..k]), matches[k])
  }

  lemma RunAppend(st: State, matches: seq<Match>, last: Match)
    ensures Run(st, matches + [last]) == StepMatch(Run(st, matches), last)
  {
    hide StepMatch;
    assert (matches + [last])[..|matches|] == matches;
  }

  lemma ThroughoutAppend(st: State, matches: seq<Match>, last: Match)
    ensures AccurateThroughout(st, matches + [last]) <==>
      AccurateThroughout(st, matches) && Accurate(StepMatch(Run(st, matches), last))
  {
    hide Accurate, StepMatch, Run;
    var all := matches + [last];
    RunAppend(st, matches, last);
    assert all[..|all|] == all;
    forall k | 0 <= k <= |matches| ensures Run(st, all[..k]) == Run(st, matches[..k]) {
      assert all[..k] == matches[..k];
    }
  }

  lemma AllStayAppend(st: State, matches: seq<Match>, last: Match)
    ensures AllStayAccurate(st, matches + [last]) <==>
      AllStayAccurate(st, matches) && MatchStaysAccurate(Run(st, matches), last)
  {
    hide MatchStaysAccurate, Run;
    var all := matches + [last];
    assert all[..|matches|] == matches && all[|matches|] == last;
    forall k | 0 <= k < |matches| ensures Run(st, all[..k]) == Run(st, matches[..k]) && all[k] == matches[k] {
      assert all[..k] == matches[..k];
    }
  }

  /** Over a run, the accounting is accurate throughout exactly when each match stays accurate. */
  lemma {:induction false} RunAccurateIff(st: State, matches: seq<Match>)
    requires Accurate(st) && forall k :: 0 <= k < |matches| ==> HasWidths(matches[k])
    ensures AccurateThroughout(st, matches) <==> AllStayAccurate(st, matches)
    ensures AccurateThroughout(st, matches) ==> Accurate(Run(st, matches))
  {
    hide Accurate, MatchStaysAccurate, StepMatch, AllStayAccurate, HasWidths;
    if matches != [] {
      var n := |matches| - 1;
      assert forall k :: 0 <= k < n ==> matches[..n][k] == matches[k];
      RunAccurateIff(st, matches[..n]);
      assert matches == matches[..n] + [matches[n]];
      ThroughoutAppend(st, matches[..n], matches[n]);
      AllStayAppend(st, matches[..n], matches[n]);
      if Accurate(Run(st, matches[..n])) {
        MatchAccurateIff(Run(st, matches[..n]), matches[n]);
      }
    } else {
      NoMatchAccurate(st);
    }
  }

  lemma NoMatchAccurate(st: State)
    requires Accurate(st)
    ensures AccurateThroughout(st, []) && AllStayAccurate(st, []) && Accurate(Run(st, []))
  {
    hide Accurate;
    var none: seq<Match> := [];
    assert forall k :: 0 <= k <= 0 ==> none[..k] == [];
  }

  predicate MatchStaysAccurate(st: State, match_: Match) {
    Collects(st, match_) ==> StaysAccurate(st, FindSpec(st.specs, match_.term), match_)
  }

  lemma MatchAccurateIff(st: State, match_: Match)
    requires Accurate(st) && HasWidths(match_)
    ensures Accurate(StepMatch(st, match_)) <==> MatchStaysAccurate(st, match_)
  {
    hide Accurate, StaysAccurate;
    if Collects(st, match_) {
      AccurateAfterIff(st, FindSpec(st.specs, match_.term), match_);
    }
  }

  // ------------------------------------------------- which keys a run collects

  /** A sample with this key is there. */
  ghost predicate Has(c: Collected, key: Key) {
    exists e :: e in c.samples
      && e.volume == key.volume && e.snapshot == key.snapshot && e.frn.low == key.low && e.instance == key.instance
  }

  /** The snapshot of a match; the live volume has the null one. */
  predicate HasSnapshot(match_: Match, snapshot: Guid) {
    match_.snapshot == Some(snapshot) || (match_.snapshot.None? && snapshot == GUID_NULL)
  }

  /** Attribute `i` of the match has this key. */
  predicate AttributeHas(match_: Match, i: nat, key: Key)
    requires i < |match_.attributes|
  {
    && match_.volume == key.volume && HasSnapshot(match_, key.snapshot) && match_.frn.low == key.low
    && match_.attributes[i].instance == key.instance
  }

  /** One of the first `n` attributes has this key. */
  ghost predicate HasKey(match_: Match, n: nat, key: Key)
    requires n <= |match_.attributes|
  {
    exists j :: 0 <= j < n && AttributeHas(match_, j, key)
  }

  lemma KeyOfAttribute(match_: Match, i: nat, key: Key)
    requires i < |match_.attributes|
    ensures AttributeHas(match_, i, key) <==> KeyOf(RefFor(match_, i, false)) == key
  {
  }

  lemma PresentIffHas(c: Collected, match_: Match, i: nat, key: Key)
    requires i < |match_.attributes| && Ordered(c.samples) && AttributeHas(match_, i, key)
    ensures Present(c, match_, i) <==> Has(c, key)
  {
    hide Less;
    var ref := RefFor(match_, i, false);
    KeyOfAttribute(match_, i, key);
    forall e | e in c.samples ensures Equivalent(e, ref) <==> KeyOf(e) == KeyOf(ref) {
      LessIsStrictWeakOrder(e, ref, ref);
    }
  }

  lemma AddAttributeHas(c: Collected, status: LimitStatus, spec: SampleSpec, match_: Match, i: nat, key: Key)
    requires i < |match_.attributes| && Sound(c)
    ensures Has(AddAttribute(c, status, spec, match_, i).0, key) <==> Has(c, key) || AttributeHas(match_, i, key)
  {
    hide Less, Insert, Ordered;
    var after, named := AddAttribute(c, status, spec, match_, i).0, NamedRef(c, spec, match_, i, !Accepts(status));
    AddAttributeSound(c, status, spec, match_, i);
    AddAttributePresent(c, status, spec, match_, i);
    if AttributeHas(match_, i, key) { PresentIffHas(after, match_, i, key); }
    InsertMembers(c.samples, named);
  }

  lemma {:induction false} AddAttributesHas(c: Collected, status: LimitStatus, spec: SampleSpec, match_: Match, n: nat,
                                           key: Key)
    requires n <= |match_.attributes| && Sound(c)
    ensures Has(AddAttributes(c, status, spec, match_, n).0, key) <==> Has(c, key) || HasKey(match_, n, key)
  {
    hide AddAttribute, Sound, Has;
    if n > 0 {
      AddAttributesHas(c, status, spec, match_, n - 1, key);
      AddAttributesSound(c, status, spec, match_, n - 1);
      AddAttributeHas(AddAttributes(c, status, spec, match_, n - 1).0, status, spec, match_, n - 1, key);
    }
  }

  /** The specifications are the same but for their limits. */
  ghost predicate SameTerms(st: State, after: State) {
    && |after.specs| == |st.specs|
    && forall j :: 0 <= j < |st.specs| ==> after.specs[j] == st.specs[j].(limits := after.specs[j].limits)
  }

  lemma {:induction false} RunKeepsTerms(st: State, matches: seq<Match>)
    ensures SameTerms(st, Run(st, matches))
  {
    hide StepAttribute;
    forall s: State, spec: nat, k: nat, i: nat
      | SameTerms(st, s) && spec < |s.specs| && k < |matches| && i < |matches[k].attributes|
      ensures SameTerms(st, StepAttribute(s, spec, matches[k], i))
    {
      StepAttributeLimits(s, spec, matches[k], i);
    }
    RunInvariant((s: State) => SameTerms(st, s), st, matches);
  }

  lemma SameTermsCollect(st: State, s: State, match_: Match)
    requires SameTerms(st, s)
    ensures Collects(s, match_) <==> Collects(st, match_)
  {
  }

  lemma StepMatchHas(st: State, match_: Match, key: Key)
    requires Sound(st.collected)
    ensures Has(StepMatch(st, match_).collected, key) <==>
      Has(st.collected, key) || (Collects(st, match_) && HasKey(match_, |match_.attributes|, key))
  {
    hide Sound, Has, AddAttributes;
    var spec, n := FindSpec(st.specs, match_.term), |match_.attributes|;
    if Collects(st, match_) {
      FirstAttributeDecides(st, spec, match_, n);
      AddAttributesHas(st.collected, FirstStatus(st, spec, match_), st.specs[spec], match_, n, key);
    }
  }

  /** The keys collected after a run are exactly those there before and those of the matches whose term some
      specification holds, whatever the limits. */
  lemma {:induction false} RunCollects(st: State, matches: seq<Match>, key: Key)
    requires Sound(st.collected)
    ensures Has(Run(st, matches).collected, key) <==>
      || Has(st.collected, key)
      || exists k :: 0 <= k < |matches| && Collects(st, matches[k]) && HasKey(matches[k], |matches[k].attributes|, key)
  {
    hide Sound, Has, HasKey, StepMatch, Collects;
    if matches != [] {
      var n := |matches| - 1;
      var before := Run(st, matches[..n]);
      RunCollects(st, matches[..n], key);
      RunSound(st, matches[..n]);
      RunKeepsTerms(st, matches[..n]);
      SameTermsCollect(st, before, matches[n]);
      StepMatchHas(before, matches[n], key);
      assert forall k :: 0 <= k < n ==> matches[..n][k] == matches[k];
      assert Has(Run(st, matches).collected, key) <==> Has(StepMatch(before, matches[n]).collected, key);
    }
  }

  /** So what is fresh when its turn comes is told by the matches alone. */
  lemma {:induction false} FreshInRunIff(st: State, matches: seq<Match>, k: nat, i: nat, key: Key)
    requires Sound(st.collected) && k < |matches| && i < |matches[k].attributes| && AttributeHas(matches[k], i, key)
    ensures Fresh(Run(st, matches[..k]).collected, matches[k], i) <==>
              && !Has(st.collected, key) && !HasKey(matches[k], i, key)
              && forall j :: 0 <= j < k && Collects(st, matches[j]) ==> !HasKey(matches[j], |matches[j].attributes|, key)
  {
    hide Has, Sound, Less, HasKey, SeenBefore, Present, Collects, AttributeHas;
    SeenIffHasKey(matches[k], i, key);
    FreshIsAbsent(Run(st, matches[..k]).collected, matches[k], i);
    RunCollects(st, matches[..k], key);
    RunSound(st, matches[..k]);
    assert Ordered(Run(st, matches[..k]).collected.samples) by { SoundIsOrdered(Run(st, matches[..k]).collected); }
    PresentIffHas(Run(st, matches[..k]).collected, matches[k], i, key);
    assert forall j :: 0 <= j < k ==> matches[..k][j] == matches[j];
  }

  lemma SeenIffHasKey(match_: Match, i: nat, key: Key)
    requires i < |match_.attributes| && AttributeHas(match_, i, key)
    ensures SeenBefore(match_, i, i) <==> HasKey(match_, i, key)
  {
    if j :| 0 <= j < i && match_.attributes[j].instance == match_.attributes[i].instance {
      assert AttributeHas(match_, j, key);
    }
    if j :| 0 <= j < i && AttributeHas(match_, j, key) {
      assert match_.attributes[j].instance == match_.attributes[i].instance;
    }
  }

  lemma SoundIsOrdered(c: Collected)
    requires Sound(c)
    ensures Ordered(c.samples)
  {
  }

  /** The match is new: its attributes have different instances, and none has been collected. */
  ghost predicate New(c: Collected, match_: Match) {
    && (forall i :: 0 <= i < |match_.attributes| ==> !Present(c, match_, i))
    && forall i, j :: 0 <= i < j < |match_.attributes| ==> match_.attributes[i].instance != match_.attributes[j].instance
  }

  function SumSizes(attributes: seq<AttributeMatch>): nat {
    if attributes == [] then 0 else SumSizes(attributes[..|attributes| - 1]) + attributes[|attributes| - 1].dataSize
  }

  lemma SumSizesAppend(attributes: seq<AttributeMatch>, last: AttributeMatch)
    ensures SumSizes(attributes + [last]) == SumSizes(attributes) + last.dataSize
  {
    assert (attributes + [last])[..|attributes|] == attributes;
  }

  lemma {:induction false} NewIsFresh(c: Collected, match_: Match, n: nat)
    requires New(c, match_) && n <= |match_.attributes|
    ensures FreshCount(c, match_, n) == n && FreshBytes(c, match_, n) == SumSizes(match_.attributes[..n])
    ensures n > 0 ==> Fresh(c, match_, n - 1)
  {
    if n > 0 {
      NewIsFresh(c, match_, n - 1);
      assert match_.attributes[..n][..n - 1] == match_.attributes[..n - 1];
      assert !Present(c, match_, n - 1);
    }
  }

  /** A new match whose first attribute is within limits is kept whole, whatever the sizes of the others, and
      counted as one sample of the size of the first. */
  lemma {:induction false} NewMatchKeptWhole(st: State, spec: nat, match_: Match)
    requires spec < |st.specs| && match_.attributes != [] && New(st.collected, match_)
    requires Accepts(StatusOf(st, spec, match_.attributes[0].dataSize))
    ensures var after, size := StepAttributes(st, spec, match_, |match_.attributes|), match_.attributes[0].dataSize;
            && InLimitCount(after.collected.samples) == InLimitCount(st.collected.samples) + |match_.attributes|
            && InLimitBytes(after.collected.samples) == InLimitBytes(st.collected.samples) + SumSizes(match_.attributes)
            && after.global.accumulatedCount == Low32(st.global.accumulatedCount + 1)
            && after.global.accumulatedBytes == Low64(st.global.accumulatedBytes + size)
  {
    hide New, StepAttributes, Fresh, FreshCount, FreshBytes;
    var n := |match_.attributes|;
    MatchAddsFresh(st, spec, match_);
    NewIsFresh(st.collected, match_, n);
    assert match_.attributes[..n] == match_.attributes;
  }

  lemma NothingCollected(match_: Match)
    requires |match_.attributes| == 2 && match_.attributes[0].instance != match_.attributes[1].instance
    ensures New(Collected([], {}), match_) && InLimitBytes([]) == 0 && SumSizes([]) == 0
  {
  }

  /** With 100 bytes at most, a file with streams of 10 and 1000 bytes is kept whole, and 10 bytes are counted. */
  lemma SecondAttributeEscapesTheLimit()
    ensures var small, large := AttributeMatch(1, "", 10, 0, 0, true), AttributeMatch(2, "s", 1000, 0, 0, true);
            var name := NameMatch("\\a", Some(FileName(5, 0, 5, "a")));
            var file := Match(0, 0, None, FileReference(1, 0, 40), [name], [small, large]);
            var st := State(Collected([], {}), UNLIMITED.(maxBytesTotal := 100), [SampleSpec("", DATA, [0], UNLIMITED)]);
            var after := Run(st, [file]);
            WithinLimits(st) && after.global.accumulatedBytes == 10 && InLimitBytes(after.collected.samples) == 1010
  {
    hide StepAttributes, New, SumSizes, InLimitCount, InLimitBytes;
    var small, large := AttributeMatch(1, "", 10, 0, 0, true), AttributeMatch(2, "s", 1000, 0, 0, true);
    var name := NameMatch("\\a", Some(FileName(5, 0, 5, "a")));
    var file := Match(0, 0, None, FileReference(1, 0, 40), [name], [small, large]);
    var st := State(Collected([], {}), UNLIMITED.(maxBytesTotal := 100), [SampleSpec("", DATA, [0], UNLIMITED)]);
    RunOne(st, file);
    NothingCollected(file);
    NewMatchKeptWhole(st, 0, file);
    SumSizesAppend([], small);
    SumSizesAppend([small], large);
    assert [] + [small] == [small] && [small] + [large] == [small, large];
  }

  lemma RunOne(st: State, match_: Match)
    ensures Run(st, [match_]) == StepMatch(st, match_)
  {
    hide StepMatch;
    assert [match_][..0] == [];
  }

  // --------------------------------------------------- which samples are named

  /** The match gives no name to its samples: it has none, or none with a file name in last place. */
  predicate Nameless(match_: Match) {
    match_.names == [] || match_.names[|match_.names| - 1].file.None?
  }

  /** Each sample is one of an attribute of a match, as the specification the match goes to has it. */
  ghost predicate FromMatches(c: Collected, specs: seq<SampleSpec>, matches: seq<Match>) {
    forall e :: e in c.samples ==> exists k :: 0 <= k < |matches| && IsFrom(e, matches[k], specs)
  }

  ghost predicate IsFrom(ref: SampleRef, match_: Match, specs: seq<SampleSpec>) {
    var spec := FindSpec(specs, match_.term);
    spec < |specs| && IsSample(ref, match_, specs[spec].name, specs[spec].content)
  }

  /** The sample is that of one attribute: its key and contents are theirs, it is without a name exactly if the match
      gives none, and otherwise named after the last name of the file. */
  ghost predicate IsSample(ref: SampleRef, match_: Match, specName: string, content: ContentType) {
    && ref.matches == [match_] && ref.attributeIndex < |match_.attributes|
    && var attribute := match_.attributes[ref.attributeIndex];
    && ref.volume == match_.volume && HasSnapshot(match_, ref.snapshot) && ref.frn == match_.frn
    && ref.instance == attribute.instance
    && ref.content == (if match_.names == [] then INVALID else content)
    && (ref.name == "" <==> Nameless(match_))
    && (ref.name != "" ==> IsNamed(ref.name, match_, attribute, specName, content))
    && ref.size == if ref.name == "" || !attribute.streamsOpen then 0
                   else if ref.content == STRINGS then attribute.stringsSize
                   else if ref.content == RAW then attribute.rawSize
                   else attribute.dataSize
  }

  ghost predicate IsNamed(name: string, match_: Match, attribute: AttributeMatch, specName: string, content: ContentType) {
    && !Nameless(match_)
    && var file := match_.names[|match_.names| - 1].file.value;
    exists idx: nat :: name == Candidate(Request(specName, content, file, attribute.name), idx)
  }

  lemma AddAttributeFrom(c: Collected, status: LimitStatus, spec: SampleSpec, specs: seq<SampleSpec>, matches: seq<Match>,
                         k: nat, i: nat)
    requires k < |matches| && i < |matches[k].attributes| && FromMatches(c, specs, matches)
    requires Serves(spec, specs, matches[k].term)
    ensures FromMatches(AddAttribute(c, status, spec, matches[k], i).0, specs, matches)
  {
    hide IsSample, Contains;
    var named := NamedRef(c, spec, matches[k], i, !Accepts(status));
    InsertMembers(c.samples, named);
    NamedIsSample(c, spec, matches[k], i, !Accepts(status));
    assert IsFrom(named, matches[k], specs);
  }

  /** It is the specification that a term goes to, whatever its limits. */
  ghost predicate Serves(spec: SampleSpec, specs: seq<SampleSpec>, term: int) {
    && FindSpec(specs, term) < |specs|
    && spec.name == specs[FindSpec(specs, term)].name && spec.content == specs[FindSpec(specs, term)].content
  }

  lemma NamedIsSample(c: Collected, spec: SampleSpec, match_: Match, i: nat, offLimits: bool)
    requires i < |match_.attributes|
    ensures IsSample(NamedRef(c, spec, match_, i, offLimits), match_, spec.name, spec.content)
  {
    hide UniqueName, Candidate;
    NamedUnlessMissing(spec, match_, match_.attributes[i], c.names);
    LastNameGiven(spec, match_, match_.attributes[i], c.names);
  }

  lemma LastNameGiven(spec: SampleSpec, match_: Match, attribute: AttributeMatch, names: set<string>)
    ensures var name := GiveNames(spec, match_, attribute, names, |match_.names|).1;
            !Nameless(match_) ==> IsNamed(name, match_, attribute, spec.name, spec.content)
  {
    if !Nameless(match_) {
      var n := |match_.names|;
      var taken := GiveNames(spec, match_, attribute, names, n - 1).0;
      var request := Request(spec.name, spec.content, match_.names[n - 1].file.value, attribute.name);
      assert UniqueName(request, taken) == Candidate(request, FirstFree(request, taken, 0));
    }
  }

  lemma {:induction false} AddAttributesFrom(c: Collected, status: LimitStatus, spec: SampleSpec, specs: seq<SampleSpec>,
                                            matches: seq<Match>, k: nat, n: nat)
    requires k < |matches| && n <= |matches[k].attributes| && FromMatches(c, specs, matches)
    requires Serves(spec, specs, matches[k].term)
    ensures FromMatches(AddAttributes(c, status, spec, matches[k], n).0, specs, matches)
  {
    hide AddAttribute, FromMatches, Serves;
    if n > 0 {
      AddAttributesFrom(c, status, spec, specs, matches, k, n - 1);
      AddAttributeFrom(AddAttributes(c, status, spec, matches[k], n - 1).0, status, spec, specs, matches, k, n - 1);
    }
  }

  lemma StepAttributeFrom(st: State, s: State, spec: nat, matches: seq<Match>, k: nat, i: nat)
    requires SameTerms(st, s) && k < |matches| && i < |matches[k].attributes|
    requires spec == FindSpec(s.specs, matches[k].term) < |s.specs| && FromMatches(s.collected, st.specs, matches)
    ensures FromMatches(StepAttribute(s, spec, matches[k], i).collected, st.specs, matches)
  {
    hide FromMatches, AddAttributes;
    assert FindSpec(st.specs, matches[k].term) == spec;
    AddAttributesFrom(s.collected, StatusOf(s, spec, matches[k].attributes[i].dataSize), s.specs[spec], st.specs, matches,
                      k, |matches[k].attributes|);
  }

  /** Every sample a run collects is that of an attribute of one of its matches. */
  lemma {:induction false} RunFromMatches(st: State, matches: seq<Match>)
    requires FromMatches(st.collected, st.specs, matches)
    ensures FromMatches(Run(st, matches).collected, st.specs, matches)
  {
    hide StepAttribute, FromMatches;
    forall s: State, spec: nat, k: nat, i: nat
      | SameTerms(st, s) && FromMatches(s.collected, st.specs, matches) && k < |matches| && i < |matches[k].attributes|
        && spec == FindSpec(s.specs, matches[k].term) < |s.specs|
      ensures SameTerms(st, StepAttribute(s, spec, matches[k], i))
      ensures FromMatches(StepAttribute(s, spec, matches[k], i).collected, st.specs, matches)
    {
      StepAttributeLimits(s, spec, matches[k], i);
      StepAttributeFrom(st, s, spec, matches, k, i);
    }
    RunInvariant((s: State) => SameTerms(st, s) && FromMatches(s.collected, st.specs, matches), st, matches);
  }

  /** All samples have names, these are in use, and no two are the same. */
  ghost predicate AllNamedApart(c: Collected) {
    && (forall e :: e in c.samples ==> e.name != "" && e.name in c.names)
    && forall d, e :: d in c.samples && e in c.samples && d != e ==> d.name != e.name
  }

  lemma AllNamed(c: Collected, specs: seq<SampleSpec>, matches: seq<Match>)
    requires Sound(c) && FromMatches(c, specs, matches) && forall k :: 0 <= k < |matches| ==> !Nameless(matches[k])
    ensures AllNamedApart(c)
  {
    hide Ordered, Nameless, IsNamed, HasSnapshot;
    forall e | e in c.samples ensures e.name != "" {
      var k :| 0 <= k < |matches| && IsFrom(e, matches[k], specs);
    }
  }

  // -------------------------------------------------------------- the command

  /** Limits before any sample: nothing is marked, and the maxima fit their widths. */
  ghost predicate Unmarked(limits: Limits) {
    && !limits.maxSampleCountReached && !limits.maxBytesPerSampleReached && !limits.maxBytesTotalReached
    && Fits(limits)
  }

  predicate AtZero(limits: Limits) { limits.accumulatedCount == 0 && limits.accumulatedBytes == 0 }

  /** Before any match, with accumulators at 0, everything the runs keep holds. */
  lemma InitialState(global: Limits, specs: seq<SampleSpec>)
    requires AtZero(global) && forall j :: 0 <= j < |specs| ==> AtZero(specs[j].limits)
    ensures var st := State(Collected([], {}), global, specs);
            && Sound(st.collected) && Balanced(st) && CountCovered(st) && Accurate(st)
            && (!global.ignoreLimits && Unmarked(global) && (forall j :: 0 <= j < |specs| ==> Unmarked(specs[j].limits)) ==>
                  WithinLimits(st) && AllTruthful(st))
  {
    ZeroSums(specs);
  }

  /** So every run from there keeps samples ordered and named as their matches have it, accumulators balanced and no
      greater than the number of samples kept; and with limits enabled, within the configured maxima, with marks that
      tell the truth. If every match gives a name, all samples are named apart. */
  lemma {:induction false} RunFromStart(global: Limits, specs: seq<SampleSpec>, matches: seq<Match>)
    requires AtZero(global) && forall j :: 0 <= j < |specs| ==> AtZero(specs[j].limits)
    requires Unmarked(global) && forall j :: 0 <= j < |specs| ==> Unmarked(specs[j].limits)
    ensures var st := State(Collected([], {}), global, specs);
            var after := Run(st, matches);
            && Sound(after.collected) && Balanced(after) && CountCovered(after) && SameConfiguration(st, after)
            && FromMatches(after.collected, specs, matches)
            && ((forall k :: 0 <= k < |matches| ==> !Nameless(matches[k])) ==> AllNamedApart(after.collected))
            && (!global.ignoreLimits ==> WithinLimits(after) && AllTruthful(after))
  {
    hide Sound, Balanced, CountCovered, WithinLimits, AllTruthful, Accurate, Run, AllNamedApart, IsFrom;
    var st := State(Collected([], {}), global, specs);
    InitialState(global, specs);
    RunSound(st, matches);
    RunBalanced(st, matches);
    RunCountCovered(st, matches);
    RunConfiguration(st, matches);
    RunFromMatches(st, matches);
    if forall k :: 0 <= k < |matches| ==> !Nameless(matches[k]) {
      AllNamed(Run(st, matches).collected, specs, matches);
    }
    if !global.ignoreLimits {
      RunWithinLimits(st, matches);
      RunTruthful(st, matches);
    }
  }

  lemma {:induction false} ZeroSums(specs: seq<SampleSpec>)
    requires forall j :: 0 <= j < |specs| ==> AtZero(specs[j].limits)
    ensures SumCounts(specs) == 0 && SumBytes(specs) == 0
  {
    if specs != [] { ZeroSums(specs[1..]); }
  }

  class Main {
    var samples: seq<SampleRef>
    var sampleNames: set<string>
    var globalLimits: Limits
    var specs: seq<SampleSpec>

    ghost function Value(): State
      reads this
    {
      State(Collected(samples, sampleNames), globalLimits, specs)
    }

    constructor (limits: Limits, specs: seq<SampleSpec>)
      ensures Value() == State(Collected([], {}), limits, specs)
    {
      samples, sampleNames, globalLimits, this.specs := [], {}, limits, specs;
    }

    /** Gives a sample one free name for each name of its file; the last one stays. */
    method GiveSampleNames(spec: SampleSpec, match_: Match, attribute: AttributeMatch) returns (sampleName: string)
      modifies this`sampleNames
      ensures (sampleNames, sampleName) == GiveNames(spec, match_, attribute, old(sampleNames), |match_.names|)
    {
      hide UniqueName;
      sampleName := "";
      for k := 0 to |match_.names|
        invariant (sampleNames, sampleName) == GiveNames(spec, match_, attribute, old(sampleNames), k)
      {
        var file := match_.names[k].file;
        var cabSampleName := "";
        if file.Some? {
          var tries;
          cabSampleName, tries := FindUniqueName(Request(spec.name, spec.content, file.value, attribute.name), sampleNames);
        }
        sampleNames := sampleNames + {cabSampleName};
        sampleName := cabSampleName;
      }
    }

    method AddSample(status: LimitStatus, spec: SampleSpec, match_: Match, i: nat) returns (hr: HResult)
      requires i < |match_.attributes|
      modifies this`samples, this`sampleNames
      ensures (Collected(samples, sampleNames), hr)
           == AddAttribute(Collected(old(samples), old(sampleNames)), status, spec, match_, i)
    {
      var attribute := match_.attributes[i];
      var sampleRef := RefFor(match_, i, !Accepts(status));
      if Contains(samples, sampleRef) {
        return S_FALSE;
      }
      if match_.names != [] {
        sampleRef := sampleRef.(content := spec.content);
      }
      var sampleName := GiveSampleNames(spec, match_, attribute);
      sampleRef := sampleRef.(name := sampleName);
      var stream := StreamSize(sampleName, sampleRef.content, attribute);
      if stream.Some? {
        sampleRef := sampleRef.(size := stream.value);
      }
      samples := Insert(samples, sampleRef);
      hr := if stream.Some? then S_OK else Failed(0);
    }

    method AddSamplesForMatch(status: LimitStatus, spec: SampleSpec, match_: Match) returns (hr: HResult)
      modifies this`samples, this`sampleNames
      ensures (Collected(samples, sampleNames), hr)
           == AddMatch(Collected(old(samples), old(sampleNames)), status, spec, match_)
    {
      hide AddAttribute;
      hr := Failed(0);
      for i := 0 to |match_.attributes|
        invariant (Collected(samples, sampleNames), hr)
               == AddAttributes(Collected(old(samples), old(sampleNames)), status, spec, match_, i)
      {
        hr := AddSample(status, spec, match_, i);
      }
      if hr != S_FALSE {
        hr := S_OK;
      }
    }

    /** The callback of the file finder. */
    method FindMatchingSamples(found: Option<Match>)
      modifies this
      ensures Value() == if found.None? then old(Value()) else StepMatch(old(Value()), found.value)
    {
      hide StepAttribute;
      if found.None? {
        return;
      }
      var match_ := found.value;
      var spec := 0;
      while spec < |specs| && match_.term !in specs[spec].terms
        invariant spec <= |specs| && forall j :: 0 <= j < spec ==> match_.term !in specs[j].terms
      {
        spec := spec + 1;
      }
      assert spec == FindSpec(specs, match_.term);
      if spec == |specs| {
        return;
      }
      for i := 0 to |match_.attributes|
        invariant |specs| == |old(specs)| && Value() == StepAttributes(old(Value()), spec, match_, i)
      {
        CollectAttribute(spec, match_, i);
      }
    }

    method CollectAttribute(spec: nat, match_: Match, i: nat)
      requires spec < |specs| && i < |match_.attributes|
      modifies this
      ensures Value() == StepAttribute(old(Value()), spec, match_, i)
    {
      hide AddMatch;
      var dataSize := match_.attributes[i].dataSize;
      var status := SampleLimitStatus(globalLimits, specs[spec].limits, dataSize);
      var hr := AddSamplesForMatch(status, specs[spec], match_);
      var local := specs[spec].limits;
      match status {
        case NoLimits =>
          if hr != S_FALSE {
            local, globalLimits := Account(local, dataSize), Account(globalLimits, dataSize);
          }
        case SampleWithinLimits =>
          if hr != S_FALSE {
            local, globalLimits := Account(local, dataSize), Account(globalLimits, dataSize);
          }
        case GlobalSampleCountLimitReached => globalLimits := globalLimits.(maxSampleCountReached := true);
        case GlobalMaxBytesPerSample => globalLimits := globalLimits.(maxBytesPerSampleReached := true);
        case GlobalMaxBytesTotal => globalLimits := globalLimits.(maxBytesTotalReached := true);
        case LocalSampleCountLimitReached => local := local.(maxSampleCountReached := true);
        case LocalMaxBytesPerSample => local := local.(maxBytesPerSampleReached := true);
        case LocalMaxBytesTotal => local := local.(maxBytesTotalReached := true);
        case FailedToComputeLimits =>
      }
      specs := specs[spec := specs[spec].(limits := local)];
    }
  }
}
