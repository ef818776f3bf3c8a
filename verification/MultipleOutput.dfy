/** The life of the writers of a tool with several outputs: prepare the archive agent,
    get the writers, go through the outputs, close everything. */
module MultipleOutput {
  import opened Windows
  import Decimal

  // The kinds of output, as bit flags.
  type Kind = nat
  const TABLE_FILE: Kind := 1
  const ARCHIVE: Kind := 8
  const DIRECTORY: Kind := 16
  const SQL: Kind := 32
  const CSV: Kind := 128
  const TSV: Kind := 256
  const PARQUET: Kind := 512
  const ORC: Kind := 4096

  /** The kinds whose outputs all share one writer. */
  predicate IsShared(kind: Kind) {
    kind in {TABLE_FILE, CSV, CSV + TABLE_FILE, TSV, TSV + TABLE_FILE,
             PARQUET, PARQUET + TABLE_FILE, ORC, ORC + TABLE_FILE, SQL}
  }

  predicate HasOwnWriters(kind: Kind) { kind == DIRECTORY || kind == ARCHIVE }

  /** What happens to writers, the callbacks with the writer each finds, and what is sent to the archive agent. */
  datatype Event =
    | Opened
    | StreamAdded(name: string, writer: nat)
    | Flushed
    | Called(output: nat, with: Option<nat>)
    | Closed(writer: nat)
    | Completed

  datatype Output = Output(id: string, writer: Option<nat>)

  /** Which writers can be created, and which of them write to a stream. */
  datatype Writers = Writers(created: nat -> bool, hasStream: nat -> bool)

  datatype Callback = Returns(hr: HResult) | Throws

  /** `next` is the identity of the next writer. */
  datatype State = State(outputs: seq<Output>, agent: bool, log: seq<Event>, next: nat)

  // --------------------------------------------------------------- the steps

  function PrepareState(st: State, kind: Kind, starts: bool): (State, HResult) {
    if kind != ARCHIVE then (st, S_OK)
    else if !starts then (st.(agent := true), Failed(0))
    else (st.(agent := true, log := st.log + [Opened]), S_OK)
  }

  function StreamName(prefix: string, idx: nat, id: string): string {
    prefix + "_" + (Decimal.PrintPadded(idx, 8) + "_" + (id + "_.csv"))
  }

  /** The first `n` outputs get a writer each, until one cannot be created. */
  function OwnWriters(st: State, kind: Kind, prefix: string, w: Writers, n: nat): (r: (State, bool))
    requires n <= |st.outputs|
    ensures |r.0.outputs| == |st.outputs|
  {
    if n == 0 then (st, true)
    else
      var (before, ok) := OwnWriters(st, kind, prefix, w, n - 1);
      if !ok || !w.created(before.next) then (before, false)
      else
        var output, writer := before.outputs[n - 1], before.next;
        (before.(outputs := before.outputs[n - 1 := output.(writer := Some(writer))],
                 log := if kind == ARCHIVE && w.hasStream(writer)
                        then before.log + [StreamAdded(StreamName(prefix, n - 1, output.id), writer)] else before.log,
                 next := writer + 1), true)
  }

  function ShareWriter(outputs: seq<Output>, writer: nat): seq<Output> {
    seq(|outputs|, i requires 0 <= i < |outputs| => outputs[i].(writer := Some(writer)))
  }

  function GetWritersState(st: State, kind: Kind, prefix: string, w: Writers): (State, HResult) {
    if IsShared(kind) then
      if !w.created(st.next) then (st, Failed(0))
      else (st.(outputs := ShareWriter(st.outputs, st.next), next := st.next + 1), S_OK)
    else if HasOwnWriters(kind) then
      var (after, ok) := OwnWriters(st, kind, prefix, w, |st.outputs|);
      if !ok then (after, Failed(0))
      else (if kind == ARCHIVE then after.(log := after.log + [Flushed]) else after, S_OK)
    else (st, S_OK)
  }

  function CallState(st: State, i: nat): State
    requires i < |st.outputs|
  {
    st.(log := st.log + [Called(i, st.outputs[i].writer)])
  }

  function CloseOneState(st: State, kind: Kind, i: nat): State
    requires i < |st.outputs| && (HasOwnWriters(kind) ==> st.outputs[i].writer.Some?)
  {
    if HasOwnWriters(kind) then
      st.(log := st.log + [Closed(st.outputs[i].writer.value)], outputs := st.outputs[i := st.outputs[i].(writer := None)])
    else st
  }

  function CloseAllState(st: State, kind: Kind): State {
    var closed :=
      if IsShared(kind) && st.outputs != [] && st.outputs[0].writer.Some? then
        st.(log := st.log + [Closed(st.outputs[0].writer.value)], outputs := st.outputs[0 := st.outputs[0].(writer := None)])
      else st;
    if closed.agent then closed.(log := closed.log + [Completed]) else closed
  }

  ghost predicate AllOpen(st: State, kind: Kind, from: nat) {
    HasOwnWriters(kind) ==> forall j :: from <= j < |st.outputs| ==> st.outputs[j].writer.Some?
  }

  /** The outputs from `i` on: each is closed after its callback, and a callback that throws ends the walk. */
  function Walk(st: State, kind: Kind, callbacks: seq<Callback>, i: nat): State
    requires i <= |st.outputs| == |callbacks| && AllOpen(st, kind, i)
    decreases |st.outputs| - i
  {
    if i == |st.outputs| then st
    else
      var closed := CloseOneState(CallState(st, i), kind, i);
      if callbacks[i].Throws? then closed else Walk(closed, kind, callbacks, i + 1)
  }

  function ForEachState(st: State, kind: Kind, callbacks: seq<Callback>): State
    requires |st.outputs| == |callbacks| && AllOpen(st, kind, 0)
  {
    CloseAllState(Walk(st, kind, callbacks, 0), kind)
  }

  function CloseAgain(st: State, kind: Kind, times: nat): State {
    if times == 0 then st else CloseAllState(CloseAgain(st, kind, times - 1), kind)
  }

  // ------------------------------------------------------ counting in the log

  function Count(log: seq<Event>, e: Event): nat {
    if log == [] then 0 else (if log[0] == e then 1 else 0) + Count(log[1..], e)
  }

  lemma {:induction false} CountConcat(a: seq<Event>, b: seq<Event>, e: Event)
    ensures Count(a + b, e) == Count(a, e) + Count(b, e)
  {
    if a == [] {
      assert a + b == b;
    } else {
      CountConcat(a[1..], b, e);
      assert (a + b)[1..] == a[1..] + b;
    }
  }

  lemma CountAppend(log: seq<Event>, last: Event, e: Event)
    ensures Count(log + [last], e) == Count(log, e) + if last == e then 1 else 0
  {
    CountConcat(log, [last], e);
  }

  // ------------------------------------------------------- the shape of a run

  /** Each of the first `n` outputs has a writer of its own; those with a stream were announced once. */
  lemma {:induction false} OwnWritersShape(st: State, kind: Kind, prefix: string, w: Writers, n: nat, e: Event)
    requires n <= |st.outputs| && OwnWriters(st, kind, prefix, w, n).1
    ensures var after := OwnWriters(st, kind, prefix, w, n).0;
            && after.next == st.next + n && after.agent == st.agent
            && (forall j :: 0 <= j < n ==> after.outputs[j].writer == Some(st.next + j))
            && (forall j :: 0 <= j < |st.outputs| ==> after.outputs[j].id == st.outputs[j].id)
            && Count(after.log, e) == Count(st.log, e) +
               if e.StreamAdded? && kind == ARCHIVE && st.next <= e.writer < st.next + n && w.hasStream(e.writer)
                  && e.name == StreamName(prefix, e.writer - st.next, st.outputs[e.writer - st.next].id) then 1 else 0
  {
    if n > 0 {
      OwnWritersShape(st, kind, prefix, w, n - 1, e);
      var before := OwnWriters(st, kind, prefix, w, n - 1).0;
      CountAppend(before.log, StreamAdded(StreamName(prefix, n - 1, before.outputs[n - 1].id), before.next), e);
    }
  }

  /** Where the walk stops: after the first output whose callback throws, or at the end. */
  function Stop(callbacks: seq<Callback>, i: nat): (stop: nat)
    requires i <= |callbacks|
    ensures i <= stop <= |callbacks|
    decreases |callbacks| - i
  {
    if i == |callbacks| then i else if callbacks[i].Throws? then i + 1 else Stop(callbacks, i + 1)
  }

  /** A walk calls back for the outputs it reaches, each with its own writer, and closes these, once each. */
  lemma {:induction false} WalkCloses(st: State, kind: Kind, callbacks: seq<Callback>, i: nat, base: nat, e: Event)
    requires HasOwnWriters(kind) && i <= |st.outputs| == |callbacks|
    requires forall j :: i <= j < |st.outputs| ==> st.outputs[j].writer == Some(base + j)
    ensures var after := Walk(st, kind, callbacks, i);
            && after.agent == st.agent && after.next == st.next && |after.outputs| == |st.outputs|
            && Count(after.log, e) == Count(st.log, e) +
               (if e.Closed? && base + i <= e.writer < base + Stop(callbacks, i) then 1 else 0) +
               (if e.Called? && i <= e.output < Stop(callbacks, i) && e.with == Some(base + e.output) then 1 else 0)
    decreases |st.outputs| - i
  {
    if i < |st.outputs| {
      CountAppend(st.log, Called(i, Some(base + i)), e);
      CountAppend(CallState(st, i).log, Closed(base + i), e);
      if !callbacks[i].Throws? {
        WalkCloses(CloseOneState(CallState(st, i), kind, i), kind, callbacks, i + 1, base, e);
      }
    }
  }

  /** A walk over outputs that share a writer calls back with it, and closes nothing. */
  lemma {:induction false} WalkShared(st: State, kind: Kind, callbacks: seq<Callback>, i: nat, writer: nat, e: Event)
    requires !HasOwnWriters(kind) && i <= |st.outputs| == |callbacks|
    requires forall j :: i <= j < |st.outputs| ==> st.outputs[j].writer == Some(writer)
    ensures var after := Walk(st, kind, callbacks, i);
            && after.(log := st.log) == st
            && Count(after.log, e) == Count(st.log, e) +
               if e.Called? && i <= e.output < Stop(callbacks, i) && e.with == Some(writer) then 1 else 0
    decreases |st.outputs| - i
  {
    if i < |st.outputs| {
      CountAppend(st.log, Called(i, Some(writer)), e);
      if !callbacks[i].Throws? { WalkShared(CallState(st, i), kind, callbacks, i + 1, writer, e); }
    }
  }

  /** Further calls close nothing. */
  lemma {:induction false} CloseAgainClosesNothing(st: State, kind: Kind, times: nat, e: Event)
    requires IsShared(kind) && st.outputs != [] ==> st.outputs[0].writer.None?
    ensures var after := CloseAgain(st, kind, times);
            && after.outputs == st.outputs && after.agent == st.agent && after.next == st.next
            && Count(after.log, e) == Count(st.log, e) + if e.Completed? && st.agent then times else 0
  {
    if times > 0 {
      CloseAgainClosesNothing(st, kind, times - 1, e);
      CountAppend(CloseAgain(st, kind, times - 1).log, Completed, e);
    }
  }

  /** From getting the writers to the last close. */
  function Life(st: State, kind: Kind, prefix: string, w: Writers, callbacks: seq<Callback>, times: nat): State
    requires |st.outputs| == |callbacks| && GetWritersState(st, kind, prefix, w).1 == S_OK
  {
    GetWritersOpens(st, kind, prefix, w);
    CloseAgain(ForEachState(GetWritersState(st, kind, prefix, w).0, kind, callbacks), kind, times)
  }

  lemma GetWritersOpens(st: State, kind: Kind, prefix: string, w: Writers)
    requires GetWritersState(st, kind, prefix, w).1 == S_OK
    ensures var after := GetWritersState(st, kind, prefix, w).0;
            |after.outputs| == |st.outputs| && AllOpen(after, kind, 0)
  {
    if HasOwnWriters(kind) { OwnWritersShape(st, kind, prefix, w, |st.outputs|, Opened); }
  }

  /** How often a writer was closed between two states. */
  function Closes(before: State, after: State, writer: nat): int {
    Count(after.log, Closed(writer)) - Count(before.log, Closed(writer))
  }

  /** Every event a life adds to the log, counted. */
  lemma {:induction false} LifeEvents(st: State, kind: Kind, prefix: string, w: Writers, callbacks: seq<Callback>,
                                      times: nat, e: Event)
    requires st.outputs != [] && |st.outputs| == |callbacks| && GetWritersState(st, kind, prefix, w).1 == S_OK
    requires IsShared(kind) || HasOwnWriters(kind)
    ensures var after := Life(st, kind, prefix, w, callbacks, times);
            && after.next == st.next + (if IsShared(kind) then 1 else |st.outputs|)
            && Count(after.log, e) == Count(st.log, e) +
               match e
               case Opened => 0
               case Flushed => if kind == ARCHIVE then 1 else 0
               case Completed => if st.agent then times + 1 else 0
               case Called(i, writer) =>
                 if i < Stop(callbacks, 0) && writer == Some(if IsShared(kind) then st.next else st.next + i) then 1 else 0
               case Closed(writer) =>
                 if st.next <= writer < st.next + (if IsShared(kind) then 1 else Stop(callbacks, 0)) then 1 else 0
               case StreamAdded(name, writer) =>
                 if kind == ARCHIVE && st.next <= writer < st.next + |st.outputs| && w.hasStream(writer)
                    && name == StreamName(prefix, writer - st.next, st.outputs[writer - st.next].id) then 1 else 0
  {
    hide Count, Walk, GetWritersState, CloseAgain;
    GetWritersOpens(st, kind, prefix, w);
    var got := GetWritersState(st, kind, prefix, w).0;
    if IsShared(kind) {
      SharedLife(st, kind, prefix, w, callbacks, e);
    } else {
      OwnLife(st, kind, prefix, w, callbacks, e);
    }
    CloseAgainClosesNothing(ForEachState(got, kind, callbacks), kind, times, e);
  }

  /** The events up to the end of `ForEachOutput` when the outputs share a writer. */
  lemma SharedLife(st: State, kind: Kind, prefix: string, w: Writers, callbacks: seq<Callback>, e: Event)
    requires st.outputs != [] && |st.outputs| == |callbacks| && GetWritersState(st, kind, prefix, w).1 == S_OK
    requires IsShared(kind) && AllOpen(GetWritersState(st, kind, prefix, w).0, kind, 0)
    requires |GetWritersState(st, kind, prefix, w).0.outputs| == |st.outputs|
    ensures var after := ForEachState(GetWritersState(st, kind, prefix, w).0, kind, callbacks);
            && after.next == st.next + 1 && after.agent == st.agent && after.outputs != [] && after.outputs[0].writer.None?
            && Count(after.log, e) == Count(st.log, e) +
               (if e == Closed(st.next) then 1 else 0) + (if e.Completed? && st.agent then 1 else 0) +
               (if e.Called? && e.output < Stop(callbacks, 0) && e.with == Some(st.next) then 1 else 0)
  {
    hide Count, Walk;
    var got := GetWritersState(st, kind, prefix, w).0;
    WalkShared(got, kind, callbacks, 0, st.next, e);
    var walked := Walk(got, kind, callbacks, 0);
    CountAppend(walked.log, Closed(st.next), e);
    CountAppend(walked.log + [Closed(st.next)], Completed, e);
  }

  /** The same when each output has its own. */
  lemma OwnLife(st: State, kind: Kind, prefix: string, w: Writers, callbacks: seq<Callback>, e: Event)
    requires st.outputs != [] && |st.outputs| == |callbacks| && GetWritersState(st, kind, prefix, w).1 == S_OK
    requires HasOwnWriters(kind) && AllOpen(GetWritersState(st, kind, prefix, w).0, kind, 0)
    requires |GetWritersState(st, kind, prefix, w).0.outputs| == |st.outputs|
    ensures var after, n := ForEachState(GetWritersState(st, kind, prefix, w).0, kind, callbacks), |st.outputs|;
            && after.next == st.next + n && after.agent == st.agent
            && Count(after.log, e) == Count(st.log, e) +
               (if e.StreamAdded? && kind == ARCHIVE && st.next <= e.writer < st.next + n && w.hasStream(e.writer)
                   && e.name == StreamName(prefix, e.writer - st.next, st.outputs[e.writer - st.next].id) then 1 else 0) +
               (if e.Flushed? && kind == ARCHIVE then 1 else 0) + (if e.Completed? && st.agent then 1 else 0) +
               (if e.Closed? && st.next <= e.writer < st.next + Stop(callbacks, 0) then 1 else 0) +
               (if e.Called? && e.output < Stop(callbacks, 0) && e.with == Some(st.next + e.output) then 1 else 0)
  {
    hide Count, Walk, OwnWriters;
    var got := GetWritersState(st, kind, prefix, w).0;
    OwnWritersShape(st, kind, prefix, w, |st.outputs|, e);
    CountAppend(OwnWriters(st, kind, prefix, w, |st.outputs|).0.log, Flushed, e);
    WalkCloses(got, kind, callbacks, 0, st.next, e);
    CountAppend(Walk(got, kind, callbacks, 0).log, Completed, e);
  }

  /** Whatever the callbacks return and however often everything is closed again, each writer that was created
      is closed exactly once, and no other. */
  lemma {:induction false} EachWriterClosedOnce(st: State, kind: Kind, prefix: string, w: Writers, callbacks: seq<Callback>,
                                                times: nat, writer: nat)
    requires st.outputs != [] && |st.outputs| == |callbacks| && GetWritersState(st, kind, prefix, w).1 == S_OK
    requires IsShared(kind) || HasOwnWriters(kind)
    requires forall i :: 0 <= i < |callbacks| ==> callbacks[i].Returns?
    ensures var after := Life(st, kind, prefix, w, callbacks, times);
            Closes(st, after, writer) == if st.next <= writer < after.next then 1 else 0
  {
    LifeEvents(st, kind, prefix, w, callbacks, times, Closed(writer));
    StopsAtEndIff(callbacks, 0);
  }

  lemma {:induction false} StopsAtEndIff(callbacks: seq<Callback>, i: nat)
    requires i <= |callbacks|
    ensures Stop(callbacks, i) == |callbacks| <==> forall k :: i <= k < |callbacks| - 1 ==> callbacks[k].Returns?
    decreases |callbacks| - i
  {
    if i < |callbacks| && !callbacks[i].Throws? { StopsAtEndIff(callbacks, i + 1); }
  }

  /** With exceptions, every writer is still closed once exactly when the outputs share a writer, or no
      callback but the last throws. */
  lemma {:induction false} AllClosedOnceIff(st: State, kind: Kind, prefix: string, w: Writers, callbacks: seq<Callback>,
                                            times: nat)
    requires st.outputs != [] && |st.outputs| == |callbacks| && GetWritersState(st, kind, prefix, w).1 == S_OK
    requires IsShared(kind) || HasOwnWriters(kind)
    ensures var after := Life(st, kind, prefix, w, callbacks, times);
            (forall writer: nat :: st.next <= writer < after.next ==> Closes(st, after, writer) == 1) <==>
            (IsShared(kind) || forall k :: 0 <= k < |callbacks| - 1 ==> callbacks[k].Returns?)
  {
    var after := Life(st, kind, prefix, w, callbacks, times);
    forall writer: nat
      ensures Closes(st, after, writer) ==
        if st.next <= writer < st.next + (if IsShared(kind) then 1 else Stop(callbacks, 0)) then 1 else 0
      ensures after.next == st.next + if IsShared(kind) then 1 else |st.outputs|
    {
      LifeEvents(st, kind, prefix, w, callbacks, times, Closed(writer));
    }
    StopsAtEndIff(callbacks, 0);
    if !IsShared(kind) && Stop(callbacks, 0) < |callbacks| {
      assert Closes(st, after, st.next + Stop(callbacks, 0)) == 0;
    }
  }

  /** A directory of two outputs whose first callback throws: the second writer is never closed. */
  lemma ThrowLeavesWriterOpen(times: nat)
    ensures var st := State([Output("a", None), Output("b", None)], false, [], 0);
            var w := Writers(_ => true, _ => false);
            && GetWritersState(st, DIRECTORY, "", w).1 == S_OK
            && Closes(st, Life(st, DIRECTORY, "", w, [Throws, Returns(S_OK)], times), 0) == 1
            && Closes(st, Life(st, DIRECTORY, "", w, [Throws, Returns(S_OK)], times), 1) == 0
  {
    hide Life, OwnWriters;
    var st := State([Output("a", None), Output("b", None)], false, [], 0);
    var w := Writers(_ => true, _ => false);
    FailedCreationStaysOpen(st, DIRECTORY, "", w, 0, 0);
    LifeEvents(st, DIRECTORY, "", w, [Throws, Returns(S_OK)], times, Closed(0));
    LifeEvents(st, DIRECTORY, "", w, [Throws, Returns(S_OK)], times, Closed(1));
  }

  // ------------------------------------------------- what the outputs are given

  /** Getting writers for any kind of table gives every output the same new one, and changes nothing else. */
  lemma SharedWriters(st: State, kind: Kind, prefix: string, w: Writers)
    requires || kind == TABLE_FILE || kind == CSV || kind == CSV + TABLE_FILE || kind == TSV || kind == TSV + TABLE_FILE
             || kind == PARQUET || kind == PARQUET + TABLE_FILE || kind == ORC || kind == ORC + TABLE_FILE || kind == SQL
    ensures var (after, hr) := GetWritersState(st, kind, prefix, w);
            && (hr == S_OK <==> w.created(st.next)) && after.log == st.log && after.agent == st.agent
            && |after.outputs| == |st.outputs| && (hr != S_OK ==> after == st)
            && (hr == S_OK ==>
                  && after.next == st.next + 1
                  && forall j :: 0 <= j < |st.outputs| ==>
                       after.outputs[j].writer == Some(st.next) && after.outputs[j].id == st.outputs[j].id)
  {
  }

  /** For a directory or an archive every output gets a new writer of its own. */
  lemma {:induction false} OwnWritersGiven(st: State, kind: Kind, prefix: string, w: Writers)
    requires kind == DIRECTORY || kind == ARCHIVE
    ensures var (after, hr) := GetWritersState(st, kind, prefix, w);
            && |after.outputs| == |st.outputs| && after.agent == st.agent
            && (hr == S_OK <==> forall writer :: st.next <= writer < st.next + |st.outputs| ==> w.created(writer))
            && (hr == S_OK ==>
                  && after.next == st.next + |st.outputs|
                  && forall j :: 0 <= j < |st.outputs| ==>
                       after.outputs[j].writer == Some(st.next + j) && after.outputs[j].id == st.outputs[j].id)
  {
    hide OwnWriters;
    NoWriters(st, kind, prefix, w);
    OwnWritersCreated(st, kind, prefix, w, 0);
    CreatedAllIff(st, w, 0);
    if OwnWriters(st, kind, prefix, w, |st.outputs|).1 {
      OwnWritersShape(st, kind, prefix, w, |st.outputs|, Opened);
    } else {
      OwnWritersShape(st, kind, prefix, w, Created(st, w, 0), Opened);
    }
  }

  lemma {:induction false} CreatedAllIff(st: State, w: Writers, n: nat)
    requires n <= |st.outputs|
    ensures Created(st, w, n) == |st.outputs| <==>
      forall writer :: st.next + n <= writer < st.next + |st.outputs| ==> w.created(writer)
    decreases |st.outputs| - n
  {
    if n < |st.outputs| && w.created(st.next + n) { CreatedAllIff(st, w, n + 1); }
  }

  /** No output, or one to any other kind, gets no writer. */
  lemma OtherKinds(st: State, kind: Kind, prefix: string, w: Writers)
    requires !IsShared(kind) && !HasOwnWriters(kind)
    ensures GetWritersState(st, kind, prefix, w) == (st, S_OK)
  {
  }

  /** When its callback runs, every output that is reached has its writer, and it is called back for once. */
  lemma {:induction false} CallbacksHaveWriters(st: State, kind: Kind, prefix: string, w: Writers, callbacks: seq<Callback>,
                                               times: nat, output: nat, with: Option<nat>)
    requires st.outputs != [] && |st.outputs| == |callbacks| && GetWritersState(st, kind, prefix, w).1 == S_OK
    requires IsShared(kind) || HasOwnWriters(kind)
    ensures var after := Life(st, kind, prefix, w, callbacks, times);
            var reached := output < |callbacks| && forall k :: 0 <= k < output ==> callbacks[k].Returns?;
            Count(after.log, Called(output, with)) - Count(st.log, Called(output, with)) ==
              if reached && with == Some(if HasOwnWriters(kind) then st.next + output else st.next) then 1 else 0
  {
    LifeEvents(st, kind, prefix, w, callbacks, times, Called(output, with));
    StopIff(callbacks, 0, output);
  }

  lemma {:induction false} StopIff(callbacks: seq<Callback>, i: nat, output: nat)
    requires i <= |callbacks| && i <= output
    ensures output < Stop(callbacks, i) <==>
      output < |callbacks| && forall k :: i <= k < output ==> callbacks[k].Returns?
    decreases |callbacks| - i
  {
    if i < |callbacks| && !callbacks[i].Throws? && i < output { StopIff(callbacks, i + 1, output); }
  }

  /** The items become outputs without writers, in order. */
  lemma NewOutputsAre(items: seq<string>)
    ensures |NewOutputs(items)| == |items|
    ensures forall i :: 0 <= i < |items| ==> NewOutputs(items)[i].id == items[i] && NewOutputs(items)[i].writer == None
  {
  }

  /** A stream is named after the prefix, the index in at least eight digits, and the output. */
  lemma StreamNameIs(prefix: string, idx: nat, id: string) returns (digits: string)
    ensures Decimal.AllDigits(digits) && |digits| >= 8 && Decimal.Value(digits) == idx
    ensures StreamName(prefix, idx, id) == prefix + "_" + digits + "_" + id + "_.csv"
  {
    digits := Decimal.PrintPadded(idx, 8);
    Decimal.PaddedValue(idx, 8);
    StreamNameConcat(prefix, digits, id);
  }

  lemma StreamNameConcat(prefix: string, digits: string, id: string)
    ensures prefix + "_" + (digits + "_" + (id + "_.csv")) == prefix + "_" + digits + "_" + id + "_.csv"
  {
    assert digits + "_" + (id + "_.csv") == digits + "_" + id + "_.csv";
  }

  // --------------------------------------------------- when creation fails midway

  /** The first output from `n` on whose writer cannot be created, or the number of outputs. */
  function Created(st: State, w: Writers, n: nat): (created: nat)
    requires n <= |st.outputs|
    ensures n <= created <= |st.outputs|
    decreases |st.outputs| - n
  {
    if n == |st.outputs| || !w.created(st.next + n) then n else Created(st, w, n + 1)
  }

  lemma OwnWritersNext(st: State, kind: Kind, prefix: string, w: Writers, n: nat)
    requires n < |st.outputs| && OwnWriters(st, kind, prefix, w, n).1
    ensures var before, next := OwnWriters(st, kind, prefix, w, n).0, OwnWriters(st, kind, prefix, w, n + 1);
            (next.1 <==> w.created(before.next)) && (next.1 ==> next.0.next == before.next + 1)
  {
  }

  /** The writers of the first outputs are created, up to the first one that cannot be. */
  lemma {:induction false} OwnWritersCreated(st: State, kind: Kind, prefix: string, w: Writers, n: nat)
    requires n <= |st.outputs| && OwnWriters(st, kind, prefix, w, n).1
    requires OwnWriters(st, kind, prefix, w, n).0.next == st.next + n
    ensures var all, made := OwnWriters(st, kind, prefix, w, |st.outputs|), Created(st, w, n);
            && OwnWriters(st, kind, prefix, w, made) == (all.0, true)
            && (all.1 <==> made == |st.outputs|)
    decreases |st.outputs| - n
  {
    hide OwnWriters;
    if n < |st.outputs| {
      OwnWritersNext(st, kind, prefix, w, n);
      if w.created(st.next + n) {
        OwnWritersCreated(st, kind, prefix, w, n + 1);
      } else {
        OwnWritersStop(st, kind, prefix, w, n, |st.outputs|);
      }
    }
  }

  /** Outputs get their writers exactly when all of these can be created. If one cannot, the outputs before it keep
      theirs, and no call of `CloseAll` closes any of them. */
  lemma {:induction false} FailedCreationStaysOpen(st: State, kind: Kind, prefix: string, w: Writers, times: nat, writer: nat)
    requires HasOwnWriters(kind)
    ensures var (got, hr) := GetWritersState(st, kind, prefix, w);
            var made := Created(st, w, 0);
            && (hr == S_OK <==> made == |st.outputs|) && got.next == st.next + made
            && (forall j :: 0 <= j < made ==> got.outputs[j].writer == Some(st.next + j))
            && CloseAgain(got, kind, times).outputs == got.outputs
            && Closes(st, CloseAgain(got, kind, times), writer) == 0
  {
    hide OwnWriters;
    var made := Created(st, w, 0);
    var got := GetWritersState(st, kind, prefix, w).0;
    NoWriters(st, kind, prefix, w);
    OwnWritersCreated(st, kind, prefix, w, 0);
    OwnWritersShape(st, kind, prefix, w, made, Closed(writer));
    CountAppend(OwnWriters(st, kind, prefix, w, made).0.log, Flushed, Closed(writer));
    CloseAgainClosesNothing(got, kind, times, Closed(writer));
  }

  lemma NoWriters(st: State, kind: Kind, prefix: string, w: Writers)
    ensures OwnWriters(st, kind, prefix, w, 0) == (st, true)
  {
  }

  // ------------------------------------------------------------ archive order

  /** Opening comes first, then the streams, the flush, the callbacks and closes, and only then completion. */
  function Phase(e: Event): nat {
    match e
    case Opened => 0
    case StreamAdded(_, _) => 1
    case Flushed => 2
    case Called(_, _) => 3
    case Closed(_) => 3
    case Completed => 4
  }

  /** The phases never go back, and the last one is at most `top`. */
  ghost predicate InPhases(log: seq<Event>, top: nat) {
    && (forall i :: 0 <= i < |log| ==> Phase(log[i]) <= top)
    && forall i, j :: 0 <= i < j < |log| ==> Phase(log[i]) <= Phase(log[j])
  }

  lemma InPhasesAppend(log: seq<Event>, top: nat, e: Event)
    requires InPhases(log, top) && top <= Phase(e)
    ensures InPhases(log + [e], Phase(e))
  {
  }

  lemma {:induction false} OwnWritersPhases(st: State, kind: Kind, prefix: string, w: Writers, n: nat)
    requires n <= |st.outputs| && InPhases(st.log, 1)
    ensures InPhases(OwnWriters(st, kind, prefix, w, n).0.log, 1)
  {
    hide InPhases;
    if n > 0 {
      OwnWritersPhases(st, kind, prefix, w, n - 1);
      var before := OwnWriters(st, kind, prefix, w, n - 1).0;
      InPhasesAppend(before.log, 1, StreamAdded(StreamName(prefix, n - 1, before.outputs[n - 1].id), before.next));
    }
  }

  lemma {:induction false} WalkPhases(st: State, kind: Kind, callbacks: seq<Callback>, i: nat)
    requires i <= |st.outputs| == |callbacks| && AllOpen(st, kind, i) && InPhases(st.log, 3)
    ensures InPhases(Walk(st, kind, callbacks, i).log, 3) && |Walk(st, kind, callbacks, i).outputs| == |st.outputs|
    decreases |st.outputs| - i
  {
    hide InPhases;
    if i < |st.outputs| {
      InPhasesAppend(st.log, 3, Called(i, st.outputs[i].writer));
      if HasOwnWriters(kind) { InPhasesAppend(CallState(st, i).log, 3, Closed(st.outputs[i].writer.value)); }
      if !callbacks[i].Throws? { WalkPhases(CloseOneState(CallState(st, i), kind, i), kind, callbacks, i + 1); }
    }
  }

  lemma {:induction false} CloseAgainPhases(st: State, times: nat)
    requires InPhases(st.log, 4)
    ensures InPhases(CloseAgain(st, ARCHIVE, times).log, 4)
  {
    hide InPhases;
    if times > 0 {
      CloseAgainPhases(st, times - 1);
      InPhasesAppend(CloseAgain(st, ARCHIVE, times - 1).log, 4, Completed);
    }
  }

  /** From a prepared agent on, in archive mode: opening precedes every stream, every stream is sent before the
      flush, and every close before the first completion; the archive is opened once. */
  lemma {:induction false} ArchiveInPhases(outputs: seq<Output>, prefix: string, w: Writers, callbacks: seq<Callback>,
                                           times: nat)
    requires outputs != [] && |outputs| == |callbacks|
    requires GetWritersState(Prepared(outputs), ARCHIVE, prefix, w).1 == S_OK
    ensures var after := Life(Prepared(outputs), ARCHIVE, prefix, w, callbacks, times);
            && InPhases(after.log, 4) && Count(after.log, Opened) == 1 && Count(after.log, Completed) == times + 1
            && (forall writer: nat, name :: Count(after.log, StreamAdded(name, writer)) ==
                  if writer < |outputs| && w.hasStream(writer) && name == StreamName(prefix, writer, outputs[writer].id)
                  then 1 else 0)
  {
    hide InPhases, Life, GetWritersState, Prepared;
    var st := Prepared(outputs);
    assert st.outputs == outputs && st.agent && st.next == 0 && st.log == [Opened] by { PreparedIs(outputs); }
    LifePhases(outputs, prefix, w, callbacks, times);
    LifeEvents(st, ARCHIVE, prefix, w, callbacks, times, Opened);
    LifeEvents(st, ARCHIVE, prefix, w, callbacks, times, Completed);
    OpenedOnce();
    forall writer: nat, name
      ensures Count(Life(st, ARCHIVE, prefix, w, callbacks, times).log, StreamAdded(name, writer)) ==
        if writer < |outputs| && w.hasStream(writer) && name == StreamName(prefix, writer, outputs[writer].id) then 1 else 0
    {
      LifeEvents(st, ARCHIVE, prefix, w, callbacks, times, StreamAdded(name, writer));
    }
  }

  /** Outputs without writers, just after an archive agent was prepared for them. */
  function Prepared(outputs: seq<Output>): State {
    PrepareState(State(outputs, false, [], 0), ARCHIVE, true).0
  }

  lemma PreparedIs(outputs: seq<Output>)
    ensures Prepared(outputs) == State(outputs, true, [Opened], 0)
  {
  }

  lemma OpenedOnce()
    ensures forall e :: Count([Opened], e) == if e.Opened? then 1 else 0
  {
  }

  lemma LifePhases(outputs: seq<Output>, prefix: string, w: Writers, callbacks: seq<Callback>, times: nat)
    requires |outputs| == |callbacks| && GetWritersState(Prepared(outputs), ARCHIVE, prefix, w).1 == S_OK
    ensures InPhases(Life(Prepared(outputs), ARCHIVE, prefix, w, callbacks, times).log, 4)
  {
    var st := Prepared(outputs);
    PreparedIs(outputs);
    GetWritersOpens(st, ARCHIVE, prefix, w);
    OwnWritersPhases(st, ARCHIVE, prefix, w, |outputs|);
    var got := GetWritersState(st, ARCHIVE, prefix, w).0;
    WalkPhases(got, ARCHIVE, callbacks, 0);
    CloseAgainPhases(ForEachState(got, ARCHIVE, callbacks), times);
  }

  /** The streams of an archive have distinct names, whatever the outputs are called. */
  lemma {:induction false} StreamNamesDistinct(prefix: string, i: nat, id: string, j: nat, id': string)
    requires StreamName(prefix, i, id) == StreamName(prefix, j, id')
    ensures i == j && id == id'
  {
    var a, b := Decimal.PrintPadded(i, 8), Decimal.PrintPadded(j, 8);
    var s, t := a + "_" + (id + "_.csv"), b + "_" + (id' + "_.csv");
    assert s == StreamName(prefix, i, id)[|prefix| + 1..] && t == StreamName(prefix, j, id')[|prefix| + 1..];
    assert forall k :: 0 <= k < |a| ==> Decimal.IsDigit(s[k]);
    assert forall k :: 0 <= k < |b| ==> Decimal.IsDigit(t[k]);
    assert s[|a|] == '_' && t[|b|] == '_';
    assert |a| == |b|;
    assert a == s[..|a|] && b == t[..|b|];
    Decimal.PrintPaddedInjective(i, j, 8);
    assert id + "_.csv" == s[|a| + 1..] && id' + "_.csv" == t[|b| + 1..];
    assert id == (id + "_.csv")[..|id|] && id' == (id' + "_.csv")[..|id'|];
  }

  // -------------------------------------------------------------- the outputs

  class MultipleOutput {
    var outputs: seq<Output>
    var archiveAgent: bool
    var log: seq<Event>
    var nextWriter: nat

    ghost function Value(): State
      reads this
    {
      State(outputs, archiveAgent, log, nextWriter)
    }

    constructor ()
      ensures Value() == State([], false, [], 0)
    {
      outputs, archiveAgent, log, nextWriter := [], false, [], 0;
    }

    /** `starts` tells whether the archive agent starts. */
    method Prepare(kind: Kind, starts: bool) returns (hr: HResult)
      modifies this
      ensures (Value(), hr) == PrepareState(old(Value()), kind, starts)
      ensures kind != ARCHIVE ==> hr == S_OK && Value() == old(Value())
      ensures kind == ARCHIVE ==>
        && (hr == S_OK <==> starts) && archiveAgent && outputs == old(outputs) && nextWriter == old(nextWriter)
        && log == if starts then old(log) + [Opened] else old(log)
    {
      if kind != ARCHIVE {
        return S_OK;
      }
      archiveAgent := true;
      if !starts {
        return Failed(0);
      }
      log := log + [Opened];
      return S_OK;
    }

    /** One output for each item, without a writer, then their writers. */
    method GetWritersFor(kind: Kind, prefix: string, items: seq<string>, w: Writers) returns (hr: HResult)
      modifies this
      ensures (Value(), hr) == GetWritersState(old(Value().(outputs := outputs + NewOutputs(items))), kind, prefix, w)
    {
      for i := 0 to |items|
        invariant Value() == old(Value()).(outputs := old(outputs) + NewOutputs(items[..i]))
      {
        outputs := outputs + [Output(items[i], None)];
      }
      assert items[..|items|] == items;
      hr := GetWriters(kind, prefix, w);
    }

    method GetWriters(kind: Kind, prefix: string, w: Writers) returns (hr: HResult)
      modifies this
      ensures (Value(), hr) == GetWritersState(old(Value()), kind, prefix, w)
    {
      if IsShared(kind) {
        if !w.created(nextWriter) {
          return Failed(0);
        }
        var writer := nextWriter;
        nextWriter := nextWriter + 1;
        GiveShared(writer);
      } else if HasOwnWriters(kind) {
        var all := GiveOwn(kind, prefix, w);
        if !all {
          return Failed(0);
        }
        if kind == ARCHIVE {
          log := log + [Flushed];
        }
      }
      return S_OK;
    }

    /** Every output gets the same writer. */
    method GiveShared(writer: nat)
      modifies this`outputs
      ensures outputs == ShareWriter(old(outputs), writer)
    {
      for i := 0 to |outputs|
        invariant |outputs| == |old(outputs)|
        invariant forall j :: 0 <= j < |outputs| ==>
          outputs[j] == if j < i then old(outputs)[j].(writer := Some(writer)) else old(outputs)[j]
      {
        outputs := outputs[i := outputs[i].(writer := Some(writer))];
      }
    }

    /** Every output gets a new writer, until one cannot be created. */
    method GiveOwn(kind: Kind, prefix: string, w: Writers) returns (all: bool)
      modifies this
      ensures (Value(), all) == OwnWriters(old(Value()), kind, prefix, w, |old(outputs)|)
    {
      for i := 0 to |outputs|
        invariant |outputs| == |old(outputs)|
        invariant (Value(), true) == OwnWriters(old(Value()), kind, prefix, w, i)
      {
        if !w.created(nextWriter) {
          OwnWritersStop(old(Value()), kind, prefix, w, i, |outputs|);
          return false;
        }
        if kind == ARCHIVE && w.hasStream(nextWriter) {
          log := log + [StreamAdded(StreamName(prefix, i, outputs[i].id), nextWriter)];
        }
        outputs := outputs[i := outputs[i].(writer := Some(nextWriter))];
        nextWriter := nextWriter + 1;
      }
      return true;
    }

    /** Calls back for each output and closes it, whatever the callback does; closes everything in the end. */
    method ForEachOutput(kind: Kind, callbacks: seq<Callback>) returns (threw: bool)
      requires |callbacks| == |outputs| && AllOpen(Value(), kind, 0)
      modifies this
      ensures Value() == ForEachState(old(Value()), kind, callbacks)
      ensures threw <==> exists k :: 0 <= k < |callbacks| && callbacks[k].Throws?
    {
      var i := 0;
      threw := false;
      while i < |outputs| && !threw
        invariant i <= |outputs| == |callbacks| && (!threw ==> AllOpen(Value(), kind, i))
        invariant threw ==> i > 0 && callbacks[i - 1].Throws?
        invariant forall k :: 0 <= k < (if threw then i - 1 else i) ==> callbacks[k].Returns?
        invariant Walk(old(Value()), kind, callbacks, 0) ==
          if threw then Value() else Walk(Value(), kind, callbacks, i)
        decreases |outputs| - i
      {
        log := log + [Called(i, outputs[i].writer)];
        threw := callbacks[i].Throws?;
        CloseOne(kind, i);
        i := i + 1;
      }
      CloseAll(kind);
    }

    method CloseOne(kind: Kind, i: nat)
      requires i < |outputs| && (HasOwnWriters(kind) ==> outputs[i].writer.Some?)
      modifies this
      ensures Value() == CloseOneState(old(Value()), kind, i)
    {
      if HasOwnWriters(kind) {
        log := log + [Closed(outputs[i].writer.value)];
        outputs := outputs[i := outputs[i].(writer := None)];
      }
    }

    method CloseAll(kind: Kind)
      modifies this
      ensures Value() == CloseAllState(old(Value()), kind)
    {
      if IsShared(kind) && outputs != [] && outputs[0].writer.Some? {
        log := log + [Closed(outputs[0].writer.value)];
        outputs := outputs[0 := outputs[0].(writer := None)];
      }
      if archiveAgent {
        log := log + [Completed];
      }
    }
  }

  function NewOutputs(items: seq<string>): seq<Output> {
    seq(|items|, i requires 0 <= i < |items| => Output(items[i], None))
  }

  /** Once a writer cannot be created, no later output gets one. */
  lemma {:induction false} OwnWritersStop(st: State, kind: Kind, prefix: string, w: Writers, i: nat, n: nat)
    requires i < n <= |st.outputs| && OwnWriters(st, kind, prefix, w, i).1
    requires !w.created(OwnWriters(st, kind, prefix, w, i).0.next)
    ensures OwnWriters(st, kind, prefix, w, n) == (OwnWriters(st, kind, prefix, w, i).0, false)
  {
    if n > i + 1 { OwnWritersStop(st, kind, prefix, w, i, n - 1); }
  }
}
