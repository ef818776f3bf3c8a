/** The slack-space planner of GetSectors: collect the used locations of a disk,
    sort them by start, and sweep them once to find what no location uses. */
module SlackSpace {
  import opened Windows

  datatype Location = Location(start: nat, end: nat)

  datatype Chunk = Chunk(offset: nat, size: nat)

  datatype Partition = Partition(start: nat, size: nat, extended: bool)

  // ---------------------------------------------------------------- the sweep

  /** The DWORD size of the chunk dumped for a gap of `gap` bytes, under the configured cap. */
  function SlackSize(gap: nat, cap: nat): nat {
    var size := Low32(gap);
    if size > cap then cap else size
  }

  function FarthestEnd(locs: seq<Location>): nat {
    if locs == [] then 0
    else
      var before := FarthestEnd(locs[..|locs| - 1]);
      if locs[|locs| - 1].end > before then locs[|locs| - 1].end else before
  }

  function Sweep(locs: seq<Location>, cap: nat): seq<Chunk> {
    if locs == [] then []
    else
      var before := locs[..|locs| - 1];
      var farthest, start := FarthestEnd(before), locs[|locs| - 1].start;
      Sweep(before, cap) +
      if farthest < start then [Chunk(farthest, SlackSize(start - farthest, cap))] else []
  }

  function ChunkLocation(c: Chunk): Location {
    Location(c.offset, Low64(c.offset + c.size))
  }

  function ChunkLocations(chunks: seq<Chunk>): seq<Location> {
    seq(|chunks|, i requires 0 <= i < |chunks| => ChunkLocation(chunks[i]))
  }

  function PartitionLocations(table: seq<Partition>): seq<Location> {
    if table == [] then []
    else
      var last := table[|table| - 1];
      PartitionLocations(table[..|table| - 1]) +
      if last.extended then [] else [Location(last.start, Low64(last.start + last.size))]
  }

  /** Every location the sweep looks at, with the dummy one at the end of the disk. */
  function UsedLocations(chunks: seq<Chunk>, table: seq<Partition>, diskSize: nat): seq<Location> {
    ChunkLocations(chunks) + PartitionLocations(table) + [Location(diskSize, diskSize)]
  }

  /** The chunks one run of the command adds to those already dumped. */
  function Dumped(chunks: seq<Chunk>, table: seq<Partition>, diskSize: nat, cap: nat): seq<Chunk> {
    Sweep(SortByStart(UsedLocations(chunks, table, diskSize)), cap)
  }

  predicate SortedByStart(locs: seq<Location>) {
    forall i, j :: 0 <= i < j < |locs| ==> locs[i].start <= locs[j].start
  }

  predicate NotInverted(locs: seq<Location>) {
    forall k :: 0 <= k < |locs| ==> locs[k].start <= locs[k].end
  }

  function InsertByStart(loc: Location, locs: seq<Location>): seq<Location> {
    if locs == [] || loc.start <= locs[0].start then [loc] + locs
    else [locs[0]] + InsertByStart(loc, locs[1..])
  }

  lemma {:induction false} InsertAdds(loc: Location, locs: seq<Location>)
    ensures multiset(InsertByStart(loc, locs)) == multiset(locs) + multiset{loc}
  {
    if locs != [] && loc.start > locs[0].start {
      InsertAdds(loc, locs[1..]);
      assert locs == [locs[0]] + locs[1..];
    }
  }

  lemma {:induction false} InsertKeepsSorted(loc: Location, locs: seq<Location>)
    requires SortedByStart(locs)
    ensures SortedByStart(InsertByStart(loc, locs))
  {
    if locs != [] && loc.start > locs[0].start {
      InsertKeepsSorted(loc, locs[1..]);
      InsertAdds(loc, locs[1..]);
      var tail := InsertByStart(loc, locs[1..]);
      forall k | 0 <= k < |tail| ensures locs[0].start <= tail[k].start {
        assert tail[k] in multiset(tail);
        assert tail[k] == loc || tail[k] in locs[1..];
      }
    }
  }

  /** Any sort by start would do: `PlanIgnoresOrder` shows that the plan is the same for all of them. */
  function SortByStart(locs: seq<Location>): (r: seq<Location>)
    ensures SortedByStart(r) && multiset(r) == multiset(locs)
  {
    if locs == [] then []
    else
      assert locs == [locs[0]] + locs[1..];
      InsertKeepsSorted(locs[0], SortByStart(locs[1..]));
      InsertAdds(locs[0], SortByStart(locs[1..]));
      InsertByStart(locs[0], SortByStart(locs[1..]))
  }

  // ------------------------------------------------- what the plan should be

  /** No location ends before it starts, and none starts beyond the disk. */
  ghost predicate WellFormed(used: set<Location>, diskSize: nat) {
    && Location(diskSize, diskSize) in used
    && forall u :: u in used ==> u.start <= u.end && u.start <= diskSize
  }

  ghost predicate Free(used: set<Location>, b: nat) {
    forall u :: u in used ==> !(u.start <= b < u.end)
  }

  /** `[lo, hi)` lies between the end of a location (or the start of the disk) and the start
      of one, and no location, not even an empty one, begins or ends inside it. */
  ghost predicate Gap(used: set<Location>, lo: nat, hi: nat) {
    && lo < hi
    && (lo == 0 || exists u :: u in used && u.end == lo)
    && (exists u :: u in used && u.start == hi)
    && forall u :: u in used ==> u.end <= lo || hi <= u.start
  }

  /** `[lo, hi)` is a longest run of bytes of the disk that no location covers. */
  ghost predicate MaximalFree(used: set<Location>, diskSize: nat, lo: nat, hi: nat) {
    && lo < hi <= diskSize
    && (forall b :: lo <= b < hi ==> Free(used, b))
    && (lo == 0 || !Free(used, lo - 1))
    && (hi == diskSize || !Free(used, hi))
  }

  ghost predicate StrictlyIncreasing(chunks: seq<Chunk>) {
    forall i, j :: 0 <= i < j < |chunks| ==> chunks[i].offset < chunks[j].offset
  }

  ghost predicate IsGapChunk(used: set<Location>, cap: nat, c: Chunk) {
    exists hi: nat :: Gap(used, c.offset, hi) && c.size == SlackSize(hi - c.offset, cap)
  }

  /** The chunks are, in order of offset, the gaps with their sizes cut to the cap. */
  ghost predicate IsPlan(used: set<Location>, cap: nat, chunks: seq<Chunk>) {
    && StrictlyIncreasing(chunks)
    && forall c :: c in chunks <==> IsGapChunk(used, cap, c)
  }

  ghost predicate WholeGaps(used: set<Location>, cap: nat) {
    forall lo: nat, hi: nat :: Gap(used, lo, hi) ==> hi - lo < TWO_32 && hi - lo <= cap
  }

  ghost predicate CoveredBy(chunks: seq<Chunk>, b: nat) {
    exists c :: c in chunks && c.offset <= b < c.offset + c.size
  }

  ghost predicate CoversDisk(used: set<Location>, chunks: seq<Chunk>, diskSize: nat) {
    forall b: nat :: b < diskSize && Free(used, b) ==> CoveredBy(chunks, b)
  }

  function ToSet(locs: seq<Location>): set<Location> { set u | u in locs }

  // ------------------------------------------------------ the sweep's lemmas

  lemma SweepStep(locs: seq<Location>, i: nat, cap: nat)
    requires i < |locs|
    ensures var farthest := FarthestEnd(locs[..i]);
            && FarthestEnd(locs[..i + 1]) == (if locs[i].end > farthest then locs[i].end else farthest)
            && Sweep(locs[..i + 1], cap) == Sweep(locs[..i], cap) +
               if farthest < locs[i].start then [Chunk(farthest, SlackSize(locs[i].start - farthest, cap))] else []
  {
    assert locs[..i + 1][..i] == locs[..i];
  }

  lemma {:induction false} FarthestEndIsMaximum(locs: seq<Location>)
    ensures forall k :: 0 <= k < |locs| ==> locs[k].end <= FarthestEnd(locs)
    ensures FarthestEnd(locs) == 0 || exists k :: 0 <= k < |locs| && locs[k].end == FarthestEnd(locs)
  {
    if locs != [] {
      var before := locs[..|locs| - 1];
      FarthestEndIsMaximum(before);
      if FarthestEnd(before) == FarthestEnd(locs) != 0 {
        var k :| 0 <= k < |before| && before[k].end == FarthestEnd(before);
        assert locs[k].end == FarthestEnd(locs);
      }
    }
  }

  /** Where the sweep sees room before location `i`, there is a gap ending at that location. */
  lemma {:induction false} GapBefore(locs: seq<Location>, i: nat)
    requires SortedByStart(locs) && i < |locs|
    requires FarthestEnd(locs[..i]) < locs[i].start
    ensures Gap(ToSet(locs), FarthestEnd(locs[..i]), locs[i].start)
  {
    var lo, hi := FarthestEnd(locs[..i]), locs[i].start;
    FarthestEndIsMaximum(locs[..i]);
    assert locs[i] in ToSet(locs);
    if lo != 0 {
      var k :| 0 <= k < i && locs[..i][k].end == lo;
      assert locs[k] in ToSet(locs);
    }
    forall u | u in ToSet(locs) ensures u.end <= lo || hi <= u.start {
      var k :| 0 <= k < |locs| && locs[k] == u;
      assert k < i ==> locs[..i][k] == u;
    }
  }

  /** Every gap ends at the first location that starts where it ends. */
  lemma {:induction false} GapIsSwept(locs: seq<Location>, lo: nat, hi: nat) returns (i: nat)
    requires SortedByStart(locs) && NotInverted(locs)
    requires Gap(ToSet(locs), lo, hi)
    ensures i < |locs| && locs[i].start == hi && FarthestEnd(locs[..i]) == lo
  {
    i := FirstStartAtLeast(locs, hi);
    forall k | 0 <= k < i ensures locs[k].end <= lo {
      assert locs[k] in ToSet(locs);
    }
    FarthestEndIs(locs[..i], lo) by {
      if lo != 0 {
        var u :| u in ToSet(locs) && u.end == lo;
        var k :| 0 <= k < |locs| && locs[k] == u;
        assert locs[..i][k].end == lo;
      }
    }
  }

  lemma FarthestEndIs(locs: seq<Location>, lo: nat)
    requires forall k :: 0 <= k < |locs| ==> locs[k].end <= lo
    requires lo == 0 || exists k :: 0 <= k < |locs| && locs[k].end == lo
    ensures FarthestEnd(locs) == lo
  {
    FarthestEndIsMaximum(locs);
  }

  lemma {:induction false} FirstStartAtLeast(locs: seq<Location>, hi: nat) returns (i: nat)
    requires SortedByStart(locs)
    requires exists u :: u in ToSet(locs) && u.start >= hi
    ensures i < |locs| && locs[i].start >= hi
    ensures forall k :: 0 <= k < i ==> locs[k].start < hi
    ensures (exists u :: u in ToSet(locs) && u.start == hi) ==> locs[i].start == hi
  {
    i := 0;
    var last :| last in ToSet(locs) && last.start >= hi;
    while locs[i].start < hi
      invariant i < |locs|
      invariant forall k :: 0 <= k < i ==> locs[k].start < hi
      invariant exists k :: i <= k < |locs| && locs[k].start >= hi
      decreases |locs| - i
    {
      i := i + 1;
    }
    if u :| u in ToSet(locs) && u.start == hi {
      var k :| 0 <= k < |locs| && locs[k] == u;
      assert i <= k;
    }
  }

  /** What the sweep emits, location by location. */
  lemma {:induction false} SweepMembers(locs: seq<Location>, cap: nat)
    ensures forall c :: c in Sweep(locs, cap) ==>
      exists i :: 0 <= i < |locs| && Emits(locs, cap, i, c)
    ensures forall i, c :: 0 <= i < |locs| && Emits(locs, cap, i, c) ==> c in Sweep(locs, cap)
  {
    if locs != [] {
      var n := |locs| - 1;
      var before := locs[..n];
      SweepMembers(before, cap);
      assert forall i :: 0 <= i < n ==> before[..i] == locs[..i];
      assert forall i, c :: 0 <= i < n ==> (Emits(before, cap, i, c) <==> Emits(locs, cap, i, c));
      forall c | c in Sweep(locs, cap) ensures exists i :: 0 <= i < |locs| && Emits(locs, cap, i, c) {
        if c in Sweep(before, cap) {
          var i :| 0 <= i < n && Emits(before, cap, i, c);
          assert Emits(locs, cap, i, c);
        } else {
          assert Emits(locs, cap, n, c);
        }
      }
    }
  }

  ghost predicate Emits(locs: seq<Location>, cap: nat, i: nat, c: Chunk)
    requires i < |locs|
  {
    var farthest := FarthestEnd(locs[..i]);
    farthest < locs[i].start && c == Chunk(farthest, SlackSize(locs[i].start - farthest, cap))
  }

  lemma {:induction false} SweepIncreases(locs: seq<Location>, cap: nat)
    requires NotInverted(locs)
    ensures StrictlyIncreasing(Sweep(locs, cap))
    ensures forall k :: 0 <= k < |Sweep(locs, cap)| ==> Sweep(locs, cap)[k].offset < FarthestEnd(locs)
  {
    if locs != [] {
      var before, last := locs[..|locs| - 1], locs[|locs| - 1];
      SweepIncreases(before, cap);
      assert last.start <= last.end;
    }
  }

  /** Over any well-formed list sorted by start, the sweep computes the plan of the set of its locations. */
  lemma {:induction false} SweepIsPlan(locs: seq<Location>, cap: nat)
    requires SortedByStart(locs) && NotInverted(locs)
    ensures IsPlan(ToSet(locs), cap, Sweep(locs, cap))
  {
    var used, chunks := ToSet(locs), Sweep(locs, cap);
    SweepIncreases(locs, cap);
    SweepMembers(locs, cap);
    forall c | c in chunks ensures IsGapChunk(used, cap, c) {
      var i :| 0 <= i < |locs| && Emits(locs, cap, i, c);
      EmittedIsGapChunk(locs, cap, i, c);
    }
    forall c | IsGapChunk(used, cap, c) ensures c in chunks {
      var i := GapChunkIsEmitted(locs, cap, c);
    }
  }

  lemma EmittedIsGapChunk(locs: seq<Location>, cap: nat, i: nat, c: Chunk)
    requires SortedByStart(locs) && i < |locs| && Emits(locs, cap, i, c)
    ensures IsGapChunk(ToSet(locs), cap, c)
  {
    GapBefore(locs, i);
  }

  lemma GapChunkIsEmitted(locs: seq<Location>, cap: nat, c: Chunk) returns (i: nat)
    requires SortedByStart(locs) && NotInverted(locs)
    requires IsGapChunk(ToSet(locs), cap, c)
    ensures i < |locs| && Emits(locs, cap, i, c)
  {
    var hi: nat :| Gap(ToSet(locs), c.offset, hi) && c.size == SlackSize(hi - c.offset, cap);
    i := GapIsSwept(locs, c.offset, hi);
  }

  // --------------------------------------------------------- the main results

  lemma {:induction false} IncreasingUnique(a: seq<Chunk>, b: seq<Chunk>)
    requires StrictlyIncreasing(a) && StrictlyIncreasing(b)
    requires forall c :: c in a <==> c in b
    ensures a == b
  {
    if a == [] {
      assert forall k :: 0 <= k < |b| ==> b[k] in b;
    } else {
      assert a[0] in b && b[0] in a by { assert a[0] in a; assert |b| > 0; assert b[0] in b; }
      var x :| 0 <= x < |b| && b[x] == a[0];
      var y :| 0 <= y < |a| && a[y] == b[0];
      assert a[0] == b[0];
      forall c ensures c in a[1..] <==> c in b[1..] {
        if c in a[1..] { assert c in b && c.offset > a[0].offset; }
        if c in b[1..] { assert c in a && c.offset > b[0].offset; }
      }
      IncreasingUnique(a[1..], b[1..]);
    }
  }

  lemma GapEndUnique(used: set<Location>, lo: nat, hi: nat, hi': nat)
    requires forall u :: u in used ==> u.start <= u.end
    requires Gap(used, lo, hi) && Gap(used, lo, hi')
    ensures hi == hi'
  {
  }

  /** A set of used locations has at most one plan. */
  lemma {:induction false} PlanUnique(used: set<Location>, cap: nat, a: seq<Chunk>, b: seq<Chunk>)
    requires IsPlan(used, cap, a) && IsPlan(used, cap, b)
    ensures a == b
  {
    IncreasingUnique(a, b);
  }

  /** The plan depends only on the set of used locations: neither on their order among equal starts
      nor on how often one is repeated. */
  lemma {:induction false} PlanIgnoresOrder(a: seq<Location>, b: seq<Location>, cap: nat)
    requires SortedByStart(a) && SortedByStart(b) && ToSet(a) == ToSet(b)
    requires NotInverted(a)
    ensures Sweep(a, cap) == Sweep(b, cap)
  {
    forall k | 0 <= k < |b| ensures b[k].start <= b[k].end {
      assert b[k] in ToSet(b);
      var j :| 0 <= j < |a| && a[j] == b[k];
    }
    SweepIsPlan(a, cap);
    SweepIsPlan(b, cap);
    PlanUnique(ToSet(a), cap, Sweep(a, cap), Sweep(b, cap));
  }

  /** Distinct gaps do not overlap. */
  lemma GapsDisjoint(used: set<Location>, lo: nat, hi: nat, lo': nat, hi': nat)
    requires forall u :: u in used ==> u.start <= u.end
    requires Gap(used, lo, hi) && Gap(used, lo', hi') && lo < lo'
    ensures hi <= lo'
  {
    var v :| v in used && v.end == lo';
  }

  /** The chunks of a plan stay inside the disk, off every used location, and off one another. */
  lemma PlanIsSafe(used: set<Location>, diskSize: nat, cap: nat, chunks: seq<Chunk>)
    requires WellFormed(used, diskSize) && IsPlan(used, cap, chunks)
    ensures forall i, j :: 0 <= i < j < |chunks| ==> chunks[i].offset + chunks[i].size <= chunks[j].offset
    ensures forall c :: c in chunks ==> c.offset + c.size <= diskSize
    ensures forall c, b: nat :: c in chunks && c.offset <= b < c.offset + c.size ==> Free(used, b)
  {
    forall i, j | 0 <= i < j < |chunks| ensures chunks[i].offset + chunks[i].size <= chunks[j].offset {
      assert chunks[i] in chunks && chunks[j] in chunks;
      GapChunksDisjoint(used, diskSize, cap, chunks[i], chunks[j]);
    }
    forall c | c in chunks
      ensures c.offset + c.size <= diskSize
      ensures forall b: nat :: c.offset <= b < c.offset + c.size ==> Free(used, b)
    {
      GapChunkSafe(used, diskSize, cap, c);
    }
  }

  lemma GapChunksDisjoint(used: set<Location>, diskSize: nat, cap: nat, c: Chunk, d: Chunk)
    requires WellFormed(used, diskSize) && IsGapChunk(used, cap, c) && IsGapChunk(used, cap, d)
    requires c.offset < d.offset
    ensures c.offset + c.size <= d.offset
  {
    var hi: nat :| Gap(used, c.offset, hi) && c.size == SlackSize(hi - c.offset, cap);
    var hi': nat :| Gap(used, d.offset, hi') && d.size == SlackSize(hi' - d.offset, cap);
    GapsDisjoint(used, c.offset, hi, d.offset, hi');
  }

  lemma GapChunkSafe(used: set<Location>, diskSize: nat, cap: nat, c: Chunk)
    requires WellFormed(used, diskSize) && IsGapChunk(used, cap, c)
    ensures c.offset + c.size <= diskSize
    ensures forall b: nat :: c.offset <= b < c.offset + c.size ==> Free(used, b)
  {
    var hi: nat :| Gap(used, c.offset, hi) && c.size == SlackSize(hi - c.offset, cap);
  }

  /** Every free byte of the disk lies in a gap. */
  lemma {:induction false} FreeByteInGap(locs: seq<Location>, diskSize: nat, b: nat) returns (lo: nat, hi: nat)
    requires SortedByStart(locs) && WellFormed(ToSet(locs), diskSize)
    requires b < diskSize && Free(ToSet(locs), b)
    ensures Gap(ToSet(locs), lo, hi) && lo <= b < hi
  {
    assert Location(diskSize, diskSize) in locs;
    var i := FirstStartAtLeast(locs, b + 1);
    FarthestEndIsMaximum(locs[..i]);
    assert forall k :: 0 <= k < i ==> locs[k] in ToSet(locs) && locs[..i][k] == locs[k];
    GapBefore(locs, i);
    lo, hi := FarthestEnd(locs[..i]), locs[i].start;
  }

  /** Used locations and planned chunks cover the whole disk exactly when neither the cap nor the
      32-bit size cuts a gap. */
  lemma {:induction false} CoversDiskIff(locs: seq<Location>, diskSize: nat, cap: nat)
    requires SortedByStart(locs) && WellFormed(ToSet(locs), diskSize)
    ensures CoversDisk(ToSet(locs), Sweep(locs, cap), diskSize) <==> WholeGaps(ToSet(locs), cap)
  {
    if WholeGaps(ToSet(locs), cap) {
      WholeGapsCover(locs, diskSize, cap);
    } else {
      SweepIsPlan(locs, cap);
      var lo: nat, hi: nat :| Gap(ToSet(locs), lo, hi) && !(hi - lo < TWO_32 && hi - lo <= cap);
      CutGapUncovered(ToSet(locs), diskSize, cap, Sweep(locs, cap), lo, hi);
    }
  }

  /** An unused disk of 2^32 bytes: its only gap is dumped as a chunk of size 0. */
  lemma GapOfTwoTo32IsLost()
    ensures var locs := [Location(TWO_32, TWO_32)];
            && Gap(ToSet(locs), 0, TWO_32) && Sweep(locs, TWO_64 - 1) == [Chunk(0, 0)]
            && !CoversDisk(ToSet(locs), Sweep(locs, TWO_64 - 1), TWO_32)
  {
    var locs := [Location(TWO_32, TWO_32)];
    assert locs[0] in ToSet(locs) && locs[..0] == [];
    assert Low32(TWO_32) == 0 && Gap(ToSet(locs), 0, TWO_32);
    CoversDiskIff(locs, TWO_32, TWO_64 - 1);
  }

  lemma {:induction false} WholeGapsCover(locs: seq<Location>, diskSize: nat, cap: nat)
    requires SortedByStart(locs) && WellFormed(ToSet(locs), diskSize) && WholeGaps(ToSet(locs), cap)
    ensures CoversDisk(ToSet(locs), Sweep(locs, cap), diskSize)
  {
    forall b: nat | b < diskSize && Free(ToSet(locs), b) ensures CoveredBy(Sweep(locs, cap), b) {
      var lo, hi := FreeByteInGap(locs, diskSize, b);
      GapChunkPlanned(locs, cap, lo, hi);
      assert SlackSize(hi - lo, cap) == hi - lo;
    }
  }

  lemma {:induction false} GapChunkPlanned(locs: seq<Location>, cap: nat, lo: nat, hi: nat)
    requires SortedByStart(locs) && NotInverted(locs)
    requires Gap(ToSet(locs), lo, hi)
    ensures Chunk(lo, SlackSize(hi - lo, cap)) in Sweep(locs, cap)
  {
    SweepIsPlan(locs, cap);
    assert IsGapChunk(ToSet(locs), cap, Chunk(lo, SlackSize(hi - lo, cap)));
  }

  lemma CutGapUncovered(used: set<Location>, diskSize: nat, cap: nat, chunks: seq<Chunk>, lo: nat, hi: nat)
    requires WellFormed(used, diskSize) && IsPlan(used, cap, chunks)
    requires Gap(used, lo, hi) && !(hi - lo < TWO_32 && hi - lo <= cap)
    ensures !CoversDisk(used, chunks, diskSize)
  {
    var b: nat := lo + SlackSize(hi - lo, cap);
    assert lo <= b < hi && Free(used, b);
    forall c | c in chunks ensures !(c.offset <= b < c.offset + c.size) {
      var top: nat :| Gap(used, c.offset, top) && c.size == SlackSize(top - c.offset, cap);
      if c.offset < lo { GapsDisjoint(used, c.offset, top, lo, hi); }
      if lo < c.offset { GapsDisjoint(used, lo, hi, c.offset, top); }
      if c.offset == lo { GapEndUnique(used, lo, hi, top); }
    }
    assert !CoveredBy(chunks, b);
  }

  /** A free run of bytes is exactly one gap, for every run, if and only if no empty location sits
      between two free bytes of the disk. */
  ghost predicate NoSplitter(used: set<Location>, diskSize: nat) {
    forall u :: u in used && u.start == u.end && 0 < u.start < diskSize ==> !Free(used, u.start - 1) || !Free(used, u.start)
  }

  lemma {:induction false} MaximalFreeIsGapIff(locs: seq<Location>, diskSize: nat)
    requires SortedByStart(locs) && WellFormed(ToSet(locs), diskSize)
    ensures (forall lo: nat, hi: nat :: MaximalFree(ToSet(locs), diskSize, lo, hi) <==> Gap(ToSet(locs), lo, hi))
       <==> NoSplitter(ToSet(locs), diskSize)
  {
    var used := ToSet(locs);
    if NoSplitter(used, diskSize) {
      forall lo: nat, hi: nat ensures MaximalFree(used, diskSize, lo, hi) <==> Gap(used, lo, hi) {
        if MaximalFree(used, diskSize, lo, hi) { MaximalFreeIsGap(used, diskSize, lo, hi); }
        if Gap(used, lo, hi) { GapIsMaximalFree(used, diskSize, lo, hi); }
      }
    } else {
      var u :| u in used && u.start == u.end && 0 < u.start < diskSize && Free(used, u.start - 1) && Free(used, u.start);
      var lo, hi := FreeByteInGap(locs, diskSize, u.start - 1);
      assert hi == u.start && !MaximalFree(used, diskSize, lo, hi);
    }
  }

  lemma MaximalFreeIsGap(used: set<Location>, diskSize: nat, lo: nat, hi: nat)
    requires WellFormed(used, diskSize) && NoSplitter(used, diskSize) && MaximalFree(used, diskSize, lo, hi)
    ensures Gap(used, lo, hi)
  {
    assert Free(used, lo) && Free(used, hi - 1);
    if hi != diskSize {
      var u :| u in used && u.start <= hi < u.end;
      assert u.start == hi;
    }
    if lo != 0 {
      var u :| u in used && u.start <= lo - 1 < u.end;
      assert u.end == lo;
    }
    forall u | u in used ensures u.end <= lo || hi <= u.start {
      var b: nat := if u.start < lo then lo else u.start;
      assert lo <= b < hi ==> Free(used, b);
      if u.start == u.end && 0 < u.start < diskSize {
        assert !Free(used, u.start - 1) || !Free(used, u.start);
      }
    }
  }

  lemma GapIsMaximalFree(used: set<Location>, diskSize: nat, lo: nat, hi: nat)
    requires WellFormed(used, diskSize) && NoSplitter(used, diskSize) && Gap(used, lo, hi)
    ensures MaximalFree(used, diskSize, lo, hi)
  {
    assert forall b :: lo <= b < hi ==> Free(used, b);
    var v :| v in used && v.start == hi;
    if hi != diskSize && v.start == v.end { assert Free(used, hi - 1); }
    if lo != 0 {
      var u :| u in used && u.end == lo;
      if u.start == u.end { assert Free(used, lo); }
    }
  }

  /** A zero-size chunk at byte 5 of an otherwise unused disk: its single free run is dumped as two chunks. */
  lemma EmptyLocationSplitsFreeRun()
    ensures var locs := [Location(5, 5), Location(10, 10)];
            && WellFormed(ToSet(locs), 10) && MaximalFree(ToSet(locs), 10, 0, 10)
            && Sweep(locs, 100) == [Chunk(0, 5), Chunk(5, 5)]
  {
    var locs := [Location(5, 5), Location(10, 10)];
    assert locs[..1] == [Location(5, 5)] && locs[..0] == [];
    assert Location(10, 10) in locs;
    assert FarthestEnd(locs[..1]) == 5;
    assert Sweep(locs[..1], 100) == [Chunk(0, 5)];
  }

  /** Chunks and partitions start on the disk, and none reaches beyond 64 bits. */
  ghost predicate OnDisk(chunks: seq<Chunk>, table: seq<Partition>, diskSize: nat) {
    && diskSize < TWO_64
    && (forall k :: 0 <= k < |chunks| ==>
          chunks[k].offset <= diskSize && chunks[k].offset + chunks[k].size < TWO_64)
    && (forall k :: 0 <= k < |table| && !table[k].extended ==>
          table[k].start <= diskSize && table[k].start + table[k].size < TWO_64)
  }

  lemma {:induction false} PartitionsWellFormed(table: seq<Partition>, diskSize: nat)
    requires OnDisk([], table, diskSize)
    ensures forall k :: 0 <= k < |PartitionLocations(table)| ==>
      PartitionLocations(table)[k].start <= PartitionLocations(table)[k].end && PartitionLocations(table)[k].start <= diskSize
  {
    if table != [] {
      var n := |table| - 1;
      assert forall k :: 0 <= k < n ==> table[..n][k] == table[k];
      PartitionsWellFormed(table[..n], diskSize);
    }
  }

  lemma UsedWellFormed(chunks: seq<Chunk>, table: seq<Partition>, diskSize: nat)
    requires OnDisk(chunks, table, diskSize)
    ensures WellFormed(ToSet(UsedLocations(chunks, table, diskSize)), diskSize)
  {
    PartitionsWellFormed(table, diskSize);
    var used := UsedLocations(chunks, table, diskSize);
    assert used[|used| - 1] == Location(diskSize, diskSize);
    forall k | 0 <= k < |used| ensures used[k].start <= used[k].end && used[k].start <= diskSize {
      if k < |chunks| {
        assert used[k] == ChunkLocation(chunks[k]);
      } else if k < |used| - 1 {
        assert used[k] == PartitionLocations(table)[k - |chunks|];
      }
    }
  }

  /** The used locations, told from the chunks and the partitions: an extended partition uses nothing of its own. */
  ghost function Used(chunks: seq<Chunk>, table: seq<Partition>, diskSize: nat): set<Location> {
    (set k | 0 <= k < |chunks| :: Location(chunks[k].offset, chunks[k].offset + chunks[k].size))
    + (set k | 0 <= k < |table| && !table[k].extended :: Location(table[k].start, table[k].start + table[k].size))
    + {Location(diskSize, diskSize)}
  }

  ghost predicate IsPartition(table: seq<Partition>, k: nat, u: Location)
    requires k < |table|
  {
    !table[k].extended && u == Location(table[k].start, table[k].start + table[k].size)
  }

  lemma {:induction false} PartitionMembers(table: seq<Partition>, u: Location)
    requires forall k :: 0 <= k < |table| && !table[k].extended ==> table[k].start + table[k].size < TWO_64
    ensures u in PartitionLocations(table) <==> exists k :: 0 <= k < |table| && IsPartition(table, k, u)
  {
    if table != [] {
      var n := |table| - 1;
      assert forall k :: 0 <= k < n ==> table[..n][k] == table[k];
      PartitionMembers(table[..n], u);
      assert forall k :: 0 <= k < n ==> (IsPartition(table[..n], k, u) <==> IsPartition(table, k, u));
      assert u in PartitionLocations(table) <==> u in PartitionLocations(table[..n]) || IsPartition(table, n, u);
      if k :| 0 <= k < |table| && IsPartition(table, k, u) { assert k == n || IsPartition(table[..n], k, u); }
    }
  }

  lemma ChunkMembers(chunks: seq<Chunk>, u: Location)
    requires forall k :: 0 <= k < |chunks| ==> chunks[k].offset + chunks[k].size < TWO_64
    ensures u in ChunkLocations(chunks) <==>
      exists k :: 0 <= k < |chunks| && u == Location(chunks[k].offset, chunks[k].offset + chunks[k].size)
  {
    var locs := ChunkLocations(chunks);
    if k :| 0 <= k < |chunks| && u == Location(chunks[k].offset, chunks[k].offset + chunks[k].size) {
      assert locs[k] == u;
    }
  }

  /** The list that is swept holds exactly the used locations. */
  lemma UsedIs(chunks: seq<Chunk>, table: seq<Partition>, diskSize: nat)
    requires OnDisk(chunks, table, diskSize)
    ensures ToSet(UsedLocations(chunks, table, diskSize)) == Used(chunks, table, diskSize)
  {
    forall u ensures u in UsedLocations(chunks, table, diskSize) <==> u in Used(chunks, table, diskSize) {
      ChunkMembers(chunks, u);
      PartitionMembers(table, u);
      if k :| 0 <= k < |table| && !table[k].extended && u == Location(table[k].start, table[k].start + table[k].size) {
        assert IsPartition(table, k, u);
      }
    }
  }

  /** The byte lies in a chunk dumped before, or in a partition that is not an extended one. */
  ghost predicate Occupied(chunks: seq<Chunk>, table: seq<Partition>, b: nat) {
    || (exists k :: 0 <= k < |chunks| && chunks[k].offset <= b < chunks[k].offset + chunks[k].size)
    || exists k :: 0 <= k < |table| && !table[k].extended && table[k].start <= b < table[k].start + table[k].size
  }

  lemma FreeIff(chunks: seq<Chunk>, table: seq<Partition>, diskSize: nat, b: nat)
    ensures Free(Used(chunks, table, diskSize), b) <==> !Occupied(chunks, table, b)
  {
    var used := Used(chunks, table, diskSize);
    if k :| 0 <= k < |chunks| && chunks[k].offset <= b < chunks[k].offset + chunks[k].size {
      assert Location(chunks[k].offset, chunks[k].offset + chunks[k].size) in used;
    }
    if k :| 0 <= k < |table| && !table[k].extended && table[k].start <= b < table[k].start + table[k].size {
      assert Location(table[k].start, table[k].start + table[k].size) in used;
    }
  }

  /** The plan of what is used: only bytes of the disk that neither an earlier chunk nor a partition holds, and all of
      them exactly when no gap is cut. */
  ghost predicate IsSlack(chunks: seq<Chunk>, table: seq<Partition>, diskSize: nat, cap: nat, dumped: seq<Chunk>) {
    && IsPlan(Used(chunks, table, diskSize), cap, dumped)
    && (forall c, b: nat :: c in dumped && c.offset <= b < c.offset + c.size ==>
          b < diskSize && !Occupied(chunks, table, b))
    && ((forall b: nat :: b < diskSize && !Occupied(chunks, table, b) ==> CoveredBy(dumped, b)) <==>
          WholeGaps(Used(chunks, table, diskSize), cap))
  }

  /** That is what one run over a table and a disk dumps. */
  lemma {:induction false} DumpedIsSlack(chunks: seq<Chunk>, table: seq<Partition>, diskSize: nat, cap: nat)
    requires OnDisk(chunks, table, diskSize)
    ensures IsSlack(chunks, table, diskSize, cap, Dumped(chunks, table, diskSize, cap))
  {
    hide IsPlan, Occupied, WholeGaps, CoveredBy, Used, UsedLocations;
    var list, dumped := UsedLocations(chunks, table, diskSize), Dumped(chunks, table, diskSize, cap);
    var used := Used(chunks, table, diskSize);
    UsedWellFormed(chunks, table, diskSize);
    UsedIs(chunks, table, diskSize);
    WellFormedSorted(list, diskSize);
    SweepIsPlan(SortByStart(list), cap);
    PlanIsSafe(used, diskSize, cap, dumped);
    CoversDiskIff(SortByStart(list), diskSize, cap);
    forall b: nat ensures Free(used, b) <==> !Occupied(chunks, table, b) {
      FreeIff(chunks, table, diskSize, b);
    }
  }

  /** Exactly the first bytes of a gap are dumped: as many as the low 32 bits of its size tell, and the cap allows. */
  lemma {:induction false} GapPrefixDumped(used: set<Location>, diskSize: nat, cap: nat, chunks: seq<Chunk>, lo: nat, hi: nat,
                                          b: nat)
    requires WellFormed(used, diskSize) && IsPlan(used, cap, chunks)
    requires Gap(used, lo, hi) && lo <= b < hi
    ensures CoveredBy(chunks, b) <==> b - lo < cap && b - lo < (hi - lo) % 0x1_0000_0000
  {
    if b - lo < cap && b - lo < (hi - lo) % 0x1_0000_0000 {
      var c := Chunk(lo, SlackSize(hi - lo, cap));
      assert IsGapChunk(used, cap, c);
      assert c in chunks && c.offset <= b < c.offset + c.size;
    } else {
      forall c | c in chunks ensures !(c.offset <= b < c.offset + c.size) {
        var top: nat :| Gap(used, c.offset, top) && c.size == SlackSize(top - c.offset, cap);
        if c.offset < lo { GapsDisjoint(used, c.offset, top, lo, hi); }
        if c.offset == lo { GapEndUnique(used, lo, hi, top); }
      }
    }
  }

  /** A second run over the chunks of a first one dumps nothing exactly when the first run cut no gap. */
  lemma {:induction false} SecondRunEmptyIff(chunks: seq<Chunk>, table: seq<Partition>, diskSize: nat, cap: nat)
    requires OnDisk(chunks, table, diskSize)
    ensures var first := Dumped(chunks, table, diskSize, cap);
            var used := ToSet(UsedLocations(chunks, table, diskSize));
            Dumped(chunks + first, table, diskSize, cap) == [] <==> WholeGaps(used, cap)
  {
    var used := UsedLocations(chunks, table, diskSize);
    var first := Dumped(chunks, table, diskSize, cap);
    UsedWellFormed(chunks, table, diskSize);
    FirstRun(used, diskSize, cap);
    UsedGrows(chunks, first, table, diskSize);
    SweepAfterwards(used, first, UsedLocations(chunks + first, table, diskSize), diskSize, cap);
  }

  lemma FirstRun(used: seq<Location>, diskSize: nat, cap: nat)
    requires WellFormed(ToSet(used), diskSize)
    ensures forall c :: c in Sweep(SortByStart(used), cap) ==> c.offset + c.size <= diskSize
    ensures CoversDisk(ToSet(used), Sweep(SortByStart(used), cap), diskSize) <==> WholeGaps(ToSet(used), cap)
  {
    var locs := SortByStart(used);
    WellFormedSorted(used, diskSize);
    SweepIsPlan(locs, cap);
    PlanIsSafe(ToSet(used), diskSize, cap, Sweep(locs, cap));
    CoversDiskIff(locs, diskSize, cap);
  }

  lemma WellFormedSorted(used: seq<Location>, diskSize: nat)
    requires WellFormed(ToSet(used), diskSize)
    ensures ToSet(SortByStart(used)) == ToSet(used) && NotInverted(SortByStart(used))
  {
    var locs := SortByStart(used);
    assert forall u :: u in locs <==> u in multiset(locs);
    assert forall u :: u in used <==> u in multiset(used);
    forall k | 0 <= k < |locs| ensures locs[k].start <= locs[k].end {
      assert locs[k] in ToSet(locs);
    }
  }

  /** Sweeping again with the chunks among the used locations. */
  lemma {:induction false} SweepAfterwards(used: seq<Location>, first: seq<Chunk>, used': seq<Location>,
                                           diskSize: nat, cap: nat)
    requires WellFormed(ToSet(used), diskSize) && diskSize < TWO_64
    requires forall c :: c in first ==> c.offset + c.size <= diskSize
    requires forall u :: u in used' <==> u in used || exists c :: c in first && u == ChunkLocation(c)
    ensures Sweep(SortByStart(used'), cap) == [] <==> CoversDisk(ToSet(used), first, diskSize)
  {
    AddedWellFormed(used, first, used', diskSize);
    WellFormedSorted(used', diskSize);
    var locs' := SortByStart(used');
    if CoversDisk(ToSet(used), first, diskSize) {
      NoGapWhenCovered(ToSet(used), ToSet(used'), first, diskSize);
      NoGapNoChunk(locs', cap);
    } else {
      var b: nat :| b < diskSize && Free(ToSet(used), b) && !CoveredBy(first, b);
      assert Free(ToSet(used'), b);
      var lo, hi := FreeByteInGap(locs', diskSize, b);
      GapChunkPlanned(locs', cap, lo, hi);
    }
  }

  lemma AddedWellFormed(used: seq<Location>, first: seq<Chunk>, used': seq<Location>, diskSize: nat)
    requires WellFormed(ToSet(used), diskSize) && diskSize < TWO_64
    requires forall c :: c in first ==> c.offset + c.size <= diskSize
    requires forall u :: u in used' <==> u in used || exists c :: c in first && u == ChunkLocation(c)
    ensures WellFormed(ToSet(used'), diskSize) && ToSet(used) <= ToSet(used')
    ensures forall c :: c in first ==> ChunkLocation(c) in ToSet(used')
  {
    assert forall u :: u in used ==> u in ToSet(used);
  }

  lemma NoGapNoChunk(locs: seq<Location>, cap: nat)
    requires SortedByStart(locs) && NotInverted(locs)
    requires forall lo: nat, hi: nat :: !Gap(ToSet(locs), lo, hi)
    ensures Sweep(locs, cap) == []
  {
    SweepIsPlan(locs, cap);
    assert forall c :: !IsGapChunk(ToSet(locs), cap, c);
    assert |Sweep(locs, cap)| > 0 ==> Sweep(locs, cap)[0] in Sweep(locs, cap);
  }

  lemma UsedGrows(chunks: seq<Chunk>, more: seq<Chunk>, table: seq<Partition>, diskSize: nat)
    ensures forall u :: u in UsedLocations(chunks + more, table, diskSize) <==>
      u in UsedLocations(chunks, table, diskSize) || exists c :: c in more && u == ChunkLocation(c)
  {
    var a, b, ab := ChunkLocations(chunks), ChunkLocations(more), ChunkLocations(chunks + more);
    assert ab == a + b;
    forall u ensures u in b <==> exists c :: c in more && u == ChunkLocation(c) {
      if u in b {
        var k :| 0 <= k < |b| && b[k] == u;
        assert more[k] in more && u == ChunkLocation(more[k]);
      }
      if c :| c in more && u == ChunkLocation(c) {
        var k :| 0 <= k < |more| && more[k] == c;
        assert b[k] == u;
      }
    }
  }

  lemma NoGapWhenCovered(used: set<Location>, used': set<Location>, chunks: seq<Chunk>, diskSize: nat)
    requires WellFormed(used', diskSize) && used <= used' && CoversDisk(used, chunks, diskSize)
    requires forall c :: c in chunks ==> c.offset + c.size < TWO_64 && ChunkLocation(c) in used'
    ensures forall lo: nat, hi: nat :: !Gap(used', lo, hi)
  {
    forall lo: nat, hi: nat ensures !Gap(used', lo, hi) {
      assert Gap(used', lo, hi) ==> lo < diskSize && Free(used', lo);
      if lo < diskSize && Free(used, lo) {
        var c :| c in chunks && c.offset <= lo < c.offset + c.size;
        assert ChunkLocation(c) in used';
      }
    }
  }

  /** What one run of the command plans, whatever start-sorted order the sort leaves. */
  lemma {:induction false} DumpedChunksArePlan(used: seq<Location>, diskSize: nat, cap: nat)
    requires WellFormed(ToSet(used), diskSize)
    ensures IsPlan(ToSet(used), cap, Sweep(SortByStart(used), cap))
    ensures forall sorted :: SortedByStart(sorted) && multiset(sorted) == multiset(used) ==>
      Sweep(sorted, cap) == Sweep(SortByStart(used), cap)
  {
    WellFormedSorted(used, diskSize);
    SweepIsPlan(SortByStart(used), cap);
    forall sorted | SortedByStart(sorted) && multiset(sorted) == multiset(used)
      ensures Sweep(sorted, cap) == Sweep(SortByStart(used), cap)
    {
      assert forall u :: u in sorted <==> u in multiset(sorted);
      assert forall u :: u in used <==> u in multiset(used);
      PlanIgnoresOrder(SortByStart(used), sorted, cap);
    }
  }

  // ------------------------------------------------------------- the command

  class Main {
    const slackSpaceDumpSize: nat
    var dumpedChunks: seq<Chunk>

    constructor (slackSpaceDumpSize: nat)
      ensures dumpedChunks == [] && this.slackSpaceDumpSize == slackSpaceDumpSize
    {
      this.slackSpaceDumpSize := slackSpaceDumpSize;
      dumpedChunks := [];
    }

    /** The locations already dumped, then those of the partitions that are not extended ones. */
    method CollectUsed(table: seq<Partition>) returns (usedLocations: seq<Location>)
      ensures usedLocations == ChunkLocations(dumpedChunks) + PartitionLocations(table)
    {
      usedLocations := [];
      for i := 0 to |dumpedChunks|
        invariant usedLocations == ChunkLocations(dumpedChunks[..i])
      {
        var chunk := dumpedChunks[i];
        usedLocations := usedLocations + [Location(chunk.offset, Low64(chunk.offset + chunk.size))];
      }
      assert dumpedChunks[..|dumpedChunks|] == dumpedChunks;
      ghost var chunkLocations := usedLocations;
      for i := 0 to |table|
        invariant usedLocations == chunkLocations + PartitionLocations(table[..i])
      {
        var part := table[i];
        assert table[..i + 1][..i] == table[..i];
        var loc := Location(part.start, Low64(part.start + part.size));
        if !part.extended {
          usedLocations := usedLocations + [loc];
        }
      }
      assert table[..|table|] == table;
    }

    /** Appends the slack-space chunks. `table` is the outcome of loading the partition table,
        `disk` that of opening the disk and asking for its length. */
    method DumpSlackSpace(table: Outcome<seq<Partition>>, disk: Outcome<nat>) returns (hr: HResult)
      modifies this`dumpedChunks
      ensures table.Failure? ==> hr == Failed(table.error) && dumpedChunks == old(dumpedChunks)
      ensures table.Success? && table.value == [] ==> hr == S_OK && dumpedChunks == old(dumpedChunks)
      ensures table.Success? && table.value != [] && disk.Failure? ==>
        hr == Failed(disk.error) && dumpedChunks == old(dumpedChunks)
      ensures table.Success? && table.value != [] && disk.Success? ==>
        && hr == S_OK
        && dumpedChunks == old(dumpedChunks) + Dumped(old(dumpedChunks), table.value, disk.value, slackSpaceDumpSize)
      ensures table.Success? && table.value != [] && disk.Success? && OnDisk(old(dumpedChunks), table.value, disk.value) ==>
        var n := |old(dumpedChunks)|;
        && |dumpedChunks| >= n && dumpedChunks[..n] == old(dumpedChunks)
        && IsSlack(old(dumpedChunks), table.value, disk.value, slackSpaceDumpSize, dumpedChunks[n..])
    {
      hide IsSlack, OnDisk, Sweep, SortByStart;
      if table.Failure? {
        return Failed(table.error);
      }
      if table.value == [] {
        return S_OK;
      }
      var usedLocations := CollectUsed(table.value);
      if disk.Failure? {
        return Failed(disk.error);
      }
      SweepUsed(SortByStart(usedLocations + [Location(disk.value, disk.value)]));
      if OnDisk(old(dumpedChunks), table.value, disk.value) {
        DumpedIsSlack(old(dumpedChunks), table.value, disk.value, slackSpaceDumpSize);
        assert dumpedChunks[|old(dumpedChunks)|..] == Dumped(old(dumpedChunks), table.value, disk.value, slackSpaceDumpSize);
      }
      return S_OK;
    }

    method SweepUsed(usedLocations: seq<Location>)
      modifies this`dumpedChunks
      ensures dumpedChunks == old(dumpedChunks) + Sweep(usedLocations, slackSpaceDumpSize)
    {
      var farthestEnd: nat := 0;
      for i := 0 to |usedLocations|
        invariant farthestEnd == FarthestEnd(usedLocations[..i])
        invariant dumpedChunks == old(dumpedChunks) + Sweep(usedLocations[..i], slackSpaceDumpSize)
      {
        var curLoc := usedLocations[i];
        SweepStep(usedLocations, i, slackSpaceDumpSize);
        if farthestEnd < curLoc.start {
          var slackSpaceSize := Low32(curLoc.start - farthestEnd);
          if slackSpaceSize > slackSpaceDumpSize {
            slackSpaceSize := slackSpaceDumpSize;
          }
          dumpedChunks := dumpedChunks + [Chunk(farthestEnd, slackSpaceSize)];
        }
        if curLoc.end > farthestEnd {
          farthestEnd := curLoc.end;
        }
      }
      assert usedLocations[..|usedLocations|] == usedLocations;
    }
  }
}
