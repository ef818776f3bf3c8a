/** Matches found by the file finder, references to the samples they yield, and the order
    in which a set keeps those references. */
module SampleKeys {
  import opened Windows
  import opened SampleNaming

  type Bytes8 = s: seq<nat> | |s| == 8 witness [0, 0, 0, 0, 0, 0, 0, 0]

  datatype Guid = Guid(data1: nat, data2: nat, data3: nat, data4: Bytes8)

  const GUID_NULL := Guid(0, 0, 0, [0, 0, 0, 0, 0, 0, 0, 0])

  datatype FileReference = FileReference(sequence: nat, high: nat, low: nat)

  datatype NameMatch = NameMatch(fullPath: string, file: Option<FileName>)

  /** `streamsOpen` tells whether the streams of the sample can be set up. */
  datatype AttributeMatch = AttributeMatch(
    instance: nat, name: string, dataSize: nat, stringsSize: nat, rawSize: nat, streamsOpen: bool)

  datatype Match = Match(
    term: int, volume: int, snapshot: Option<Guid>, frn: FileReference,
    names: seq<NameMatch>, attributes: seq<AttributeMatch>)

  datatype SampleRef = SampleRef(
    name: string, content: ContentType, size: nat, offLimits: bool,
    volume: int, snapshot: Guid, frn: FileReference, instance: nat, attributeIndex: nat, matches: seq<Match>)

  datatype Key = Key(volume: int, snapshot: Guid, low: nat, instance: nat)

  function KeyOf(ref: SampleRef): Key {
    Key(ref.volume, ref.snapshot, ref.frn.low, ref.instance)
  }

  /** The sign of memcmp. */
  function Memcmp(a: seq<nat>, b: seq<nat>): int
    requires |a| == |b|
  {
    if a == [] then 0
    else if a[0] != b[0] then (if a[0] < b[0] then -1 else 1)
    else Memcmp(a[1..], b[1..])
  }

  /** The comparison a set of references uses. */
  predicate Less(a: SampleRef, b: SampleRef) {
    if a.matches == [] || b.matches == [] then false
    else if a.volume != b.volume then a.volume < b.volume
    else if a.snapshot.data1 != b.snapshot.data1 then a.snapshot.data1 < b.snapshot.data1
    else if a.snapshot.data2 != b.snapshot.data2 then a.snapshot.data2 < b.snapshot.data2
    else if a.snapshot.data3 != b.snapshot.data3 then a.snapshot.data3 < b.snapshot.data3
    else if Memcmp(a.snapshot.data4, b.snapshot.data4) != 0 then Memcmp(a.snapshot.data4, b.snapshot.data4) < 0
    else if a.frn.low != b.frn.low then a.frn.low < b.frn.low
    else a.instance < b.instance
  }

  predicate Equivalent(a: SampleRef, b: SampleRef) { !Less(a, b) && !Less(b, a) }

  lemma {:induction false} MemcmpOrder(a: seq<nat>, b: seq<nat>)
    requires |a| == |b|
    ensures Memcmp(a, b) == -Memcmp(b, a) && (Memcmp(a, b) == 0 <==> a == b)
  {
    if a != [] {
      MemcmpOrder(a[1..], b[1..]);
      assert a == [a[0]] + a[1..] && b == [b[0]] + b[1..];
    }
  }

  lemma {:induction false} MemcmpTransitive(a: seq<nat>, b: seq<nat>, c: seq<nat>)
    requires |a| == |b| == |c| && Memcmp(a, b) <= 0 && Memcmp(b, c) <= 0
    ensures Memcmp(a, c) <= 0 && (Memcmp(a, b) < 0 || Memcmp(b, c) < 0 ==> Memcmp(a, c) < 0)
  {
    if a != [] {
      if a[0] == b[0] == c[0] { MemcmpTransitive(a[1..], b[1..], c[1..]); }
    }
  }

  /** Among references that hold a match, the comparison is a strict weak order whose
      equivalence is having the same key. */
  lemma {:induction false} LessIsStrictWeakOrder(a: SampleRef, b: SampleRef, c: SampleRef)
    requires a.matches != [] && b.matches != [] && c.matches != []
    ensures !Less(a, a)
    ensures Less(a, b) && Less(b, c) ==> Less(a, c)
    ensures Equivalent(a, b) <==> KeyOf(a) == KeyOf(b)
    ensures Equivalent(a, b) && Equivalent(b, c) ==> Equivalent(a, c)
  {
    var x, y, z := a.snapshot.data4, b.snapshot.data4, c.snapshot.data4;
    MemcmpOrder(x, x);
    MemcmpOrder(x, y);
    MemcmpOrder(y, z);
    MemcmpOrder(x, z);
    if Memcmp(x, y) <= 0 && Memcmp(y, z) <= 0 { MemcmpTransitive(x, y, z); }
  }

  /** The fields of the key, the most significant first. */
  function KeyFields(ref: SampleRef): seq<int> {
    [ref.volume, ref.snapshot.data1, ref.snapshot.data2, ref.snapshot.data3] + ref.snapshot.data4
    + [ref.frn.low, ref.instance]
  }

  /** At the first place where they differ, the first one is smaller. */
  ghost predicate LexLess(a: seq<int>, b: seq<int>) {
    exists k :: 0 <= k < |a| && k < |b| && a[k] < b[k] && a[..k] == b[..k]
  }

  lemma {:induction false} MemcmpIsLex(a: seq<nat>, b: seq<nat>)
    requires |a| == |b|
    ensures Memcmp(a, b) < 0 <==> LexLess(a, b)
  {
    if a != [] {
      MemcmpIsLex(a[1..], b[1..]);
      if a[0] == b[0] {
        if k :| 0 <= k < |a| - 1 && a[1..][k] < b[1..][k] && a[1..][..k] == b[1..][..k] {
          assert a[..k + 1] == [a[0]] + a[1..][..k] && b[..k + 1] == [b[0]] + b[1..][..k];
          assert a[k + 1] < b[k + 1];
        }
        if k :| 0 <= k < |a| && a[k] < b[k] && a[..k] == b[..k] {
          assert k > 0 && a[1..][k - 1] < b[1..][k - 1];
          assert a[1..][..k - 1] == a[..k][1..] && b[1..][..k - 1] == b[..k][1..];
        }
      } else {
        FirstDiffers(a, b);
      }
    }
  }

  lemma FirstDiffers(a: seq<int>, b: seq<int>)
    requires a != [] && b != [] && a[0] != b[0]
    ensures LexLess(a, b) <==> a[0] < b[0]
  {
    assert a[..0] == b[..0];
    assert forall k :: 0 < k <= |a| && k <= |b| ==> a[..k][0] == a[0] && b[..k][0] == b[0];
  }

  lemma LexConcat(a: seq<int>, b: seq<int>, u: seq<int>, v: seq<int>)
    requires |a| == |b|
    ensures LexLess(a + u, b + v) <==> LexLess(a, b) || (a == b && LexLess(u, v))
  {
    hide LexLess;
    if LexLess(a + u, b + v) { LexSplit(a, b, u, v); }
    if LexLess(a, b) { LexFront(a, b, u, v); }
    if a == b && LexLess(u, v) { LexBack(a, u, v); }
  }

  lemma LexSplit(a: seq<int>, b: seq<int>, u: seq<int>, v: seq<int>)
    requires |a| == |b| && LexLess(a + u, b + v)
    ensures LexLess(a, b) || (a == b && LexLess(u, v))
  {
    var x, y := a + u, b + v;
    var k :| 0 <= k < |x| && k < |y| && x[k] < y[k] && x[..k] == y[..k];
    if k < |a| {
      assert a[..k] == x[..k] && b[..k] == y[..k];
    } else {
      assert a == x[..k][..|a|] && b == y[..k][..|a|];
      assert u[..k - |a|] == x[..k][|a|..] && v[..k - |a|] == y[..k][|a|..];
      assert u[k - |a|] < v[k - |a|];
    }
  }

  lemma LexFront(a: seq<int>, b: seq<int>, u: seq<int>, v: seq<int>)
    requires |a| == |b| && LexLess(a, b)
    ensures LexLess(a + u, b + v)
  {
    var k :| 0 <= k < |a| && k < |b| && a[k] < b[k] && a[..k] == b[..k];
    assert (a + u)[..k] == a[..k] && (b + v)[..k] == b[..k];
    assert (a + u)[k] < (b + v)[k];
  }

  lemma LexBack(a: seq<int>, u: seq<int>, v: seq<int>)
    requires LexLess(u, v)
    ensures LexLess(a + u, a + v)
  {
    var k :| 0 <= k < |u| && k < |v| && u[k] < v[k] && u[..k] == v[..k];
    assert (a + u)[..|a| + k] == a + u[..k] && (a + v)[..|a| + k] == a + v[..k];
    assert (a + u)[|a| + k] < (a + v)[|a| + k];
  }

  lemma LexHead(p: int, q: int, u: seq<int>, v: seq<int>)
    ensures LexLess([p] + u, [q] + v) <==> p < q || (p == q && LexLess(u, v))
  {
    LexConcat([p], [q], u, v);
    FirstDiffersOrSame(p, q);
  }

  lemma FirstDiffersOrSame(p: int, q: int)
    ensures LexLess([p], [q]) <==> p < q
  {
    if p < q { FirstDiffers([p], [q]); }
  }

  lemma KeyFieldsNested(ref: SampleRef)
    ensures KeyFields(ref) == [ref.volume] + ([ref.snapshot.data1] + ([ref.snapshot.data2] + ([ref.snapshot.data3]
                              + (ref.snapshot.data4 + ([ref.frn.low] + [ref.instance])))))
  {
  }

  /** The comparison is the lexicographic order of the fields of the key. */
  lemma {:induction false} LessIsLexicographic(a: SampleRef, b: SampleRef)
    requires a.matches != [] && b.matches != []
    ensures Less(a, b) <==> LexLess(KeyFields(a), KeyFields(b))
  {
    hide LexLess, KeyFields, Memcmp;
    var x, y := a.snapshot, b.snapshot;
    KeyFieldsNested(a);
    KeyFieldsNested(b);
    var u4, v4 := [a.frn.low] + [a.instance], [b.frn.low] + [b.instance];
    var u3, v3 := x.data4 + u4, y.data4 + v4;
    var u2, v2 := [x.data3] + u3, [y.data3] + v3;
    var u1, v1 := [x.data2] + u2, [y.data2] + v2;
    LexHead(a.volume, b.volume, [x.data1] + u1, [y.data1] + v1);
    LexHead(x.data1, y.data1, u1, v1);
    LexHead(x.data2, y.data2, u2, v2);
    LexHead(x.data3, y.data3, u3, v3);
    LexConcat(x.data4, y.data4, u4, v4);
    LexHead(a.frn.low, b.frn.low, [a.instance], [b.instance]);
    FirstDiffersOrSame(a.instance, b.instance);
    MemcmpIsLex(x.data4, y.data4);
    MemcmpOrder(x.data4, y.data4);
  }

  /** A reference without a match is equivalent to every other, so equivalence is not transitive there. */
  lemma EmptyRefBreaksTheOrder(a: SampleRef, b: SampleRef, empty: SampleRef)
    requires empty.matches == [] && Less(a, b)
    ensures Equivalent(a, empty) && Equivalent(empty, b) && !Equivalent(a, b)
  {
  }

  // ---------------------------------------------------------- the ordered set

  ghost predicate Ordered(refs: seq<SampleRef>) {
    && (forall e :: e in refs ==> e.matches != [])
    && forall i, j :: 0 <= i < j < |refs| ==> Less(refs[i], refs[j])
  }

  predicate Contains(refs: seq<SampleRef>, ref: SampleRef) {
    exists e :: e in refs && Equivalent(e, ref)
  }

  /** Inserting keeps the order; an equivalent element already there wins. */
  function Insert(refs: seq<SampleRef>, ref: SampleRef): seq<SampleRef> {
    if refs == [] || Less(ref, refs[0]) then [ref] + refs
    else if Less(refs[0], ref) then [refs[0]] + Insert(refs[1..], ref)
    else refs
  }

  lemma {:induction false} InsertMembers(refs: seq<SampleRef>, ref: SampleRef)
    ensures forall e :: e in refs ==> e in Insert(refs, ref)
    ensures forall e :: e in Insert(refs, ref) ==> e in refs || e == ref
    ensures !Contains(refs, ref) ==> ref in Insert(refs, ref)
  {
    if refs != [] && !Less(ref, refs[0]) && Less(refs[0], ref) {
      assert refs == [refs[0]] + refs[1..];
      InsertMembers(refs[1..], ref);
      assert Contains(refs[1..], ref) ==> Contains(refs, ref);
    } else if refs != [] {
      assert refs[0] in refs;
    }
  }

  lemma {:induction false} InsertOrdered(refs: seq<SampleRef>, ref: SampleRef)
    requires Ordered(refs) && ref.matches != []
    ensures Ordered(Insert(refs, ref))
  {
    InsertMembers(refs, ref);
    if refs != [] && Less(ref, refs[0]) {
      forall k | 0 <= k < |refs| ensures Less(ref, refs[k]) {
        LessIsStrictWeakOrder(ref, refs[0], refs[k]);
      }
    } else if refs != [] && Less(refs[0], ref) {
      InsertOrdered(refs[1..], ref);
      InsertMembers(refs[1..], ref);
      var tail := Insert(refs[1..], ref);
      forall k | 0 <= k < |tail| ensures Less(refs[0], tail[k]) {
        assert tail[k] in tail;
      }
    }
  }
}
