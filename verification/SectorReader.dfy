/** Reading a disk chunk: round the request to sectors, clamp it to the disk,
    then read sector by sector until the chunk is full or the device fails. */
module SectorReader {
  import opened Windows

  type Byte = bv8

  const MAXLONGLONG: nat := 0x7FFF_FFFF_FFFF_FFFF
  const E_FAIL := Failed(0)

  // -------------------------------------------------------------- the device

  /** A raw disk. Bytes in `bad` cannot be read; offsets in `unseekable` cannot be sought. */
  datatype Disk = Disk(content: seq<Byte>, sectorSize: nat, bad: set<nat>, unseekable: set<nat>) {
    predicate Readable(pos: nat, count: nat) {
      pos + count <= |content| && forall b :: b in bad ==> !(pos <= b < pos + count)
    }

    /** A whole number of sectors, of a size that divides 2^32. */
    ghost predicate Sectored() {
      sectorSize > 0 ==> |content| % sectorSize == 0 && TWO_32 % sectorSize == 0
    }

    predicate Known() { |content| > 0 && sectorSize > 0 }

    ghost predicate FaultFree() { bad == {} && unseekable == {} }
  }

  /** An opened disk. A read may or may not move the device's own file pointer. */
  class DiskReader {
    const disk: Disk
    var position: nat

    constructor (disk: Disk)
      ensures this.disk == disk
    {
      this.disk := disk;
      position := 0;
    }

    method Seek(offset: nat) returns (ok: bool)
      modifies this
      ensures ok <==> offset !in disk.unseekable
      ensures position == if ok then offset else old(position)
    {
      ok := offset !in disk.unseekable;
      if ok {
        position := offset;
      }
    }

    /** Reads `count` bytes at the file pointer into `buffer`, or fails. */
    method Read(buffer: array<Byte>, at: nat, count: nat) returns (ok: bool)
      requires at + count <= buffer.Length
      modifies this, buffer
      ensures ok <==> disk.Readable(old(position), count)
      ensures !ok ==> buffer[..] == old(buffer[..])
      ensures ok ==> buffer[at..at + count] == disk.content[old(position)..old(position) + count]
      ensures buffer[..at] == old(buffer[..at]) && buffer[at + count..] == old(buffer[at + count..])
      ensures position == old(position) || position == old(position) + count
    {
      ok := disk.Readable(position, count);
      if ok {
        forall i | 0 <= i < count {
          buffer[at + i] := disk.content[position + i];
        }
        if * {
          position := position + count;
        }
      }
    }
  }

  // ----------------------------------------------------- rounding and clamping

  function RoundDown(offset: nat, sector: nat): nat
    requires sector > 0
  {
    offset - offset % sector
  }

  function RoundUp(size: nat, sector: nat): nat
    requires sector > 0
  {
    if size % sector != 0 then Low32(size + (sector - size % sector)) else size
  }

  function Clamp(offset: nat, size: nat, diskSize: nat): nat
    requires offset < diskSize
  {
    if Low64(offset + size) > diskSize then Low32(diskSize - offset) else size
  }

  lemma Grows(s: nat, k: int)
    requires k > 0
    ensures s * k >= s
  {
    assert s * k == s + s * (k - 1);
  }

  lemma Distribute(s: int, a: int, b: int)
    ensures s * (a + b) == s * a + s * b && s * (b - a) == s * b - s * a
  {
  }

  lemma QuotientUnique(s: nat, q: int, r: int, q': int, r': int)
    requires s * q + r == s * q' + r' && 0 <= r < s && 0 <= r' < s
    ensures q == q' && r == r'
  {
    Distribute(s, q, q');
    Distribute(s, q', q);
    if q < q' { Grows(s, q' - q); }
    if q' < q { Grows(s, q - q'); }
  }

  lemma MultipleMod(k: nat, s: nat)
    requires s > 0
    ensures (s * k) % s == 0
  {
    QuotientUnique(s, k, 0, (s * k) / s, (s * k) % s);
  }

  lemma ModIsMultiple(x: nat, s: nat)
    requires s > 0 && x % s == 0
    ensures x == s * (x / s)
  {
  }

  lemma QuotientOrder(s: nat, a: int, b: int)
    requires s > 0 && s * a < s * b
    ensures a < b
  {
    if b <= a {
      Distribute(s, b, a);
      if b < a { Grows(s, a - b); }
    }
  }

  /** Sums and differences of multiples of a sector are multiples, and the next one is a sector away. */
  lemma SectorArithmetic(x: nat, y: nat, s: nat)
    requires s > 0 && x % s == 0 && y % s == 0
    ensures (x + y) % s == 0 && (x <= y ==> (y - x) % s == 0) && (x < y ==> x + s <= y)
  {
    var a, b := x / s, y / s;
    ModIsMultiple(x, s);
    ModIsMultiple(y, s);
    Distribute(s, a, b);
    MultipleMod(a + b, s);
    if x < y {
      QuotientOrder(s, a, b);
      MultipleMod(b - a, s);
      Grows(s, b - a);
    } else if x == y {
      MultipleMod(0, s);
    }
  }

  lemma RoundDownIsSector(offset: nat, s: nat)
    requires s > 0
    ensures RoundDown(offset, s) % s == 0 && RoundDown(offset, s) <= offset < RoundDown(offset, s) + s
  {
    assert RoundDown(offset, s) == s * (offset / s);
    MultipleMod(offset / s, s);
  }

  /** Rounding up gives the next multiple, except that one that reaches 2^32 gives 0. */
  lemma RoundUpIsSector(size: nat, s: nat)
    requires size < TWO_32 && 0 < s < TWO_32 && TWO_32 % s == 0
    ensures RoundUp(size, s) % s == 0 && RoundUp(size, s) < TWO_32
    ensures if size <= TWO_32 - s then size <= RoundUp(size, s) < size + s else RoundUp(size, s) == 0
  {
    RoundDownIsSector(size, s);
    var below := RoundDown(size, s);
    if size % s != 0 {
      assert s % s == 0 by { MultipleMod(1, s); }
      SectorArithmetic(below, s, s);
      SectorArithmetic(below, TWO_32, s);
      assert below + s <= TWO_32;
      if below + s < TWO_32 {
        SectorArithmetic(below + s, TWO_32, s);
      }
    } else {
      SectorArithmetic(size, TWO_32, s);
    }
  }

  lemma ClampIsSector(offset: nat, size: nat, disk: Disk)
    requires disk.sectorSize > 0 && disk.Sectored()
    requires offset % disk.sectorSize == 0 && size % disk.sectorSize == 0
    requires size < TWO_32 && offset < |disk.content| && offset + size < TWO_64
    ensures Clamp(offset, size, |disk.content|) % disk.sectorSize == 0
    ensures Clamp(offset, size, |disk.content|) == if offset + size > |disk.content| then |disk.content| - offset else size
  {
    SectorArithmetic(offset, |disk.content|, disk.sectorSize);
  }

  // --------------------------------------------------------- the longest run

  /** How many of the `remaining` bytes from `offset` on are read before the device refuses a sector. */
  function RunBytes(disk: Disk, offset: nat, remaining: nat): (n: nat)
    requires disk.sectorSize > 0
    ensures n <= remaining && (offset <= |disk.content| ==> offset + n <= |disk.content|)
    decreases remaining
  {
    var s := disk.sectorSize;
    if remaining < s || !disk.Readable(offset, s) then 0
    else if offset + s in disk.unseekable then s
    else s + RunBytes(disk, offset + s, remaining - s)
  }

  /** Every sector of `[from, to)` can be read, and sought after the first. */
  ghost predicate Run(disk: Disk, from: nat, to: nat)
    requires disk.sectorSize > 0
  {
    forall p: nat :: from <= p < to && p % disk.sectorSize == 0 ==>
      disk.Readable(p, disk.sectorSize) && (p > from ==> p !in disk.unseekable)
  }

  /** `RunBytes` is the longest run of sectors the device lets through. */
  lemma {:induction false} RunBytesIsLongest(disk: Disk, offset: nat, remaining: nat)
    requires disk.sectorSize > 0 && offset % disk.sectorSize == 0 && remaining % disk.sectorSize == 0
    ensures var n := RunBytes(disk, offset, remaining);
            && n <= remaining && n % disk.sectorSize == 0 && Run(disk, offset, offset + n)
            && offset + n <= (if n == 0 then offset else |disk.content|)
            && (forall to: nat :: to % disk.sectorSize == 0 && offset <= to <= offset + remaining && Run(disk, offset, to)
                  ==> to <= offset + n)
    decreases remaining
  {
    var s, n := disk.sectorSize, RunBytes(disk, offset, remaining);
    assert s % s == 0 && 0 % s == 0 by { MultipleMod(1, s); MultipleMod(0, s); }
    if remaining >= s && disk.Readable(offset, s) && offset + s !in disk.unseekable {
      SectorArithmetic(offset, s, s);
      SectorArithmetic(s, remaining, s);
      RunBytesIsLongest(disk, offset + s, remaining - s);
      SectorArithmetic(n - s, s, s);
    }
    forall p: nat | offset <= p < offset + n && p % s == 0
      ensures disk.Readable(p, s) && (p > offset ==> p !in disk.unseekable)
    {
      if p > offset { SectorArithmetic(offset, p, s); }
    }
    forall to: nat | to % s == 0 && offset <= to <= offset + remaining && Run(disk, offset, to)
      ensures to <= offset + n
    {
      if to > offset {
        SectorArithmetic(offset, to, s);
        assert disk.Readable(offset, s);
        if to > offset + s {
          SectorArithmetic(offset, s, s);
          assert offset + s !in disk.unseekable;
          assert Run(disk, offset + s, to);
        }
      }
    }
  }

  lemma {:induction false} FaultFreeRun(disk: Disk, offset: nat, remaining: nat)
    requires disk.sectorSize > 0 && remaining % disk.sectorSize == 0
    requires disk.FaultFree() && offset + remaining <= |disk.content|
    ensures RunBytes(disk, offset, remaining) == remaining
    decreases remaining
  {
    if remaining > 0 {
      var s := disk.sectorSize;
      assert s % s == 0 && 0 % s == 0 by { MultipleMod(1, s); MultipleMod(0, s); }
      SectorArithmetic(0, remaining, s);
      SectorArithmetic(s, remaining, s);
      FaultFreeRun(disk, offset + s, remaining - s);
    }
  }

  // ------------------------------------------------------------ the disk chunk

  /** What a read leaves in the chunk: its result, offset, size and bytes. */
  datatype Reading = Reading(hr: HResult, offset: nat, size: nat, data: seq<Byte>)

  function FillingOf(disk: Disk, from: nat, size: nat, sectorBySector: bool): Reading
    requires disk.sectorSize > 0 && from <= |disk.content|
  {
    if from in disk.unseekable then Reading(E_FAIL, from, size, [])
    else if sectorBySector then
      var n := RunBytes(disk, from, size);
      Reading(S_OK, from, n, disk.content[from..from + n])
    else if disk.Readable(from, size) then Reading(S_OK, from, size, disk.content[from..from + size])
    else Reading(E_FAIL, from, size, [])
  }

  /** The reading of a chunk not read yet, from an opened disk of known geometry. */
  function ReadingOf(disk: Disk, offset: nat, size: nat, sectorBySector: bool): Reading
    requires |disk.content| > 0 && disk.sectorSize > 0
  {
    var from, rounded := RoundDown(offset, disk.sectorSize), RoundUp(size, disk.sectorSize);
    if from >= |disk.content| then Reading(E_FAIL, from, rounded, [])
    else
      var clamped := Clamp(from, rounded, |disk.content|);
      if from > MAXLONGLONG then Reading(S_OK, from, clamped, [])
      else FillingOf(disk, from, clamped, sectorBySector)
  }

  /** A sector-by-sector read that can seek to its first sector brings back exactly the longest run of
      readable sectors of the rounded request that lie on the disk. */
  lemma {:induction false} ReadingIsLongestRun(disk: Disk, offset: nat, size: nat)
    requires 0 < disk.sectorSize < TWO_32 && disk.Sectored() && |disk.content| <= MAXLONGLONG
    requires offset < |disk.content| && size < TWO_32
    requires RoundDown(offset, disk.sectorSize) !in disk.unseekable
    ensures var s, from, rounded := disk.sectorSize, RoundDown(offset, disk.sectorSize), RoundUp(size, disk.sectorSize);
            var end := if from + rounded < |disk.content| then from + rounded else |disk.content|;
            var read := ReadingOf(disk, offset, size, true);
            && read.hr == S_OK && read.offset == from && read.offset + read.size <= end
            && read.data == disk.content[from..from + read.size]
            && read.size % s == 0 && Run(disk, from, from + read.size)
            && (forall to: nat :: to % s == 0 && from <= to <= end && Run(disk, from, to) ==> to <= from + read.size)
  {
    var from, rounded := RoundDown(offset, disk.sectorSize), RoundUp(size, disk.sectorSize);
    RoundDownIsSector(offset, disk.sectorSize);
    RoundUpIsSector(size, disk.sectorSize);
    ClampIsSector(from, rounded, disk);
    RunBytesIsLongest(disk, from, Clamp(from, rounded, |disk.content|));
  }

  /** Without faults, the requested bytes that exist are all read exactly when the rounded size makes
      up for rounding the offset down, or reaches the end of the disk. */
  lemma {:induction false} FaultFreeCoversIff(disk: Disk, offset: nat, size: nat)
    requires 0 < disk.sectorSize < TWO_32 && disk.Sectored() && disk.FaultFree()
    requires size < TWO_32 && offset < |disk.content| <= MAXLONGLONG
    ensures var from, rounded := RoundDown(offset, disk.sectorSize), RoundUp(size, disk.sectorSize);
            var end := if offset + size < |disk.content| then offset + size else |disk.content|;
            var read := ReadingOf(disk, offset, size, true);
            && read.size == (if from + rounded > |disk.content| then |disk.content| - from else rounded)
            && (end <= from + read.size <==>
                  offset % disk.sectorSize + size <= rounded || |disk.content| <= from + rounded)
  {
    var s, from := disk.sectorSize, RoundDown(offset, disk.sectorSize);
    var rounded := RoundUp(size, s);
    RoundDownIsSector(offset, s);
    RoundUpIsSector(size, s);
    ClampIsSector(from, rounded, disk);
    FaultFreeRun(disk, from, Clamp(from, rounded, |disk.content|));
  }

  /** An aligned fault-free request is read up to its end or the end of the disk exactly when rounding its
      size up stays below 2^32. */
  lemma {:induction false} AlignedFaultFreeCoversIff(disk: Disk, offset: nat, size: nat)
    requires 0 < disk.sectorSize < TWO_32 && disk.Sectored() && disk.FaultFree()
    requires size < TWO_32 && offset < |disk.content| <= MAXLONGLONG
    requires offset % disk.sectorSize == 0
    ensures var end := if offset + size < |disk.content| then offset + size else |disk.content|;
            end <= offset + ReadingOf(disk, offset, size, true).size <==> size <= TWO_32 - disk.sectorSize
  {
    FaultFreeCoversIff(disk, offset, size);
    RoundUpIsSector(size, disk.sectorSize);
  }

  /** The largest size rounds up to nothing. */
  lemma LargestSizeRoundsToNothing()
    ensures RoundUp(TWO_32 - 1, 512) == 0
  {
  }

  /** Bytes 3 and 4 of a disk with sectors of 4 bytes: only the first sector is read, and byte 4 is missing. */
  lemma UnalignedTailIsMissing()
    ensures var disk := Disk([0, 1, 2, 3, 4, 5, 6, 7], 4, {}, {});
            var read := ReadingOf(disk, 3, 2, true);
            read.offset == 0 && read.size == 4
  {
    var disk := Disk([0, 1, 2, 3, 4, 5, 6, 7], 4, {}, {});
    FaultFreeCoversIff(disk, 3, 2);
  }

  /** In one piece, everything that is asked for is read, or nothing. */
  lemma OnePieceIsAllOrNothing(disk: Disk, offset: nat, size: nat)
    requires 0 < disk.sectorSize < TWO_32 && disk.Sectored() && |disk.content| <= MAXLONGLONG
    requires offset < |disk.content| && size < TWO_32
    ensures var from, rounded := RoundDown(offset, disk.sectorSize), RoundUp(size, disk.sectorSize);
            var end := if from + rounded < |disk.content| then from + rounded else |disk.content|;
            var read := ReadingOf(disk, offset, size, false);
            && read.offset == from && read.size == end - from && (read.hr == S_OK || read.hr == E_FAIL)
            && (read.hr == S_OK <==> from !in disk.unseekable && forall b :: b in disk.bad ==> !(from <= b < end))
            && read.data == if read.hr == S_OK then disk.content[from..end] else []
  {
    var from, rounded := RoundDown(offset, disk.sectorSize), RoundUp(size, disk.sectorSize);
    RoundDownIsSector(offset, disk.sectorSize);
    RoundUpIsSector(size, disk.sectorSize);
    ClampIsSector(from, rounded, disk);
  }

  /** Nothing is read from beyond the disk, nor where the first sector cannot be sought; the chunk is left with the
      rounded request. */
  lemma FailedReading(disk: Disk, offset: nat, size: nat, sectorBySector: bool)
    requires 0 < disk.sectorSize < TWO_32 && disk.Sectored() && 0 < |disk.content| <= MAXLONGLONG
    requires size < TWO_32
    ensures var from, rounded := RoundDown(offset, disk.sectorSize), RoundUp(size, disk.sectorSize);
            var read := ReadingOf(disk, offset, size, sectorBySector);
            && (offset >= |disk.content| ==> read == Reading(E_FAIL, from, rounded, []))
            && (offset < |disk.content| && from in disk.unseekable ==>
                  && read.hr == E_FAIL && read.offset == from && read.data == []
                  && read.size == if from + rounded > |disk.content| then |disk.content| - from else rounded)
  {
    var from, rounded := RoundDown(offset, disk.sectorSize), RoundUp(size, disk.sectorSize);
    RoundDownIsSector(offset, disk.sectorSize);
    RoundUpIsSector(size, disk.sectorSize);
    if offset >= |disk.content| {
      if from < |disk.content| { SectorArithmetic(from, |disk.content|, disk.sectorSize); }
    } else {
      ClampIsSector(from, rounded, disk);
    }
  }

  /** An offset that a signed 64-bit number cannot hold is not sought: nothing is read, and no error reported. */
  lemma UnsignedOffsetReadsNothing(disk: Disk, offset: nat, size: nat, sectorBySector: bool)
    requires 0 < disk.sectorSize < TWO_32 && disk.Sectored() && |disk.content| < TWO_64 - TWO_32
    requires RoundDown(offset, disk.sectorSize) > 0x7FFF_FFFF_FFFF_FFFF && offset < |disk.content| && size < TWO_32
    ensures var from, rounded := RoundDown(offset, disk.sectorSize), RoundUp(size, disk.sectorSize);
            var end := if from + rounded < |disk.content| then from + rounded else |disk.content|;
            ReadingOf(disk, offset, size, sectorBySector) == Reading(S_OK, from, end - from, [])
  {
    var from, rounded := RoundDown(offset, disk.sectorSize), RoundUp(size, disk.sectorSize);
    RoundDownIsSector(offset, disk.sectorSize);
    RoundUpIsSector(size, disk.sectorSize);
    ClampIsSector(from, rounded, disk);
  }

  class DiskChunk {
    var offset: nat
    var size: nat
    var buffer: array?<Byte>
    var sectorBySector: bool

    /** The bytes held; an empty buffer owns no memory, as if nothing had been read. */
    ghost function Data(): seq<Byte>
      reads this, if buffer == null then {} else {buffer}
    {
      if buffer == null then [] else buffer[..]
    }

    constructor (offset: nat, size: nat)
      requires offset < TWO_64 && size < TWO_32
      ensures this.offset == offset && this.size == size && buffer == null && sectorBySector
    {
      this.offset, this.size, buffer, sectorBySector := offset, size, null, true;
    }

    /** `device` is the outcome of opening the chunk's disk interface. */
    method Read(device: Outcome<DiskReader>) returns (hr: HResult)
      requires offset < TWO_64 && size < TWO_32
      requires device.Success? ==> device.value.disk.Sectored() && device.value.disk.sectorSize < TWO_32
      modifies this`offset, this`size, this`buffer, if device.Success? then {device.value} else {}
      ensures old(buffer) != null ==>
        hr == S_OK && offset == old(offset) && size == old(size) && buffer == old(buffer)
      ensures old(buffer) == null && device.Failure? ==>
        hr == Failed(device.error) && offset == old(offset) && size == old(size) && buffer == null
      ensures old(buffer) == null && device.Success? && !device.value.disk.Known() ==>
        hr == E_FAIL && offset == old(offset) && size == old(size) && buffer == null
      ensures old(buffer) == null && device.Success? && device.value.disk.Known() ==>
        Reading(hr, offset, size, Data()) == ReadingOf(device.value.disk, old(offset), old(size), sectorBySector)
    {
      if buffer != null {
        return S_OK;
      }
      if device.Failure? {
        return Failed(device.error);
      }
      var reader := device.value;
      var diskSize, sector := |reader.disk.content|, reader.disk.sectorSize;
      if diskSize == 0 || sector == 0 {
        return E_FAIL;
      }
      ghost var request, rounded := offset, RoundUp(size, sector);
      assert RoundDown(offset, sector) % sector == 0 by { RoundDownIsSector(offset, sector); }
      assert rounded % sector == 0 && rounded < TWO_32 by { RoundUpIsSector(size, sector); }
      offset := RoundDown(offset, sector);
      size := RoundUp(size, sector);
      if offset >= diskSize {
        return E_FAIL;
      }
      size := Clamp(offset, size, diskSize);
      if offset > MAXLONGLONG {
        return S_OK;
      }
      ClampIsSector(offset, rounded, reader.disk);
      hr := Fill(reader);
    }

    /** Fills the buffer from the rounded offset, sector by sector or in one piece. */
    method Fill(reader: DiskReader) returns (hr: HResult)
      requires reader.disk.sectorSize > 0 && size % reader.disk.sectorSize == 0
      requires offset + size <= |reader.disk.content| && buffer == null
      modifies this`size, this`buffer, reader
      ensures Reading(hr, offset, size, Data()) == FillingOf(reader.disk, offset, old(size), sectorBySector)
    {
      var seekable := reader.Seek(offset);
      if !seekable {
        return E_FAIL;
      }
      if sectorBySector {
        var data, bytesRead := ReadSectors(reader, offset, size);
        hr, size := S_OK, bytesRead;
        buffer := if size == 0 then null else data;
      } else {
        var data := new Byte[size];
        var ok := reader.Read(data, 0, size);
        assert data[0..size] == data[..];
        hr := if ok then S_OK else E_FAIL;
        buffer := if ok && size > 0 then data else null;
      }
    }
  }

  /** Reads one sector where the file pointer is, then seeks past it. */
  method ReadSector(reader: DiskReader, data: array<Byte>, offset: nat, at: nat) returns (count: nat, ok: bool)
    requires reader.disk.sectorSize > 0 && at + reader.disk.sectorSize <= data.Length && reader.position == offset + at
    requires offset + at <= |reader.disk.content| && data[..at] == reader.disk.content[offset..offset + at]
    modifies reader, data
    ensures count == if reader.disk.Readable(offset + at, reader.disk.sectorSize) then reader.disk.sectorSize else 0
    ensures ok <==> count > 0 && offset + at + count !in reader.disk.unseekable
    ensures ok ==> reader.position == offset + at + count
    ensures data[..at + count] == reader.disk.content[offset..offset + at + count]
  {
    count := 0;
    ok := reader.Read(data, at, reader.disk.sectorSize);
    if ok {
      count := reader.disk.sectorSize;
      ghost var from := offset + at;
      SliceSplit(data[..], 0, at, at + count);
      SliceSplit(reader.disk.content, offset, from, from + count);
      assert data[..][0..at + count] == data[..at + count] && data[..][0..at] == data[..at];
      assert data[..][at..at + count] == data[at..at + count];
      ok := reader.Seek(offset + at + count);
    }
  }

  lemma SliceSplit(bytes: seq<Byte>, from: nat, mid: nat, to: nat)
    requires from <= mid <= to <= |bytes|
    ensures bytes[from..to] == bytes[from..mid] + bytes[mid..to]
  {
  }

  /** What one sector does to the longest run. */
  lemma RunBytesStep(disk: Disk, offset: nat, remaining: nat)
    requires 0 < disk.sectorSize <= remaining
    ensures RunBytes(disk, offset, remaining) ==
      if !disk.Readable(offset, disk.sectorSize) then 0
      else disk.sectorSize + if offset + disk.sectorSize in disk.unseekable then 0
                             else RunBytes(disk, offset + disk.sectorSize, remaining - disk.sectorSize)
  {
  }

  lemma NothingRemains(disk: Disk, offset: nat)
    requires disk.sectorSize > 0
    ensures RunBytes(disk, offset, 0) == 0
  {
  }

  /** Reads sector after sector, seeking again after each, until one of them fails. */
  method ReadSectors(reader: DiskReader, offset: nat, size: nat) returns (data: array<Byte>, bytesRead: nat)
    requires reader.disk.sectorSize > 0 && size % reader.disk.sectorSize == 0
    requires offset + size <= |reader.disk.content| && reader.position == offset
    modifies reader
    ensures fresh(data) && bytesRead == RunBytes(reader.disk, offset, size)
    ensures data[..] == reader.disk.content[offset..offset + bytesRead]
  {
    hide RunBytes, Disk.Readable;
    var disk, sector := reader.disk, reader.disk.sectorSize;
    data := new Byte[size];
    var ok := true;
    bytesRead := 0;
    MultipleMod(0, sector);
    MultipleMod(1, sector);
    while bytesRead < size && ok
      invariant data.Length == size && fresh(data)
      invariant bytesRead <= size && bytesRead % sector == 0
      invariant ok ==> reader.position == offset + bytesRead
      invariant data[..bytesRead] == disk.content[offset..offset + bytesRead]
      invariant RunBytes(disk, offset, size) ==
        bytesRead + if ok then RunBytes(disk, offset + bytesRead, size - bytesRead) else 0
      decreases size - bytesRead, ok
    {
      assert size - bytesRead >= sector && (bytesRead + sector) % sector == 0 by {
        SectorArithmetic(bytesRead, size, sector);
        SectorArithmetic(bytesRead, sector, sector);
      }
      RunBytesStep(disk, offset + bytesRead, size - bytesRead);
      var count: nat;
      count, ok := ReadSector(reader, data, offset, bytesRead);
      bytesRead := bytesRead + count;
    }
    NothingRemains(disk, offset + bytesRead);
    data := Shrink(data, bytesRead);
  }

  method Shrink(data: array<Byte>, count: nat) returns (short: array<Byte>)
    requires count <= data.Length
    ensures short == data || fresh(short)
    ensures short[..] == data[..count]
  {
    if count == data.Length {
      assert data[..] == data[..count];
      return data;
    }
    short := new Byte[count](i requires 0 <= i < count reads data => data[i]);
  }
}
