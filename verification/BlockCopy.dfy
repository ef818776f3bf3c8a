/** The copy loop of DD: read a block, write it to every output, count, and on a read error
    either stop or go on with zeros. */
module BlockCopy {
  import opened Windows

  type Byte = bv8

  /** The input; a read that meets a byte in `bad` fails. */
  datatype Input = Input(content: seq<Byte>, bad: set<nat>) {
    /** How many bytes a read of `count` bytes at `pos` delivers. */
    function Delivered(pos: nat, count: nat): (n: nat)
      ensures n <= count && (n > 0 ==> pos + n <= |content|)
    {
      if pos >= |content| then 0 else if pos + count <= |content| then count else |content| - pos
    }

    predicate Fails(pos: nat, count: nat) {
      exists b :: b in bad && pos <= b < pos + Delivered(pos, count)
    }
  }

  /** A block size of 0 stands for the default, 512, before the copy begins. */
  datatype Config = Config(blockSize: nat, count: nat, skip: nat, noError: bool) {
    /** The buffer is as large as the low half of the block size. */
    function BufferSize(): nat { Low32(blockSize) }

    function Start(): nat { blockSize * skip }
  }

  /** A block as it was written: where it was read, how many bytes were delivered, whether the read failed,
      and the whole buffer. */
  datatype Block = Block(offset: nat, valid: nat, failed: bool, buffer: seq<Byte>)

  function Zeros(n: nat): (z: seq<Byte>)
    ensures |z| == n
  {
    seq(n, _ => 0)
  }

  /** A read overwrites the front of the buffer and leaves the rest as it was. */
  function Filled(input: Input, pos: nat, buffer: seq<Byte>): (r: seq<Byte>)
    ensures |r| == |buffer|
  {
    var n := input.Delivered(pos, |buffer|);
    (if n == 0 then [] else input.content[pos..pos + n]) + buffer[n..]
  }

  function ReadBlock(c: Config, input: Input, pos: nat, buffer: seq<Byte>): Block {
    if input.Fails(pos, |buffer|) then Block(pos, c.blockSize, true, Zeros(|buffer|))
    else Block(pos, input.Delivered(pos, |buffer|), false, Filled(input, pos, buffer))
  }

  /** The copy is over before the next block: the count is used up, the input is at its end, or a read failed
      and errors count. */
  predicate Over(c: Config, block: Block, left: Option<nat>) {
    left == Some(0) || (block.failed && !c.noError) || block.valid == 0
  }

  function Less1(left: Option<nat>): Option<nat> {
    if left.Some? && left.value > 0 then Some(left.value - 1) else left
  }

  /** The blocks the loop writes from `pos` on. After an error, the input is sought at the skipped *blocks* plus
      the bytes copied, not at the skipped bytes. */
  function Copy(c: Config, input: Input, pos: nat, progress: nat, buffer: seq<Byte>, left: Option<nat>): seq<Block>
    requires progress <= pos
    decreases if progress < |input.content| then |input.content| - progress else 0
  {
    var block := ReadBlock(c, input, pos, buffer);
    if Over(c, block, left) then []
    else
      var next := if block.failed then c.skip + progress + c.blockSize else pos + block.valid;
      [block] + Copy(c, input, next, progress + block.valid, block.buffer, Less1(left))
  }

  /** The copy one would expect: every block from its own place. */
  function Ideal(c: Config, input: Input, pos: nat, buffer: seq<Byte>, left: Option<nat>): seq<Block>
    decreases if pos < |input.content| then |input.content| - pos else 0
  {
    var block := ReadBlock(c, input, pos, buffer);
    if Over(c, block, left) then []
    else [block] + Ideal(c, input, pos + block.valid, block.buffer, Less1(left))
  }

  // ---------------------------------------------------------- what is copied

  /** The bytes delivered, and everything written. */
  function Data(blocks: seq<Block>): seq<Byte> {
    if blocks == [] then []
    else
      var buffer, n := blocks[0].buffer, blocks[0].valid;
      (if n <= |buffer| then buffer[..n] else buffer) + Data(blocks[1..])
  }

  function Written(blocks: seq<Block>): seq<Byte> {
    if blocks == [] then [] else blocks[0].buffer + Written(blocks[1..])
  }

  function Total(blocks: seq<Block>): nat {
    if blocks == [] then 0 else blocks[0].valid + Total(blocks[1..])
  }

  /** The number of bytes the blocks may hold. */
  function Capacity(blocks: nat, size: nat): nat {
    if blocks == 0 then 0 else size + Capacity(blocks - 1, size)
  }

  lemma FaultFreeStep(c: Config, input: Input, pos: nat, progress: nat, buffer: seq<Byte>, left: Option<nat>)
    requires progress <= pos && input.bad == {}
    requires !Over(c, ReadBlock(c, input, pos, buffer), left)
    ensures var block := ReadBlock(c, input, pos, buffer);
            var blocks := Copy(c, input, pos, progress, buffer, left);
            var rest := Copy(c, input, pos + block.valid, progress + block.valid, block.buffer, Less1(left));
            && blocks == [block] + rest && blocks[1..] == rest
            && 0 < block.valid <= |buffer| && pos + block.valid <= |input.content|
            && block.buffer[..block.valid] == input.content[pos..pos + block.valid]
            && (block.valid < |buffer| ==> rest == [] && pos + block.valid == |input.content|)
            && Data(blocks) == block.buffer[..block.valid] + Data(rest)
            && Written(blocks) == block.buffer + Written(rest)
  {
    var block := ReadBlock(c, input, pos, buffer);
    var rest := Copy(c, input, pos + block.valid, progress + block.valid, block.buffer, Less1(left));
    assert ([block] + rest)[1..] == rest;
  }

  /** A copy from `pos` on reads whole blocks only: the buffer is empty, there is nothing to read, the counted
      blocks fit the input, or the input ends with a block. */
  ghost predicate WholeBlocks(input: Input, pos: nat, size: nat, left: Option<nat>) {
    || size == 0 || pos >= |input.content|
    || (left.Some? && pos + Capacity(left.value, size) <= |input.content|)
    || exists k: nat :: pos + Capacity(k, size) == |input.content|
  }

  /** What the blocks copied from `pos` on are without read errors: the bytes delivered are the input from there,
      up to its end or the last counted block; what is written begins with them, and is nothing else exactly when
      only whole blocks are read. */
  ghost predicate IsFaithful(input: Input, pos: nat, size: nat, left: Option<nat>, blocks: seq<Block>) {
    && Total(blocks) == |Data(blocks)| <= |Written(blocks)| == Capacity(|blocks|, size)
    && (blocks != [] ==> pos + Total(blocks) <= |input.content| && Data(blocks) == input.content[pos..pos + Total(blocks)])
    && Written(blocks)[..Total(blocks)] == Data(blocks)
    && (Written(blocks) == Data(blocks) <==> WholeBlocks(input, pos, size, left))
    && (left.Some? ==> |blocks| <= left.value)
    && (pos + Total(blocks) >= |input.content| || size == 0 || left == Some(|blocks|))
  }

  lemma WholeBlocksStep(input: Input, pos: nat, size: nat, left: Option<nat>, valid: nat)
    requires 0 < valid <= size && pos + valid <= |input.content| && left != Some(0)
    requires valid < size ==> pos + valid == |input.content|
    ensures WholeBlocks(input, pos, size, left) <==> valid == size && WholeBlocks(input, pos + valid, size, Less1(left))
  {
    if k: nat :| pos + Capacity(k, size) == |input.content| {
      assert pos + size + Capacity(k - 1, size) == |input.content|;
    }
    if k: nat :| pos + size + Capacity(k, size) == |input.content| {
      assert pos + Capacity(k + 1, size) == |input.content|;
    }
    assert pos + size == |input.content| ==> pos + Capacity(1, size) == |input.content| by {
      assert Capacity(0, size) == 0;
    }
  }

  lemma FaithfulCons(input: Input, pos: nat, size: nat, left: Option<nat>, block: Block, rest: seq<Block>)
    requires IsFaithful(input, pos + block.valid, size, Less1(left), rest) && left != Some(0)
    requires 0 < block.valid <= size == |block.buffer| && pos + block.valid <= |input.content|
    requires block.buffer[..block.valid] == input.content[pos..pos + block.valid] && (block.valid < size ==> rest == [])
    requires block.valid < size ==> pos + block.valid == |input.content|
    requires Data([block] + rest) == block.buffer[..block.valid] + Data(rest)
    requires Written([block] + rest) == block.buffer + Written(rest)
    ensures IsFaithful(input, pos, size, left, [block] + rest)
  {
    hide WholeBlocks, Data, Written, Total, Capacity;
    var blocks := [block] + rest;
    WholeBlocksStep(input, pos, size, left, block.valid);
    ConsTotals(block, rest, size);
    NothingWritten();
    if rest != [] {
      assert block.buffer[..block.valid] == block.buffer;
      var end := pos + block.valid + Total(rest);
      assert input.content[pos..end] == input.content[pos..pos + block.valid] + input.content[pos + block.valid..end];
    }
  }

  lemma ConsTotals(block: Block, rest: seq<Block>, size: nat)
    ensures Total([block] + rest) == block.valid + Total(rest)
    ensures Capacity(|rest| + 1, size) == size + Capacity(|rest|, size) && Capacity(0, size) == 0
  {
    assert ([block] + rest)[1..] == rest;
  }

  /** Without read errors every copy is faithful. */
  lemma {:induction false} FaultFreeCopy(c: Config, input: Input, pos: nat, progress: nat, buffer: seq<Byte>,
                                         left: Option<nat>)
    requires progress <= pos && input.bad == {}
    ensures IsFaithful(input, pos, |buffer|, left, Copy(c, input, pos, progress, buffer, left))
    decreases if progress < |input.content| then |input.content| - progress else 0
  {
    hide IsFaithful, Data, Written, Total;
    var block := ReadBlock(c, input, pos, buffer);
    if Over(c, block, left) {
      NothingIsFaithful(input, pos, buffer, left);
    } else {
      FaultFreeStep(c, input, pos, progress, buffer, left);
      FaultFreeCopy(c, input, pos + block.valid, progress + block.valid, block.buffer, Less1(left));
      var rest := Copy(c, input, pos + block.valid, progress + block.valid, block.buffer, Less1(left));
      FaithfulCons(input, pos, |buffer|, left, block, rest);
    }
  }

  lemma NothingIsFaithful(input: Input, pos: nat, buffer: seq<Byte>, left: Option<nat>)
    requires left == Some(0) || input.Delivered(pos, |buffer|) == 0
    ensures IsFaithful(input, pos, |buffer|, left, [])
  {
  }

  /** Three bytes in blocks of two: the last byte written is the one the first block left in the buffer. */
  lemma StaleTailIsWritten()
    ensures var input := Input([1, 2, 3], {});
            var blocks := Copy(Config(2, 0, 0, false), input, 0, 0, Zeros(2), None);
            Data(blocks) == [1, 2, 3] && Written(blocks) == [1, 2, 3, 2]
  {
    hide Copy, ReadBlock, Data, Written;
    var c, input := Config(2, 0, 0, false), Input([1, 2, 3], {});
    StaleReads(c, input);
    FaultFreeStep(c, input, 0, 0, Zeros(2), None);
    FaultFreeStep(c, input, 2, 2, [1, 2], None);
    CopyEnd(c, input, 3, 3, [3, 2], None);
    NothingWritten();
  }

  lemma StaleReads(c: Config, input: Input)
    requires c.blockSize == 2 && input == Input([1, 2, 3], {})
    ensures ReadBlock(c, input, 0, Zeros(2)) == Block(0, 2, false, [1, 2])
    ensures ReadBlock(c, input, 2, [1, 2]) == Block(2, 1, false, [3, 2])
    ensures ReadBlock(c, input, 3, [3, 2]) == Block(3, 0, false, [3, 2])
  {
  }

  // ------------------------------------------------------ errors and all bytes

  /** A block of a copy into a buffer of `size` bytes: zeros if a byte to be read is bad, and otherwise the bytes from
      its offset on, as far as the input goes, in front of what the buffer held. */
  ghost predicate IsRead(c: Config, input: Input, size: nat, previous: seq<Byte>, block: Block) {
    && |block.buffer| == size && block.valid > 0
    && (block.failed <==> exists b :: b in input.bad && block.offset <= b < block.offset + size && b < |input.content|)
    && (block.failed ==> block.valid == c.blockSize && forall i :: 0 <= i < size ==> block.buffer[i] == 0)
    && (!block.failed ==>
          && block.valid <= size && block.offset + block.valid <= |input.content|
          && (block.valid == size || block.offset + block.valid == |input.content|)
          && block.buffer[..block.valid] == input.content[block.offset..block.offset + block.valid]
          && |previous| == size && block.buffer[block.valid..] == previous[block.valid..])
  }

  /** Every block is read after the buffer of the one before. */
  ghost predicate ReadsInOrder(c: Config, input: Input, size: nat, buffer: seq<Byte>, blocks: seq<Block>) {
    forall k :: 0 <= k < |blocks| ==> IsRead(c, input, size, Before(buffer, blocks, k), blocks[k])
  }

  /** What the buffer holds before block `k`. */
  function Before(buffer: seq<Byte>, blocks: seq<Block>, k: nat): seq<Byte>
    requires k < |blocks|
  {
    if k == 0 then buffer else blocks[k - 1].buffer
  }

  /** Each block continues where the one before ended, or, after a failed one, at the skipped blocks plus the bytes
      counted. */
  ghost predicate Chained(c: Config, pos: nat, progress: nat, blocks: seq<Block>) {
    && (blocks != [] ==> blocks[0].offset == pos)
    && (forall k :: 0 <= k < |blocks| - 1 && !blocks[k].failed ==>
          blocks[k + 1].offset == blocks[k].offset + blocks[k].valid)
    && (forall k :: 0 <= k < |blocks| - 1 && blocks[k].failed ==>
          blocks[k + 1].offset == c.skip + progress + Total(blocks[..k + 1]))
  }

  /** Errors are ignored where there are any, and there is a next block unless the count is used up, errors end the
      copy, or nothing can be read. */
  ghost predicate Stops(c: Config, input: Input, pos: nat, progress: nat, size: nat, left: Option<nat>, blocks: seq<Block>) {
    && (forall k :: 0 <= k < |blocks| && blocks[k].failed ==> c.noError)
    && (left.Some? ==> |blocks| <= left.value)
    && (left == Some(|blocks|) || Ends(c, input, End(c, pos, progress, blocks), size))
  }

  ghost predicate IsCopy(c: Config, input: Input, pos: nat, progress: nat, buffer: seq<Byte>, left: Option<nat>,
                         blocks: seq<Block>) {
    && ReadsInOrder(c, input, |buffer|, buffer, blocks) && Chained(c, pos, progress, blocks)
    && Stops(c, input, pos, progress, |buffer|, left, blocks)
  }

  /** Where the copy would go on. */
  function End(c: Config, pos: nat, progress: nat, blocks: seq<Block>): nat {
    if blocks == [] then pos
    else
      var last := blocks[|blocks| - 1];
      if last.failed then c.skip + progress + Total(blocks) else last.offset + last.valid
  }

  /** Nothing can be read there, or a byte to be read is bad and that ends the copy. */
  ghost predicate Ends(c: Config, input: Input, pos: nat, size: nat) {
    || size == 0 || pos >= |input.content|
    || ((exists b :: b in input.bad && pos <= b < pos + size && b < |input.content|) && (!c.noError || c.blockSize == 0))
  }

  lemma ReadBlockIs(c: Config, input: Input, pos: nat, buffer: seq<Byte>)
    requires ReadBlock(c, input, pos, buffer).valid > 0
    ensures IsRead(c, input, |buffer|, buffer, ReadBlock(c, input, pos, buffer))
  {
    var n := input.Delivered(pos, |buffer|);
    assert input.Fails(pos, |buffer|) <==>
      exists b :: b in input.bad && pos <= b < pos + |buffer| && b < |input.content|;
  }

  lemma TotalHead(block: Block, rest: seq<Block>, k: nat)
    requires k <= |rest|
    ensures Total(([block] + rest)[..k + 1]) == block.valid + Total(rest[..k])
  {
    assert ([block] + rest)[..k + 1][0] == block && ([block] + rest)[..k + 1][1..] == rest[..k];
  }

  lemma ReadsCons(c: Config, input: Input, size: nat, buffer: seq<Byte>, block: Block, rest: seq<Block>)
    requires IsRead(c, input, size, buffer, block) && ReadsInOrder(c, input, size, block.buffer, rest)
    ensures ReadsInOrder(c, input, size, buffer, [block] + rest)
  {
    hide IsRead;
    var blocks := [block] + rest;
    forall k | 0 <= k < |blocks| ensures IsRead(c, input, size, Before(buffer, blocks, k), blocks[k]) {
      if k > 0 {
        assert IsRead(c, input, size, Before(block.buffer, rest, k - 1), rest[k - 1]);
        assert Before(block.buffer, rest, k - 1) == Before(buffer, blocks, k);
      }
    }
  }

  lemma ChainedCons(c: Config, pos: nat, progress: nat, block: Block, rest: seq<Block>)
    requires block.offset == pos
    requires Chained(c, if block.failed then c.skip + (progress + block.valid) else pos + block.valid, progress + block.valid,
                     rest)
    ensures Chained(c, pos, progress, [block] + rest)
  {
    hide Total;
    var blocks := [block] + rest;
    forall k | 0 <= k < |blocks| - 1 && blocks[k].failed
      ensures blocks[k + 1].offset == c.skip + progress + Total(blocks[..k + 1])
    {
      TotalHead(block, rest, k);
      if k == 0 {
        assert rest[..0] == [] && Total([]) == 0 by { NothingWritten(); }
      } else {
        assert rest[k - 1].failed && rest[k].offset == c.skip + (progress + block.valid) + Total(rest[..k]);
      }
    }
    forall k | 0 <= k < |blocks| - 1 && !blocks[k].failed
      ensures blocks[k + 1].offset == blocks[k].offset + blocks[k].valid
    {
      if k > 0 { assert !rest[k - 1].failed; }
    }
  }

  lemma StopsCons(c: Config, input: Input, pos: nat, progress: nat, size: nat, left: Option<nat>, block: Block,
                  rest: seq<Block>)
    requires block.offset == pos && (block.failed ==> c.noError) && left != Some(0)
    requires Stops(c, input, if block.failed then c.skip + (progress + block.valid) else pos + block.valid,
                   progress + block.valid, size, Less1(left), rest)
    ensures Stops(c, input, pos, progress, size, left, [block] + rest)
  {
    hide Ends, Total;
    var blocks := [block] + rest;
    TotalHead(block, rest, |rest|);
    assert blocks[..|rest| + 1] == blocks && rest[..|rest|] == rest;
    NothingWritten();
    assert rest != [] ==> blocks[|blocks| - 1] == rest[|rest| - 1];
    assert forall k :: 0 < k < |blocks| ==> blocks[k] == rest[k - 1];
  }

  /** With or without read errors, this is what a copy is. */
  lemma {:induction false} CopyIs(c: Config, input: Input, pos: nat, progress: nat, buffer: seq<Byte>, left: Option<nat>)
    requires progress <= pos
    ensures IsCopy(c, input, pos, progress, buffer, left, Copy(c, input, pos, progress, buffer, left))
    decreases if progress < |input.content| then |input.content| - progress else 0
  {
    hide Copy, ReadBlock, IsRead, ReadsInOrder, Chained, Stops;
    var block := ReadBlock(c, input, pos, buffer);
    BlockRead(c, input, pos, buffer);
    if Over(c, block, left) {
      CopyEnd(c, input, pos, progress, buffer, left);
      OverEnds(c, input, pos, buffer, left);
      NoCopy(c, input, pos, progress, buffer, left);
    } else {
      CopyStep(c, input, pos, progress, buffer, left);
      ReadBlockIs(c, input, pos, buffer);
      var next := if block.failed then c.skip + (progress + block.valid) else pos + block.valid;
      CopyIs(c, input, next, progress + block.valid, block.buffer, Less1(left));
      var rest := Copy(c, input, next, progress + block.valid, block.buffer, Less1(left));
      ReadsCons(c, input, |buffer|, buffer, block, rest);
      ChainedCons(c, pos, progress, block, rest);
      StopsCons(c, input, pos, progress, |buffer|, left, block, rest);
    }
  }

  lemma OverEnds(c: Config, input: Input, pos: nat, buffer: seq<Byte>, left: Option<nat>)
    requires Over(c, ReadBlock(c, input, pos, buffer), left)
    ensures left == Some(0) || Ends(c, input, pos, |buffer|)
  {
    assert input.Fails(pos, |buffer|) ==> exists b :: b in input.bad && pos <= b < pos + |buffer| && b < |input.content|;
  }

  lemma NoCopy(c: Config, input: Input, pos: nat, progress: nat, buffer: seq<Byte>, left: Option<nat>)
    requires left == Some(0) || Ends(c, input, pos, |buffer|)
    ensures IsCopy(c, input, pos, progress, buffer, left, [])
  {
  }

  lemma TimesSize(k: nat, size: nat)
    ensures (k + 1) * size == size + k * size
  {
  }

  /** Block `k` lies at `k` times the size of the buffer in the outputs. */
  lemma {:induction false} WrittenAt(blocks: seq<Block>, size: nat, k: nat)
    requires k < |blocks| && forall j :: 0 <= j < |blocks| ==> |blocks[j].buffer| == size
    ensures |Written(blocks)| == |blocks| * size && 0 <= k * size <= (k + 1) * size <= |Written(blocks)|
    ensures Written(blocks)[k * size..(k + 1) * size] == blocks[k].buffer
  {
    var rest := blocks[1..];
    WrittenLength(blocks, size);
    TimesSize(k, size);
    TimesSize(|blocks| - 1, size);
    if k > 0 {
      WrittenAt(rest, size, k - 1);
      TimesSize(k - 1, size);
      WrittenLength(rest, size);
      var all := Written(blocks);
      assert all == blocks[0].buffer + Written(rest);
      assert all[k * size..(k + 1) * size] == Written(rest)[(k - 1) * size..k * size];
    }
  }

  lemma {:induction false} WrittenLength(blocks: seq<Block>, size: nat)
    requires forall j :: 0 <= j < |blocks| ==> |blocks[j].buffer| == size
    ensures |Written(blocks)| == |blocks| * size
  {
    if blocks != [] {
      WrittenLength(blocks[1..], size);
      TimesSize(|blocks| - 1, size);
    }
  }

  // -------------------------------------------------- resuming after an error

  /** Some block follows one whose read failed. */
  ghost predicate ResumedAfterError(blocks: seq<Block>) {
    exists k :: 0 <= k < |blocks| - 1 && blocks[k].failed
  }

  /** Ignoring errors, some read of the copy fails, the count allows another block, and the place where the copy
      then goes on lies inside the input. */
  ghost predicate Resumes(c: Config, input: Input, start: nat, progress: nat, size: nat, left: Option<nat>) {
    c.noError && exists k: nat :: ResumesAt(c, input, start, progress + Capacity(k, size), size, left, k)
  }

  /** It is the read of block `k`, after `progress` bytes. */
  ghost predicate ResumesAt(c: Config, input: Input, start: nat, progress: nat, size: nat, left: Option<nat>, k: nat) {
    && (left.Some? ==> k + 1 < left.value)
    && input.Fails(start + progress, size)
    && c.skip + progress + c.blockSize < |input.content|
  }

  /** Every block of a copy comes from its own place unless skipped blocks differ from skipped bytes and some
      failed read is followed by another block, which the request and the input decide. */
  lemma CopyIsIdealIff(c: Config, input: Input)
    requires c.blockSize > 0
    ensures var buffer, left := Zeros(c.BufferSize()), Remaining(c, 0);
            Copy(c, input, c.Start(), 0, buffer, left) == Ideal(c, input, c.Start(), buffer, left) <==>
            c.Start() == c.skip || !Resumes(c, input, c.Start(), 0, c.BufferSize(), left)
  {
    hide Copy, Ideal, ResumedAfterError, Resumes;
    assert c.skip <= c.Start() by { assert c.Start() == c.skip + (c.blockSize - 1) * c.skip; }
    CopyFromStart(c, input, c.Start(), 0, Zeros(c.BufferSize()), Remaining(c, 0));
    ResumedIff(c, input, c.Start(), 0, Zeros(c.BufferSize()), Remaining(c, 0));
  }

  /** Skipping one block of two bytes, with a bad byte in the next one: the second block comes from offset 3,
      where 4 is its place. */
  lemma ResumesAtTheWrongPlace()
    ensures var c, input := Config(2, 0, 1, true), Input([0, 1, 2, 3, 4, 5, 6, 7], {3});
            var blocks := Copy(c, input, c.Start(), 0, Zeros(2), None);
            var ideal := Ideal(c, input, c.Start(), Zeros(2), None);
            && |blocks| >= 2 && blocks[0].offset == 2 && blocks[0].failed && blocks[1].offset == 3
            && |ideal| >= 2 && ideal[0].offset == 2 && ideal[1].offset == 4
  {
    var c, input := Config(2, 0, 1, true), Input([0, 1, 2, 3, 4, 5, 6, 7], {3});
    var first := ReadBlock(c, input, 2, Zeros(2));
    BlockRead(c, input, 2, Zeros(2));
    BlockRead(c, input, 3, first.buffer);
    BlockRead(c, input, 4, first.buffer);
    assert input.Fails(2, 2) by { assert 3 in input.bad; }
    CopyStep(c, input, 2, 0, Zeros(2), None);
    OffsetsOfFirst(c, input, 3, 2, first.buffer, None);
    IdealStep(c, input, 2, Zeros(2), None);
    IdealStep(c, input, 4, first.buffer, None);
  }

  /** Nothing fails where nothing is delivered, and what comes before a failing block is full. */
  lemma NoResumeAtEnd(c: Config, input: Input, start: nat, progress: nat, size: nat, left: Option<nat>)
    requires !c.noError || left == Some(0) || size == 0 || start + progress >= |input.content|
    ensures !Resumes(c, input, start, progress, size, left)
  {
  }

  lemma ResumesHere(c: Config, input: Input, start: nat, progress: nat, size: nat, left: Option<nat>)
    requires c.noError && input.Fails(start + progress, size)
    ensures Resumes(c, input, start, progress, size, left) <==>
      (left.Some? ==> 1 < left.value) && c.skip + progress + c.blockSize < |input.content|
  {
    assert Capacity(0, size) == 0;
    assert ResumesAt(c, input, start, progress, size, left, 0) <==>
      ResumesAt(c, input, start, progress + Capacity(0, size), size, left, 0);
  }

  lemma ResumesLater(c: Config, input: Input, start: nat, progress: nat, size: nat, left: Option<nat>)
    requires !input.Fails(start + progress, size) && left != Some(0)
    ensures Resumes(c, input, start, progress, size, left) <==> Resumes(c, input, start, progress + size, size, Less1(left))
  {
    hide Input.Fails;
    if k: nat :| ResumesAt(c, input, start, progress + Capacity(k, size), size, left, k) {
      assert k > 0 && progress + size + Capacity(k - 1, size) == progress + Capacity(k, size);
      assert ResumesAt(c, input, start, progress + size + Capacity(k - 1, size), size, Less1(left), k - 1);
    }
    if k: nat :| ResumesAt(c, input, start, progress + size + Capacity(k, size), size, Less1(left), k) {
      assert progress + size + Capacity(k, size) == progress + Capacity(k + 1, size);
      assert ResumesAt(c, input, start, progress + Capacity(k + 1, size), size, left, k + 1);
    }
  }

  /** A block follows a failed read of the copy exactly when the request makes it resume. */
  lemma {:induction false} ResumedIff(c: Config, input: Input, start: nat, progress: nat, buffer: seq<Byte>,
                                      left: Option<nat>)
    requires c.blockSize > 0 && c.skip <= start
    ensures ResumedAfterError(Copy(c, input, start + progress, progress, buffer, left)) <==>
      Resumes(c, input, start, progress, |buffer|, left)
    decreases if progress < |input.content| then |input.content| - progress else 0
  {
    hide Copy, ReadBlock, ResumedAfterError, Resumes;
    var pos := start + progress;
    var block := ReadBlock(c, input, pos, buffer);
    CopyEnd(c, input, pos, progress, buffer, left);
    BlockRead(c, input, pos, buffer);
    NothingResumed();
    if Over(c, block, left) {
      NoResumeAtEnd(c, input, start, progress, |buffer|, left);
    } else {
      var progress', left' := progress + block.valid, Less1(left);
      var next := if block.failed then c.skip + progress' else start + progress';
      var rest := Copy(c, input, next, progress', block.buffer, left');
      CopyStep(c, input, pos, progress, buffer, left);
      ResumedTail(block, rest);
      if block.failed {
        ResumesHere(c, input, start, progress, |buffer|, left);
        OffsetsOfFirst(c, input, next, progress', block.buffer, left');
        BlockRead(c, input, next, block.buffer);
      } else {
        ResumedIff(c, input, start, progress', block.buffer, left');
        ResumesLater(c, input, start, progress, |buffer|, left);
        if block.valid < |buffer| {
          NoResumeAtEnd(c, input, start, progress', |buffer|, left');
          NoResumeAtEnd(c, input, start, progress + |buffer|, |buffer|, left');
        }
      }
    }
  }

  /** The outcome of one read. */
  lemma BlockRead(c: Config, input: Input, pos: nat, buffer: seq<Byte>)
    ensures var block := ReadBlock(c, input, pos, buffer);
            && block.offset == pos && |block.buffer| == |buffer| && (block.failed <==> input.Fails(pos, |buffer|))
            && (block.failed ==> block.valid == c.blockSize && input.Delivered(pos, |buffer|) > 0)
            && (!block.failed ==> block.valid == input.Delivered(pos, |buffer|))
  {
  }

  lemma {:induction false} CopyFromStart(c: Config, input: Input, start: nat, progress: nat, buffer: seq<Byte>,
                                         left: Option<nat>)
    requires c.blockSize > 0 && c.skip <= start
    ensures var blocks := Copy(c, input, start + progress, progress, buffer, left);
            blocks == Ideal(c, input, start + progress, buffer, left) <==> start == c.skip || !ResumedAfterError(blocks)
    decreases if progress < |input.content| then |input.content| - progress else 0
  {
    hide Copy, Ideal, ReadBlock, ResumedAfterError;
    var pos := start + progress;
    var block := ReadBlock(c, input, pos, buffer);
    CopyEnd(c, input, pos, progress, buffer, left);
    IdealStep(c, input, pos, buffer, left);
    if Over(c, block, left) {
      NothingResumed();
    } else {
      var progress', left' := progress + block.valid, Less1(left);
      var next := if block.failed then c.skip + progress' else start + progress';
      var rest := Copy(c, input, next, progress', block.buffer, left');
      var ideal := Ideal(c, input, start + progress', block.buffer, left');
      CopyStep(c, input, pos, progress, buffer, left);
      SameTails(block, rest, ideal);
      ResumedTail(block, rest);
      if next == start + progress' {
        CopyFromStart(c, input, start, progress', block.buffer, left');
      } else {
        NothingResumed();
        OffsetsOfFirst(c, input, next, progress', block.buffer, left');
        IdealStopsLater(c, input, next, start + progress', block.buffer, left');
      }
    }
  }

  lemma CopyStep(c: Config, input: Input, pos: nat, progress: nat, buffer: seq<Byte>, left: Option<nat>)
    requires progress <= pos && !Over(c, ReadBlock(c, input, pos, buffer), left)
    ensures var block := ReadBlock(c, input, pos, buffer);
            var next := if block.failed then c.skip + (progress + block.valid) else pos + block.valid;
            && block.valid > 0 && (input.Delivered(pos, |buffer|) > 0 ==> progress < |input.content|)
            && input.Delivered(pos, |buffer|) > 0
            && Copy(c, input, pos, progress, buffer, left)
            == [block] + Copy(c, input, next, progress + block.valid, block.buffer, Less1(left))
  {
  }

  lemma IdealStep(c: Config, input: Input, pos: nat, buffer: seq<Byte>, left: Option<nat>)
    ensures var block := ReadBlock(c, input, pos, buffer);
            Ideal(c, input, pos, buffer, left) ==
            (if Over(c, block, left) then [] else [block] + Ideal(c, input, pos + block.valid, block.buffer, Less1(left)))
  {
  }

  lemma NothingResumed()
    ensures !ResumedAfterError([])
  {
  }

  lemma SameTails(block: Block, a: seq<Block>, b: seq<Block>)
    ensures [block] + a == [block] + b <==> a == b
  {
    assert ([block] + a)[1..] == a && ([block] + b)[1..] == b;
  }

  lemma ResumedTail(block: Block, rest: seq<Block>)
    ensures ResumedAfterError([block] + rest) <==> (rest != [] && block.failed) || ResumedAfterError(rest)
  {
    var blocks := [block] + rest;
    if k :| 0 <= k < |rest| - 1 && rest[k].failed {
      assert blocks[k + 1].failed;
    }
    if rest != [] && block.failed {
      assert blocks[0].failed;
    }
    if k :| 0 <= k < |blocks| - 1 && blocks[k].failed {
      assert k == 0 || rest[k - 1].failed;
    }
  }

  lemma OffsetsOfFirst(c: Config, input: Input, pos: nat, progress: nat, buffer: seq<Byte>, left: Option<nat>)
    requires progress <= pos
    ensures var blocks := Copy(c, input, pos, progress, buffer, left);
            && (blocks != [] ==> blocks[0].offset == pos)
            && (blocks == [] <==> Over(c, ReadBlock(c, input, pos, buffer), left))
  {
  }

  /** If the copy has stopped at `pos` although errors are ignored, it also stops further on. */
  lemma IdealStopsLater(c: Config, input: Input, pos: nat, later: nat, buffer: seq<Byte>, left: Option<nat>)
    requires c.blockSize > 0 && pos < later
    ensures var ideal := Ideal(c, input, later, buffer, left);
            && (ideal != [] ==> ideal[0].offset == later)
            && (c.noError && Over(c, ReadBlock(c, input, pos, buffer), left) ==> ideal == [])
  {
  }

  // -------------------------------------------------------------- the command

  /** The outputs that were opened hold the same bytes; the others are null. */
  ghost predicate AllHold(outputs: seq<Option<seq<Byte>>>, usable: seq<bool>, content: seq<Byte>) {
    && |outputs| == |usable|
    && forall k :: 0 <= k < |usable| ==> outputs[k] == if usable[k] then Some(content) else None
  }

  method OpenOutputs(usable: seq<bool>) returns (outputs: seq<Option<seq<Byte>>>, validOutput: bool)
    ensures AllHold(outputs, usable, []) && (validOutput <==> true in usable)
  {
    outputs, validOutput := [], false;
    for k := 0 to |usable|
      invariant |outputs| == k && (validOutput <==> true in usable[..k])
      invariant forall j :: 0 <= j < k ==> outputs[j] == if usable[j] then Some([]) else None
    {
      outputs := outputs + [if usable[k] then Some([]) else None];
      validOutput := validOutput || usable[k];
    }
    assert usable[..|usable|] == usable;
  }

  method WriteAll(outputs: seq<Option<seq<Byte>>>, buffer: seq<Byte>, ghost usable: seq<bool>, ghost content: seq<Byte>)
    returns (after: seq<Option<seq<Byte>>>)
    requires AllHold(outputs, usable, content)
    ensures AllHold(after, usable, content + buffer)
  {
    after := outputs;
    for k := 0 to |outputs|
      invariant |after| == |outputs|
      invariant forall j :: 0 <= j < |outputs| ==>
        after[j] == if !usable[j] then None else if j < k then Some(content + buffer) else Some(content)
    {
      if after[k].Some? {
        after := after[k := Some(after[k].value + buffer)];
      }
    }
  }

  lemma {:induction false} BlocksAppend(blocks: seq<Block>, last: Block)
    ensures Written(blocks + [last]) == Written(blocks) + last.buffer
    ensures Total(blocks + [last]) == Total(blocks) + last.valid
  {
    if blocks == [] {
      assert blocks + [last] == [last];
    } else {
      BlocksAppend(blocks[1..], last);
      assert (blocks + [last])[1..] == blocks[1..] + [last];
    }
  }

  /** How many blocks the count still allows. */
  function Remaining(c: Config, blockCount: nat): Option<nat> {
    if c.count == 0 then None else if blockCount <= c.count then Some(c.count - blockCount) else Some(0)
  }

  lemma {:induction false} CapacityIs(blocks: nat, size: nat)
    ensures Capacity(blocks, size) == blocks * size
  {
    if blocks > 0 { CapacityIs(blocks - 1, size); }
  }

  /** With or without read errors, no copy counts more than a block's bytes for a block, nor more blocks than the
      count allows. */
  lemma {:induction false} CopyBounds(c: Config, input: Input, pos: nat, progress: nat, buffer: seq<Byte>,
                                      left: Option<nat>)
    requires progress <= pos && |buffer| <= c.blockSize
    ensures var blocks := Copy(c, input, pos, progress, buffer, left);
            && Total(blocks) <= Capacity(|blocks|, c.blockSize) && (left.Some? ==> |blocks| <= left.value)
    decreases if progress < |input.content| then |input.content| - progress else 0
  {
    hide Copy, ReadBlock;
    var block := ReadBlock(c, input, pos, buffer);
    BlockRead(c, input, pos, buffer);
    if Over(c, block, left) {
      CopyEnd(c, input, pos, progress, buffer, left);
    } else {
      var next := if block.failed then c.skip + (progress + block.valid) else pos + block.valid;
      var rest := Copy(c, input, next, progress + block.valid, block.buffer, Less1(left));
      CopyStep(c, input, pos, progress, buffer, left);
      CopyBounds(c, input, next, progress + block.valid, block.buffer, Less1(left));
      assert ([block] + rest)[1..] == rest;
    }
  }

  /** The blocks are a copy of the input for the request, into a buffer of zeros as large as the low half of the block
      size; every usable output holds block `k` at `k` times that size, and nothing else. */
  ghost predicate HoldsCopy(c: Config, input: Input, outputs: seq<Option<seq<Byte>>>, usable: seq<bool>, blocks: seq<Block>) {
    && |outputs| == |usable|
    && var size := c.blockSize % 0x1_0000_0000;
    && IsCopy(c, input, c.blockSize * c.skip, 0, Zeros(size), if c.count == 0 then None else Some(c.count), blocks)
    && forall j :: 0 <= j < |usable| && usable[j] ==> outputs[j].Some? && IsLaidOut(outputs[j].value, blocks, size)
  }

  ghost predicate IsLaidOut(content: seq<Byte>, blocks: seq<Block>, size: nat) {
    |content| == |blocks| * size && forall k :: 0 <= k < |blocks| ==> LiesAt(content, k, size, blocks[k].buffer)
  }

  ghost predicate LiesAt(content: seq<Byte>, k: nat, size: nat, bytes: seq<Byte>) {
    0 <= k * size <= (k + 1) * size <= |content| && content[k * size..(k + 1) * size] == bytes
  }

  lemma LaidOut(blocks: seq<Block>, size: nat)
    requires forall j :: 0 <= j < |blocks| ==> |blocks[j].buffer| == size
    ensures IsLaidOut(Written(blocks), blocks, size)
  {
    hide Written;
    WrittenLength(blocks, size);
    forall k | 0 <= k < |blocks| ensures LiesAt(Written(blocks), k, size, blocks[k].buffer) {
      WrittenAt(blocks, size, k);
    }
  }

  lemma CopySizes(c: Config, input: Input, pos: nat, progress: nat, buffer: seq<Byte>, left: Option<nat>, blocks: seq<Block>)
    requires IsCopy(c, input, pos, progress, buffer, left, blocks)
    ensures forall j :: 0 <= j < |blocks| ==> |blocks[j].buffer| == |buffer|
  {
    forall j | 0 <= j < |blocks| ensures |blocks[j].buffer| == |buffer| {
      assert IsRead(c, input, |buffer|, Before(buffer, blocks, j), blocks[j]);
    }
  }

  lemma OutputsHoldCopy(c: Config, input: Input, outputs: seq<Option<seq<Byte>>>, usable: seq<bool>)
    requires AllHold(outputs, usable, Written(Copy(c, input, c.Start(), 0, Zeros(c.BufferSize()), Remaining(c, 0))))
    ensures HoldsCopy(c, input, outputs, usable, Copy(c, input, c.Start(), 0, Zeros(c.BufferSize()), Remaining(c, 0)))
  {
    hide Copy, Written, IsCopy, IsLaidOut;
    var blocks := Copy(c, input, c.Start(), 0, Zeros(c.BufferSize()), Remaining(c, 0));
    CopyIs(c, input, c.Start(), 0, Zeros(c.BufferSize()), Remaining(c, 0));
    CopySizes(c, input, c.Start(), 0, Zeros(c.BufferSize()), Remaining(c, 0), blocks);
    LaidOut(blocks, c.BufferSize());
  }

  /** Copies to the outputs that could be opened, if any. */
  method Run(c: Config, input: Input, usable: seq<bool>)
    returns (hr: HResult, outputs: seq<Option<seq<Byte>>>, blockCount: nat, progressBytes: nat, absoluteOffset: nat)
    requires usable != []
    ensures true !in usable ==> hr.Failed? && AllHold(outputs, usable, [])
    ensures true in usable ==>
      var blocks := Copy(c, input, c.Start(), 0, Zeros(c.BufferSize()), Remaining(c, 0));
      && hr == S_OK && AllHold(outputs, usable, Written(blocks))
      && blockCount == |blocks| && progressBytes == Total(blocks) && absoluteOffset == c.skip + progressBytes
    ensures progressBytes <= blockCount * c.blockSize && (c.count > 0 ==> blockCount <= c.count)
    ensures true in usable ==> exists blocks :: |blocks| == blockCount && HoldsCopy(c, input, outputs, usable, blocks)
  {
    hide Copy, Written, Total, HoldsCopy;
    blockCount, progressBytes, absoluteOffset := 0, 0, c.skip;
    var validOutput: bool;
    outputs, validOutput := OpenOutputs(usable);
    if !validOutput {
      hr := Failed(0);
      return;
    }
    outputs, blockCount, progressBytes, absoluteOffset := CopyBlocks(c, input, c.Start(), usable, outputs);
    CopyBounds(c, input, c.Start(), 0, Zeros(c.BufferSize()), Remaining(c, 0));
    CapacityIs(blockCount, c.blockSize);
    OutputsHoldCopy(c, input, outputs, usable);
    hr := S_OK;
  }

  /** Reads a block; after an error that does not count, zeros stand for it and the input is sought again. */
  method ReadNext(c: Config, input: Input, pos: nat, absoluteOffset: nat, buffer: seq<Byte>)
    returns (read: nat, next: nat, after: seq<Byte>)
    ensures var block := ReadBlock(c, input, pos, buffer);
            if block.failed && !c.noError then read == 0 && next == pos
            else
              && read == block.valid && after == block.buffer && (block.failed ==> block.valid == c.blockSize)
              && next == if block.failed then absoluteOffset + c.blockSize else pos + block.valid
  {
    read, next, after := 0, pos, buffer;
    if !input.Fails(pos, |buffer|) {
      read := input.Delivered(pos, |buffer|);
      after := Filled(input, pos, buffer);
      next := pos + read;
    } else if c.noError {
      after := Zeros(|buffer|);
      read := c.blockSize;
      next := absoluteOffset + c.blockSize;
    }
  }

  /** Where the loop stands. */
  datatype Position = Position(
    pos: nat, buffer: seq<Byte>, blockCount: nat, progressBytes: nat, absoluteOffset: nat)

  /** The blocks written so far and those of the rest, if the loop goes on, make the whole copy. */
  ghost predicate Copied(c: Config, input: Input, all: seq<Block>, written: seq<Block>, at: Position, done: bool) {
    && at.progressBytes <= at.pos && at.absoluteOffset == c.skip + at.progressBytes
    && at.blockCount == |written| && at.progressBytes == Total(written)
    && (done ==> all == written)
    && (!done ==>
          && Remaining(c, at.blockCount) != Some(0)
          && all == written + Copy(c, input, at.pos, at.progressBytes, at.buffer, Remaining(c, at.blockCount)))
  }

  /** One block more. */
  function Next(c: Config, block: Block, at: Position): Position {
    Position(if block.failed then at.absoluteOffset + c.blockSize else at.pos + block.valid, block.buffer,
             at.blockCount + 1, at.progressBytes + block.valid, at.absoluteOffset + block.valid)
  }

  lemma CopiedEnd(c: Config, input: Input, all: seq<Block>, written: seq<Block>, at: Position)
    requires Copied(c, input, all, written, at, false)
    requires Over(c, ReadBlock(c, input, at.pos, at.buffer), Remaining(c, at.blockCount))
    ensures Copied(c, input, all, written, at, true)
  {
    hide Copy, ReadBlock, Total;
    CopyEnd(c, input, at.pos, at.progressBytes, at.buffer, Remaining(c, at.blockCount));
    assert written + [] == written;
  }

  lemma CopiedNext(c: Config, input: Input, all: seq<Block>, written: seq<Block>, at: Position)
    requires Copied(c, input, all, written, at, false)
    requires !Over(c, ReadBlock(c, input, at.pos, at.buffer), Remaining(c, at.blockCount))
    ensures var block := ReadBlock(c, input, at.pos, at.buffer);
            var next := Next(c, block, at);
            && Copied(c, input, all, written + [block], next, Remaining(c, next.blockCount) == Some(0))
            && next.progressBytes > at.progressBytes && at.progressBytes < |input.content|
  {
    hide Copy, ReadBlock, Total;
    var left, block := Remaining(c, at.blockCount), ReadBlock(c, input, at.pos, at.buffer);
    var next := Next(c, block, at);
    CopyStep(c, input, at.pos, at.progressBytes, at.buffer, left);
    BlockRead(c, input, at.pos, at.buffer);
    BlocksAppend(written, block);
    var rest := Copy(c, input, next.pos, next.progressBytes, next.buffer, Less1(left));
    assert Less1(left) == Remaining(c, next.blockCount);
    assert written + ([block] + rest) == (written + [block]) + rest;
    if Less1(left) == Some(0) {
      CopyEnd(c, input, next.pos, next.progressBytes, next.buffer, Less1(left));
      assert (written + [block]) + [] == written + [block];
    }
  }

  /** One turn of the loop: the next block goes to all outputs, or the copy is over. */
  method CopyNext(c: Config, input: Input, at: Position, outputs: seq<Option<seq<Byte>>>,
                  ghost usable: seq<bool>, ghost all: seq<Block>, ghost written: seq<Block>)
    returns (next: Position, after: seq<Option<seq<Byte>>>, done: bool, ghost written': seq<Block>)
    requires Copied(c, input, all, written, at, false) && AllHold(outputs, usable, Written(written))
    ensures Copied(c, input, all, written', next, done) && AllHold(after, usable, Written(written'))
    ensures done || (next.progressBytes > at.progressBytes && at.progressBytes < |input.content|)
  {
    hide Copied, Copy, ReadBlock, Written, Total, AllHold;
    ghost var block := ReadBlock(c, input, at.pos, at.buffer);
    next, after, done, written' := at, outputs, true, written;
    var read, pos, buffer := ReadNext(c, input, at.pos, at.absoluteOffset, at.buffer);
    CopiedLeft(c, input, all, written, at);
    if read == 0 {
      CopiedEnd(c, input, all, written, at);
    } else {
      after := WriteAll(outputs, buffer, usable, Written(written));
      next := Position(pos, buffer, at.blockCount + 1, at.progressBytes + read, at.absoluteOffset + read);
      done := c.count > 0 && next.blockCount >= c.count;
      CopiedNext(c, input, all, written, at);
      BlocksAppend(written, block);
      written' := written + [block];
    }
  }

  lemma CopiedLeft(c: Config, input: Input, all: seq<Block>, written: seq<Block>, at: Position)
    requires Copied(c, input, all, written, at, false)
    ensures Remaining(c, at.blockCount) != Some(0)
  {
  }

  method CopyBlocks(c: Config, input: Input, start: nat, ghost usable: seq<bool>, empty: seq<Option<seq<Byte>>>)
    returns (outputs: seq<Option<seq<Byte>>>, blockCount: nat, progressBytes: nat, absoluteOffset: nat)
    requires AllHold(empty, usable, [])
    ensures var blocks := Copy(c, input, start, 0, Zeros(c.BufferSize()), Remaining(c, 0));
            && AllHold(outputs, usable, Written(blocks))
            && blockCount == |blocks| && progressBytes == Total(blocks) && absoluteOffset == c.skip + progressBytes
  {
    hide Copy, Written, Total, AllHold;
    outputs := empty;
    var at, done := Position(start, Zeros(c.BufferSize()), 0, 0, c.skip), false;
    ghost var written: seq<Block> := [];
    ghost var all := Copy(c, input, start, 0, at.buffer, Remaining(c, 0));
    NothingWritten();
    assert written + all == all;
    while !done
      invariant Copied(c, input, all, written, at, done) && AllHold(outputs, usable, Written(written))
      decreases !done, if at.progressBytes < |input.content| then |input.content| - at.progressBytes else 0
    {
      at, outputs, done, written := CopyNext(c, input, at, outputs, usable, all, written);
    }
    blockCount, progressBytes, absoluteOffset := at.blockCount, at.progressBytes, at.absoluteOffset;
  }

  lemma CopyEnd(c: Config, input: Input, pos: nat, progress: nat, buffer: seq<Byte>, left: Option<nat>)
    requires progress <= pos
    ensures Over(c, ReadBlock(c, input, pos, buffer), left) ==> Copy(c, input, pos, progress, buffer, left) == []
  {
  }

  lemma NothingWritten()
    ensures Written([]) == [] && Data([]) == [] && Total([]) == 0
  {
  }
}
