/**
 Byte lengths as zero-based block counts: GRPCSyncServer::WriteBlock of src/net.h and the direct
 path of src/block_rw_nvmeof.cc. The count goes into the 16-bit NLB field of the Write command
 (section 3.2.6 of the NVM Command Set Specification 1.0).
 */
module BlockGeometry {
  import opened Arithmetic

  /** Values of the 16-bit NLB field. */
  const NLB_RANGE: nat := TWO_TO_THE_16

  /** The division and remainder of C, which round towards zero. */
  function CDiv(a: int, b: nat): int
    requires b > 0
  {
    if a >= 0 then a / b else -(-a / b)
  }

  function CMod(a: int, b: nat): int
    requires b > 0
  {
    a - b * CDiv(a, b)
  }

  /** The count WriteBlock computes, before it is stored. */
  function Count(size: int, bs: nat): int
    requires bs > 0
  {
    if CMod(size, bs) != 0 then CDiv(size, bs) else CDiv(size, bs) - 1
  }

  /** args.nlb: the count cut to the width of the field. */
  function Nlb(size: int, bs: nat): (nlb: nat)
    requires bs > 0
    ensures nlb < NLB_RANGE
  {
    Count(size, bs) % NLB_RANGE
  }

  /** args.nlb as the direct path computes it: stored first, decremented afterwards. */
  function DirectNlb(size: int, bs: nat): nat
    requires bs > 0
  {
    var nlb := CDiv(size, bs) % NLB_RANGE;
    if CMod(size, bs) == 0 then (nlb - 1) % NLB_RANGE else nlb
  }

  function ActualLen(size: int, bs: nat): nat
    requires bs > 0
  {
    (Nlb(size, bs) + 1) * bs
  }

  lemma DirectPathAgrees(size: int, bs: nat)
    requires bs > 0
    ensures DirectNlb(size, bs) == Nlb(size, bs)
  {
  }

  /** The count before it is cut to 16 bits: one less than the blocks the bytes span. */
  lemma UncutCount(size: int, bs: nat)
    requires bs > 0 && size > 0
    ensures Count(size, bs) >= 0
    ensures bs * Count(size, bs) < size <= bs * (Count(size, bs) + 1)
  {
    DivModSplit(size, bs);
    var d, r := size / bs, size % bs;
    assert CDiv(size, bs) == d;
    assert CMod(size, bs) == size - bs * d == r;
    assert Count(size, bs) == if r != 0 then d else d - 1;
    Distribute(bs, d);
  }

  lemma Distribute(c: nat, d: int)
    ensures c * (d + 1) == c * d + c && c * (d - 1) == c * d - c && c * 0 == 0
  {
  }

  /** The rounded length is the least multiple of the block size that holds the bytes exactly when
      there is something to write and the count fits its field. In particular a zero size asks for
      65536 blocks. */
  lemma LengthExactIff(size: int, bs: nat)
    requires bs > 0
    ensures size <= ActualLen(size, bs) < size + bs <==> 0 < size <= NLB_RANGE * bs
  {
    if 0 < size <= NLB_RANGE * bs {
      LengthInRange(size, bs);
    } else {
      LengthBounds(size, bs);
      if size == 0 { ZeroSize(bs); }
    }
  }

  lemma LengthInRange(size: int, bs: nat)
    requires bs > 0 && 0 < size <= NLB_RANGE * bs
    ensures size <= ActualLen(size, bs) < size + bs
  {
    hide Count;
    var q := Count(size, bs);
    UncutCount(size, bs);
    if q >= NLB_RANGE { MulMonotone(bs, NLB_RANGE, q); }
    SmallMod(q, NLB_RANGE);
    Distribute(bs, q);
  }

  lemma LengthBounds(size: int, bs: nat)
    requires bs > 0
    ensures bs <= ActualLen(size, bs) <= NLB_RANGE * bs
  {
    hide Count;
    MulMonotone(bs, Nlb(size, bs) + 1, NLB_RANGE);
    MulMonotone(bs, 1, Nlb(size, bs) + 1);
  }

  /** A zero size asks for 65536 blocks. */
  lemma ZeroSize(bs: nat)
    requires bs > 0
    ensures Nlb(0, bs) == NLB_RANGE - 1 && ActualLen(0, bs) == NLB_RANGE * bs
  {
    DivModUnique(0, bs, 0, 0);
    Distribute(bs, 0);
    assert Count(0, bs) == -1;
  }

  /** A caller who sends exactly the bytes it announces overruns the buffer exactly when their block
      count does not fit its field. */
  lemma HonestOverrunIff(size: nat, bs: nat)
    requires bs > 0
    ensures size > ActualLen(size, bs) <==> size > NLB_RANGE * bs
  {
    LengthBounds(size, bs);
    if 0 < size <= NLB_RANGE * bs {
      LengthInRange(size, bs);
    }
  }

  /** One byte more than 32 MB on a device with 512-byte blocks: the buffer has one block. */
  lemma OverrunAt32MB()
    ensures ActualLen(33_554_433, 512) == 512
  {
    DivModUnique(33_554_433, 512, 65536, 1);
    DivModUnique(65536, NLB_RANGE, 1, 0);
  }

  /** The reported end block is the block of the last byte. */
  lemma EndBlockIsLast(start: nat, size: int, bs: nat)
    requires bs > 0 && 0 < size <= NLB_RANGE * bs
    ensures (start * bs + size - 1) / bs == start + Nlb(size, bs)
  {
    hide Count;
    LengthInRange(size, bs);
    var nlb := Nlb(size, bs);
    var r := size - 1 - bs * nlb;
    Distribute(bs, nlb);
    assert ActualLen(size, bs) == bs * (nlb + 1);
    assert start * bs + size - 1 == bs * (start + nlb) + r;
    DivModUnique(start * bs + size - 1, bs, start + nlb, r);
  }

  // ---------------------------------------------------------------------------- the device

  /** The contents with `data` laid over them from byte `at` on. */
  function Splice(contents: seq<byte>, at: nat, data: seq<byte>): (r: seq<byte>)
    requires at + |data| <= |contents|
    ensures |r| == |contents|
    ensures r[at..at + |data|] == data
    ensures r[..at] == contents[..at] && r[at + |data|..] == contents[at + |data|..]
  {
    contents[..at] + data + contents[at + |data|..]
  }

  /** Writes to disjoint ranges commute. */
  lemma SpliceCommutes(contents: seq<byte>, at: nat, data: seq<byte>, at': nat, data': seq<byte>)
    requires at + |data| <= at' && at' + |data'| <= |contents|
    ensures Splice(Splice(contents, at, data), at', data') == Splice(Splice(contents, at', data'), at, data)
  {
    var end, end' := at + |data|, at' + |data'|;
    var both := contents[..at] + data + contents[end..at'] + data' + contents[end'..];
    assert Splice(Splice(contents, at, data), at', data') == both;
    assert Splice(Splice(contents, at', data'), at, data) == both;
  }

  /** Block writes with disjoint block ranges commute. */
  lemma BlockWritesCommute(contents: seq<byte>, bs: nat, start: nat, end: nat, data: seq<byte>,
                           start': nat, end': nat, data': seq<byte>)
    requires bs > 0 && start <= end && start' <= end'
    requires |data| == (end - start + 1) * bs && |data'| == (end' - start' + 1) * bs
    requires start * bs + |data| <= |contents| && start' * bs + |data'| <= |contents|
    requires end < start' || end' < start
    ensures Splice(Splice(contents, start * bs, data), start' * bs, data') ==
            Splice(Splice(contents, start' * bs, data'), start * bs, data)
  {
    assert start * bs + |data| == (end + 1) * bs && start' * bs + |data'| == (end' + 1) * bs;
    if end < start' {
      MulMonotone(bs, end + 1, start');
      SpliceCommutes(contents, start * bs, data, start' * bs, data');
    } else {
      MulMonotone(bs, end' + 1, start);
      SpliceCommutes(contents, start' * bs, data', start * bs, data);
    }
  }

  /** A Write command the device was sent, and whether it succeeded. */
  datatype Command = Command(slba: int, nlb: nat, ok: bool)

  class BlockDevice {
    const blockSize: nat
    var contents: seq<byte>
    ghost var commands: seq<Command>   // every command sent, in order

    constructor (blockSize: nat, contents: seq<byte>)
      requires blockSize > 0
      ensures this.blockSize == blockSize && this.contents == contents && commands == []
    {
      this.blockSize, this.contents, commands := blockSize, contents, [];
    }

    /** nvme_write: blocks slba, ..., slba + nlb receive the data, or the command fails. */
    method NvmeWrite(slba: int, nlb: nat, data: seq<byte>) returns (ok: bool)
      requires |data| == (nlb + 1) * blockSize
      modifies this`contents, this`commands
      ensures commands == old(commands) + [Command(slba, nlb, ok)]
      ensures ok ==> 0 <= slba && slba * blockSize + |data| <= |old(contents)|
      ensures ok ==> contents == Splice(old(contents), slba * blockSize, data)
      ensures !ok ==> contents == old(contents)
    {
      var fails: bool := *;
      ok := !fails && 0 <= slba && slba * blockSize + |data| <= |contents|;
      if ok {
        contents := Splice(contents, slba * blockSize, data);
      }
      commands := commands + [Command(slba, nlb, ok)];
    }
  }

  /** How a call ends: with the last block written, with an error, or with a payload copied past
      the end of the buffer made for it, after which nothing more can be said. */
  datatype Reply = EndBlock(block: int) | WriteError | HeapOverrun

  class GRPCSyncServer {
    const device: BlockDevice

    constructor (device: BlockDevice)
      ensures this.device == device
    {
      this.device := device;
    }

    /** GRPCSyncServer::WriteBlock. The code computes how much of the payload fits and copies all of
        it nevertheless. The bytes behind a shorter payload are whatever the fresh buffer held. */
    method WriteBlock(start: int, size: int, data: seq<byte>) returns (reply: Reply)
      requires device.blockSize > 0
      modifies device`contents, device`commands
      // the device is sent one command, and its answer decides; none after an overrun
      ensures device.commands == old(device.commands) +
        if reply.HeapOverrun? then [] else [Command(start, Nlb(size, device.blockSize), reply.EndBlock?)]
      ensures reply.HeapOverrun? ==> device.contents == old(device.contents)
      ensures reply.HeapOverrun? <==> |data| > ActualLen(size, device.blockSize)
      ensures reply.WriteError? ==> device.contents == old(device.contents)
      ensures reply.EndBlock? ==>
        var bs := device.blockSize;
        var from, to := start * bs, (reply.block + 1) * bs;
        && reply.block == start + Nlb(size, bs)
        && 0 <= from <= from + |data| <= to <= |old(device.contents)| == |device.contents|
        && device.contents[from..from + |data|] == data
        && device.contents[..from] == old(device.contents[..from])
        && device.contents[to..] == old(device.contents)[to..]
      ensures reply.EndBlock? && 0 < size <= NLB_RANGE * device.blockSize ==>
        reply.block == (start * device.blockSize + size - 1) / device.blockSize
    {
      var bs := device.blockSize;
      var nlb := Nlb(size, bs);
      var actualLen := (nlb + 1) * bs;
      if |data| > actualLen {
        return HeapOverrun;
      }
      var buffer := FreshBuffer(actualLen);
      buffer := data + buffer[|data|..];
      var ok := device.NvmeWrite(start, nlb, buffer);
      if !ok {
        return WriteError;
      }
      assert (start + nlb + 1) * bs == start * bs + actualLen;
      assert device.contents[start * bs..start * bs + |data|] ==
             device.contents[start * bs..start * bs + |buffer|][..|data|];
      if 0 < size <= NLB_RANGE * bs {
        EndBlockIsLast(start, size, bs);
      }
      reply := EndBlock(start + nlb);
    }

    /** new char[n]: n bytes of unspecified contents. */
    method FreshBuffer(n: nat) returns (b: seq<byte>)
      ensures |b| == n
    {
      b := [];
      for i := 0 to n
        invariant |b| == i
      {
        var x: byte := *;
        b := b + [x];
      }
    }
  }
}
