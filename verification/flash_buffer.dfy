/** The one-block write-back buffer of the flash controller, and the plain array of blocks it
    stands for.  Device input and output succeed. */
module FlashBuffer {

  type byte = b: nat | b < 256
  type Block = seq<byte>

  /** `bytes` written into a block at `pos`. */
  function Patch(b: Block, pos: nat, bytes: seq<byte>): Block
    requires pos + |bytes| <= |b|
  {
    b[..pos] + bytes + b[pos + |bytes|..]
  }

  /** A patch replaces the bytes it covers and keeps the others. */
  lemma PatchBytes(block: Block, pos: nat, bytes: seq<byte>, i: nat)
    requires pos + |bytes| <= |block| && i < |block|
    ensures |Patch(block, pos, bytes)| == |block|
    ensures Patch(block, pos, bytes)[i] == if pos <= i < pos + |bytes| then bytes[i - pos] else block[i]
  {
  }

  class Blockbuffer {
    const width: nat
    const buf: array<byte>
    var offs: nat
    var dirty: bool
    var active: bool
    var device: seq<Block>

    constructor (w: nat, dev: seq<Block>)
      requires forall i :: 0 <= i < |dev| ==> |dev[i]| == w
      ensures Valid() && fresh(buf)
      ensures width == w && Blocks() == dev && device == dev && !active
    {
      width := w;
      buf := new byte[w];
      offs, dirty, active, device := 0, false, false, dev;
    }

    ghost predicate Valid()
      reads this, buf
    {
      && buf.Length == width
      && (forall i :: 0 <= i < |device| ==> |device[i]| == width)
      && (active ==> offs < |device| && (!dirty ==> device[offs] == buf[..]))
      && (!active ==> !dirty)
    }

    /** The block array the buffer and the device together stand for. */
    ghost function Blocks(): seq<Block>
      reads this, buf
      requires Valid()
    {
      if active then device[offs := buf[..]] else device
    }

    method WriteBlock(block: nat)
      requires buf.Length == width && block < |device|
      modifies this`device, this`dirty
      ensures device == old(device)[block := buf[..]] && !dirty
    {
      device := device[block := buf[..]];
      dirty := false;
    }

    method ReadBlock(block: nat)
      requires buf.Length == width && block < |device| && |device[block]| == width
      modifies this`dirty, buf
      ensures buf[..] == device[block] && !dirty
    {
      forall i | 0 <= i < width {
        buf[i] := device[block][i];
      }
      dirty := false;
    }

    /** Moves the buffer to a block, committing the one it held. */
    method SetPos(block: nat)
      requires Valid() && block < |device|
      modifies this, buf
      ensures Valid() && active && offs == block
      ensures Blocks() == old(Blocks()) && |device| == |old(device)|
    {
      if block != offs || !active {
        if dirty && active {
          WriteBlock(offs);
        }
        assert device == old(Blocks());
        offs := block;
        ReadBlock(block);
        active := true;
        assert device[offs := buf[..]] == device;
      }
    }

    method SetData(source: seq<byte>, pos: nat)
      requires Valid() && active && pos + |source| <= width
      modifies this`dirty, buf
      ensures Valid() && Blocks() == old(Blocks())[offs := Patch(old(Blocks())[offs], pos, source)]
    {
      ghost var before := buf[..];
      forall i | 0 <= i < |source| {
        buf[pos + i] := source[i];
      }
      dirty := true;
      assert buf[..] == Patch(before, pos, source);
    }

    method GetData(pos: nat, length: nat) returns (target: seq<byte>)
      requires Valid() && active && pos + length <= width
      ensures target == Blocks()[offs][pos..pos + length]
    {
      target := buf[pos..pos + length];
    }

    /** Commits what is pending; afterwards the device is the block array. */
    method Clear()
      requires Valid()
      modifies this
      ensures Valid() && !active && device == old(Blocks()) && Blocks() == old(Blocks())
    {
      if active && dirty {
        WriteBlock(offs);
      }
      assert device == old(Blocks());
      active := false;
      dirty := false;
    }
  }

  // ---------------------------------------------------------------- the controller

  /** A guest access: selecting a block, or reading or writing within the selected block. */
  datatype Access = Select(block: nat) | Write(pos: nat, bytes: seq<byte>) | Read(pos: nat, length: nat)

  /** The controller as a plain array of blocks. */
  datatype Plain = Plain(blocks: seq<Block>, target: nat, answers: seq<seq<byte>>)

  predicate Legal(p: Plain, width: nat, a: Access) {
    match a
    case Select(_) => true
    case Write(pos, bytes) => p.target < |p.blocks| && pos + |bytes| <= width
    case Read(pos, length) => p.target < |p.blocks| && pos + length <= width
  }

  function Step(p: Plain, width: nat, a: Access): Plain
    requires Legal(p, width, a) && forall i :: 0 <= i < |p.blocks| ==> |p.blocks[i]| == width
    ensures forall i :: 0 <= i < |Step(p, width, a).blocks| ==> |Step(p, width, a).blocks[i]| == width
    ensures |Step(p, width, a).blocks| == |p.blocks|
  {
    match a
    case Select(block) => p.(target := block)
    case Write(pos, bytes) => p.(blocks := p.blocks[p.target := Patch(p.blocks[p.target], pos, bytes)])
    case Read(pos, length) => p.(answers := p.answers + [p.blocks[p.target][pos..pos + length]])
  }

  /** Is every access legal where it happens?  The source asserts the block bound. */
  predicate AllLegal(p: Plain, width: nat, accesses: seq<Access>)
    requires forall i :: 0 <= i < |p.blocks| ==> |p.blocks[i]| == width
    decreases |accesses|
  {
    accesses == [] || (Legal(p, width, accesses[0]) && AllLegal(Step(p, width, accesses[0]), width, accesses[1..]))
  }

  function RunPlain(p: Plain, width: nat, accesses: seq<Access>): Plain
    requires forall i :: 0 <= i < |p.blocks| ==> |p.blocks[i]| == width
    requires AllLegal(p, width, accesses)
    decreases |accesses|
  {
    if accesses == [] then p else RunPlain(Step(p, width, accesses[0]), width, accesses[1..])
  }

  class Flashcontroller {
    const blockBuf: Blockbuffer
    var targetBlock: nat

    constructor (width: nat, dev: seq<Block>)
      requires forall i :: 0 <= i < |dev| ==> |dev[i]| == width
      ensures fresh(blockBuf) && fresh(blockBuf.buf)
      ensures blockBuf.Valid() && blockBuf.width == width && blockBuf.Blocks() == dev && targetBlock == 0
    {
      blockBuf := new Blockbuffer(width, dev);
      targetBlock := 0;
    }

    method WriteData(pos: nat, bytes: seq<byte>)
      requires blockBuf.Valid() && targetBlock < |blockBuf.device| && pos + |bytes| <= blockBuf.width
      modifies blockBuf, blockBuf.buf
      ensures blockBuf.Valid()
      ensures var was := old(blockBuf.Blocks());
              targetBlock < |was| && pos + |bytes| <= |was[targetBlock]| &&
              blockBuf.Blocks() == was[targetBlock := Patch(was[targetBlock], pos, bytes)]
    {
      blockBuf.SetPos(targetBlock);
      blockBuf.SetData(bytes, pos);
    }

    method ReadData(pos: nat, length: nat) returns (target: seq<byte>)
      requires blockBuf.Valid() && targetBlock < |blockBuf.device| && pos + length <= blockBuf.width
      modifies blockBuf, blockBuf.buf
      ensures blockBuf.Valid() && blockBuf.Blocks() == old(blockBuf.Blocks())
      ensures targetBlock < |blockBuf.Blocks()| && pos + length <= |blockBuf.Blocks()[targetBlock]|
      ensures target == blockBuf.Blocks()[targetBlock][pos..pos + length]
    {
      blockBuf.SetPos(targetBlock);
      target := blockBuf.GetData(pos, length);
    }

    /** Write-back refinement: any sequence of accesses and the final commit leave on the device,
        and answer to the reads, exactly what a plain array of blocks would. */
    method Serve(accesses: seq<Access>) returns (answers: seq<seq<byte>>)
      requires blockBuf.Valid()
      requires AllLegal(Plain(blockBuf.Blocks(), targetBlock, []), blockBuf.width, accesses)
      modifies this, blockBuf, blockBuf.buf
      ensures blockBuf.Valid()
      ensures var end := RunPlain(Plain(old(blockBuf.Blocks()), old(targetBlock), []), blockBuf.width, accesses);
              blockBuf.device == end.blocks && answers == end.answers && targetBlock == end.target
    {
      answers := [];
      ghost var start := Plain(blockBuf.Blocks(), targetBlock, []);
      var i := 0;
      while i < |accesses|
        invariant i <= |accesses| && blockBuf.Valid()
        invariant AllLegal(Plain(blockBuf.Blocks(), targetBlock, answers), blockBuf.width, accesses[i..])
        invariant RunPlain(start, blockBuf.width, accesses)
               == RunPlain(Plain(blockBuf.Blocks(), targetBlock, answers), blockBuf.width, accesses[i..])
      {
        assert accesses[i..][0] == accesses[i] && accesses[i..][1..] == accesses[i + 1..];
        match accesses[i] {
          case Select(block) =>
            targetBlock := block;
          case Write(pos, bytes) =>
            WriteData(pos, bytes);
          case Read(pos, length) =>
            var target := ReadData(pos, length);
            answers := answers + [target];
        }
        i := i + 1;
      }
      assert accesses[i..] == [];
      blockBuf.Clear();
    }
  }
}
