/** NOR flash: a write can only clear bits, an erase sets a whole range to 0xff. The SPI driver behind it is
    not part of this model. */
module NorFlash {
  import Bits
  import Division
  import opened Words

  const BLANK: Byte := 0xFF

  function Meet(old_: Byte, new_: Byte): Byte { old_ & new_ }

  /** A bit is set afterwards exactly if it was set and is to be set: a write can only clear bits. */
  lemma MeetBits(old_: Byte, new_: Byte, b: Bits.Index)
    ensures Bits.ByteBit(Meet(old_, new_), b) <==> Bits.ByteBit(old_, b) && Bits.ByteBit(new_, b)
  {
  }

  lemma MeetBlank(b: Byte)
    ensures Meet(BLANK, b) == b && Meet(b, b) == b
  {
  }

  lemma OnlyClears(old_: Byte, new_: Byte)
    ensures Meet(old_, new_) == new_ <==> new_ & !old_ == 0
  {
  }

  lemma MeetTwice(a: Byte, b: Byte)
    ensures Meet(Meet(a, b), b) == Meet(a, b)
  {
  }

  function Program(mem: seq<Byte>, adr: nat, data: seq<Byte>): (r: seq<Byte>)
    ensures |r| == |mem|
  {
    seq(|mem|, i requires 0 <= i < |mem| => if adr <= i < adr + |data| then Meet(mem[i], data[i - adr]) else mem[i])
  }

  function Erase(mem: seq<Byte>, adr: nat, size: nat): (r: seq<Byte>)
    ensures |r| == |mem|
  {
    seq(|mem|, i requires 0 <= i < |mem| => if adr <= i < adr + size then BLANK else mem[i])
  }

  /** The start of the block a byte is in. */
  function BlockOf(adr: int, eraseSize: nat): int
    requires eraseSize > 0
  {
    adr - adr % eraseSize
  }

  lemma BlockBounds(adr: nat, eraseSize: nat)
    requires eraseSize > 0
    ensures 0 <= BlockOf(adr, eraseSize) <= adr < BlockOf(adr, eraseSize) + eraseSize
  {
  }

  /** The block of `adr` is the only block start within one block size below it. */
  lemma BlockUnique(adr: nat, start: nat, eraseSize: nat)
    requires eraseSize > 0
    requires BlockOf(start, eraseSize) == start <= adr < start + eraseSize
    ensures BlockOf(adr, eraseSize) == start
  {
    assert start == start / eraseSize * eraseSize;
    Division.Unique(adr, start / eraseSize, adr - start, eraseSize);
  }

  lemma BlockNext(start: nat, eraseSize: nat)
    requires eraseSize > 0 && BlockOf(start, eraseSize) == start
    ensures BlockOf(start + eraseSize, eraseSize) == start + eraseSize
  {
    assert start == start / eraseSize * eraseSize;
    assert (start / eraseSize + 1) * eraseSize == start + eraseSize;
    Division.Unique(start + eraseSize, start / eraseSize + 1, 0, eraseSize);
  }

  lemma BlockIsBlock(adr: nat, eraseSize: nat)
    requires eraseSize > 0
    ensures 0 <= BlockOf(adr, eraseSize) && BlockOf(BlockOf(adr, eraseSize), eraseSize) == BlockOf(adr, eraseSize)
  {
    assert adr == adr / eraseSize * eraseSize + adr % eraseSize;
    Division.Unique(BlockOf(adr, eraseSize), adr / eraseSize, 0, eraseSize);
  }

  // ---- The device ----

  datatype Op = Erased(adr: int, size: nat) | Programmed(adr: int, len: nat)

  /** The contents, and the erase and write commands given so far. */
  datatype Device = Device(mem: seq<Byte>, ops: seq<Op>)

  function ProgramDevice(d: Device, adr: nat, data: seq<Byte>): Device {
    Device(Program(d.mem, adr, data), d.ops + [Programmed(adr, |data|)])
  }

  function EraseDevice(d: Device, adr: nat, size: nat): Device {
    Device(Erase(d.mem, adr, size), d.ops + [Erased(adr, size)])
  }

  class Flash {
    const mem: array<Byte>
    const pageSize: nat
    const eraseSize: nat
    ghost var ops: seq<Op>

    ghost function State(): Device
      reads this, mem
    {
      Device(mem[..], ops)
    }

    constructor (contents: seq<Byte>, pageSize: nat, eraseSize: nat)
      ensures State() == Device(contents, []) && fresh(mem)
      ensures this.pageSize == pageSize && this.eraseSize == eraseSize
    {
      this.pageSize := pageSize;
      this.eraseSize := eraseSize;
      mem := new Byte[|contents|](i requires 0 <= i < |contents| => contents[i]);
      ops := [];
      new;
      assert mem[..] == contents;
    }

    method Read(adr: nat, len: nat) returns (data: seq<Byte>)
      requires adr + len <= mem.Length
      ensures data == mem[adr..adr + len]
    {
      data := mem[adr..adr + len];
    }

    method Write(adr: nat, data: seq<Byte>)
      modifies `ops, mem
      ensures State() == ProgramDevice(old(State()), adr, data)
      ensures forall i, b: Bits.Index | 0 <= i < mem.Length && adr <= i < adr + |data| ::
                Bits.ByteBit(mem[i], b) <==> Bits.ByteBit(old(mem[i]), b) && Bits.ByteBit(data[i - adr], b)
      ensures forall i | 0 <= i < mem.Length && !(adr <= i < adr + |data|) :: mem[i] == old(mem[i])
    {
      hide Meet, Bits.ByteBit;
      forall i | 0 <= i < mem.Length && adr <= i < adr + |data| {
        mem[i] := Meet(mem[i], data[i - adr]);
      }
      ops := ops + [Programmed(adr, |data|)];
      assert mem[..] == Program(old(mem[..]), adr, data);
      forall i, b: Bits.Index | 0 <= i < mem.Length && adr <= i < adr + |data|
        ensures Bits.ByteBit(mem[i], b) <==> Bits.ByteBit(old(mem[i]), b) && Bits.ByteBit(data[i - adr], b)
      {
        MeetBits(old(mem[i]), data[i - adr], b);
      }
    }

    method EraseRange(adr: nat, size: nat)
      modifies `ops, mem
      ensures State() == EraseDevice(old(State()), adr, size)
    {
      forall i | 0 <= i < mem.Length && adr <= i < adr + size {
        mem[i] := BLANK;
      }
      ops := ops + [Erased(adr, size)];
      assert mem[..] == Erase(old(mem[..]), adr, size);
    }
  }
}
