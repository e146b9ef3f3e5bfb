/** Unsigned 32-bit words as integers, with wrap-around written out where it can happen, and bytes. */
module Words {

  const WORDS := 0x1_0000_0000

  type Word = x: int | 0 <= x < 0x1_0000_0000

  type Byte = bv8

  function Value(b: Byte): (v: int)
    ensures 0 <= v < 256
  {
    b as int
  }

  function Digit(n: int): Byte
    requires 0 <= n < 256
  {
    n as Byte
  }

  lemma Successor(b: Byte)
    requires b < 255
    ensures (b + 1) as int == b as int + 1
  {
  }

  /** Every number below 256 is the value of a byte. */
  lemma {:induction false} ByteOf(n: int) returns (b: Byte)
    requires 0 <= n < 256
    ensures Value(b) == n
    decreases n
  {
    b := 0;
    if n > 0 {
      b := ByteOf(n - 1);
      Successor(b);
      b := b + 1;
    }
  }

  lemma FromValue(b: Byte)
    ensures (b as int) as Byte == b
  {
  }

  lemma DigitOfValue(b: Byte)
    ensures Digit(Value(b)) == b
  {
    FromValue(b);
  }

  lemma DigitRoundTrip(n: int)
    requires 0 <= n < 256
    ensures Value(Digit(n)) == n
  {
    var b := ByteOf(n);
    FromValue(b);
  }

  // ---- Data in several buffers ----

  function Flat(buffers: seq<seq<Byte>>): seq<Byte> {
    if buffers == [] then [] else Flat(buffers[..|buffers| - 1]) + buffers[|buffers| - 1]
  }

  lemma FlatSplits(buffers: seq<seq<Byte>>)
    requires buffers != []
    ensures Flat(buffers) == Flat(buffers[..|buffers| - 1]) + buffers[|buffers| - 1]
  {
  }

  lemma {:induction false} FlatCons(buffer: seq<Byte>, buffers: seq<seq<Byte>>)
    ensures Flat([buffer] + buffers) == buffer + Flat(buffers)
  {
    var all := [buffer] + buffers;
    if buffers == [] {
      assert all[..0] == [];
    } else {
      assert all[..|all| - 1] == [buffer] + buffers[..|buffers| - 1];
      FlatCons(buffer, buffers[..|buffers| - 1]);
    }
  }
}
