/** Ethernet frames over the byte FIFOs (fw/pano_ldr/main.c:316-331, 425-509): a two-byte length, most
    significant byte first, and the bytes of the frame. */
module EthFrames {
  import opened Words

  /** Lengths and counts are 16 bits wide. */
  const U16: nat := 0x1_0000

  const MAX_ETH_FRAME_LEN := 1518

  /** A pool buffer; the receive loop writes a frame from the start of the first buffer of its chain on. */
  const POOL_BUFSIZE := 592

  function Header(n: int): (h: seq<Byte>)
    requires 0 <= n < U16
    ensures |h| == 2
  {
    [Digit(n / 256), Digit(n % 256)]
  }

  lemma HeaderBytes(n: int)
    requires 0 <= n < U16
    ensures Header(n) == [Digit(n / 256)] + [Digit(n % 256)]
  {
  }

  function Count(hi: Byte, lo: Byte): int { 256 * Value(hi) + Value(lo) }

  lemma HeaderRoundTrip(n: int)
    requires 0 <= n < U16
    ensures Count(Header(n)[0], Header(n)[1]) == n
  {
    DigitRoundTrip(n / 256);
    DigitRoundTrip(n % 256);
  }

  function Encode(frame: seq<Byte>): seq<Byte>
    requires |frame| < U16
  {
    Header(|frame|) + frame
  }

  // ---- Receiving ----

  /** `n` reads of the FIFO; an empty FIFO gives `idle`. */
  function Take(rx: seq<Byte>, n: nat, idle: Byte): (data: seq<Byte>)
    ensures |data| == n
  {
    seq(n, i requires 0 <= i < n => if i < |rx| then rx[i] else idle)
  }

  function Drop(rx: seq<Byte>, n: nat): seq<Byte> { if n <= |rx| then rx[n..] else [] }

  /** ClearRxFifo gives up after 2048 reads. */
  function Cleared(rx: seq<Byte>): seq<Byte> { Drop(rx, 2048) }

  /** What the stack is handed: a frame, or, if the frame does not fit the first pool buffer, a chain whose
      first buffer is full and behind which memory has been overwritten. */
  datatype Handed = Intact(frame: seq<Byte>) | Overrun(first: seq<Byte>)

  /** What one poll leaves in the FIFO and hands to the stack. */
  datatype Polled = Polled(rest: seq<Byte>, delivered: seq<Handed>)

  /** One poll. A bad length clears the FIFO and is then used all the same; with a buffer at least one byte is
      read, without one the frame is read and dropped. */
  function Poll(rx: seq<Byte>, alloc: bool, idle: Byte): Polled {
    if rx == [] then Polled(rx, [])
    else
      var head := Take(rx, 2, idle);
      var count := Count(head[0], head[1]);
      CountBound(head[0], head[1]);
      var body := if count == 0 || count > MAX_ETH_FRAME_LEN then Cleared(Drop(rx, 2)) else Drop(rx, 2);
      if alloc then
        Polled(Drop(body, if count == 0 then 1 else count),
               [if count <= POOL_BUFSIZE then Intact(Take(body, count, idle)) else Overrun(Take(body, POOL_BUFSIZE, idle))])
      else Polled(Drop(body, count), [])
  }

  /** Main result for one frame: exactly its bytes are taken from the FIFO, and it is handed on intact exactly
      when there is a buffer and it fits a single one. */
  lemma PollRecoversFrame(frame: seq<Byte>, more: seq<Byte>, alloc: bool, idle: Byte)
    requires 1 <= |frame| <= 1518
    ensures var p := Poll(Encode(frame) + more, alloc, idle);
            && p.rest == more
            && (p.delivered == [] <==> !alloc)
            && (p.delivered == [Intact(frame)] <==> alloc && |frame| <= 592)
            && (p.delivered == [Overrun(frame[..if |frame| <= 592 then |frame| else 592])] <==> alloc && |frame| > 592)
  {
    hide Count, Header;
    var rx := Encode(frame) + more;
    HeaderRoundTrip(|frame|);
    HeadAndBody(frame, more, idle);
    assert Take(frame + more, |frame|, idle) == frame;
    assert |frame| > POOL_BUFSIZE ==> Take(frame + more, POOL_BUFSIZE, idle) == frame[..POOL_BUFSIZE];
    assert Drop(frame + more, |frame|) == more;
  }

  lemma HeadAndBody(frame: seq<Byte>, more: seq<Byte>, idle: Byte)
    requires |frame| < U16
    ensures Take(Encode(frame) + more, 2, idle) == Header(|frame|)
    ensures Drop(Encode(frame) + more, 2) == frame + more
  {
    hide Header;
  }

  /** On the wire a frame is its length, most significant byte first, and its bytes. */
  lemma FrameOnTheWire(frame: seq<Byte>)
    requires |frame| < U16
    ensures |Encode(frame)| == |frame| + 2 && Encode(frame)[2..] == frame
    ensures 256 * Value(Encode(frame)[0]) + Value(Encode(frame)[1]) == |frame|
  {
    HeaderRoundTrip(|frame|);
  }

  /** A poll of an empty FIFO does nothing. */
  lemma IdlePoll(alloc: bool, idle: Byte)
    ensures Poll([], alloc, idle) == Polled([], [])
  {
  }

  /** After a bad length up to 2048 bytes are thrown away; all the same the stack is then handed as many bytes
      as the length says, at least one of which is taken, or, without a buffer, as many are dropped. What an
      empty FIFO gives for a byte is `idle`. */
  lemma BadLengthLosesBytes(hi: Byte, lo: Byte, data: seq<Byte>, alloc: bool, idle: Byte)
    requires var count := 256 * Value(hi) + Value(lo); count == 0 || count > 1518
    ensures var count := 256 * Value(hi) + Value(lo); var p := Poll([hi, lo] + data, alloc, idle);
            var lost := 2048 + if alloc && count == 0 then 1 else count;
            && p.rest == (if |data| <= lost then [] else data[lost..])
            && (!alloc ==> p.delivered == [])
            && (alloc && count == 0 ==> p.delivered == [Intact([])])
            && (alloc && count > 1518 ==>
                  p.delivered == [Overrun(seq(592, k requires 0 <= k => if 2048 + k < |data| then data[2048 + k] else idle))])
  {
    hide Value;
    var rx := [hi, lo] + data;
    var count := Count(hi, lo);
    CountBound(hi, lo);
    var body := Cleared(data);
    assert Take(rx, 2, idle) == [hi, lo] && Drop(rx, 2) == data;
    assert Take(body, 0, idle) == [];
    assert Take(body, 592, idle) == seq(592, k requires 0 <= k => if 2048 + k < |data| then data[2048 + k] else idle);
  }

  /** A frame followed by others leaves the FIFO in sync exactly when its length is from 1 to 1518. */
  lemma InSyncIffLengthIsValid(frame: seq<Byte>, more: seq<Byte>, alloc: bool, idle: Byte)
    requires |frame| < U16 && more != []
    ensures Poll(Encode(frame) + more, alloc, idle).rest == more <==> 1 <= |frame| <= 1518
  {
    if 1 <= |frame| <= MAX_ETH_FRAME_LEN {
      PollRecoversFrame(frame, more, alloc, idle);
    } else {
      hide Count, Header, Take;
      var rx := Encode(frame) + more;
      HeaderRoundTrip(|frame|);
      HeadAndBody(frame, more, idle);
      assert |Poll(rx, alloc, idle).rest| < |more|;
    }
  }

  function EncodeAll(frames: seq<seq<Byte>>): seq<Byte>
    requires forall f | f in frames :: |f| < U16
  {
    if frames == [] then [] else Encode(frames[0]) + EncodeAll(frames[1..])
  }

  /** One poll per entry of `allocs`. */
  function PollAll(rx: seq<Byte>, allocs: seq<bool>, idle: Byte): Polled
    decreases |allocs|
  {
    if allocs == [] then Polled(rx, [])
    else
      var first := Poll(rx, allocs[0], idle);
      var others := PollAll(first.rest, allocs[1..], idle);
      Polled(others.rest, first.delivered + others.delivered)
  }

  /** The frames for which there was a buffer. */
  function Kept(frames: seq<seq<Byte>>, allocs: seq<bool>): seq<Handed>
    requires |frames| == |allocs|
  {
    if frames == [] then [] else (if allocs[0] then [Intact(frames[0])] else []) + Kept(frames[1..], allocs[1..])
  }

  /** Every frame has a valid length, and fits a pool buffer if it gets one. */
  predicate Receivable(frames: seq<seq<Byte>>, allocs: seq<bool>)
    requires |frames| == |allocs|
  {
    forall k | 0 <= k < |frames| ::
      1 <= |frames[k]| <= 1518 && (allocs[k] ==> |frames[k]| <= 592)
  }

  /** Main result: any sequence of such frames is received in order, frame by frame; under any pattern of
      allocation failures exactly the others are delivered, and the FIFO stays in sync. */
  lemma {:induction false} FramesAreRecovered(frames: seq<seq<Byte>>, allocs: seq<bool>, more: seq<Byte>, idle: Byte)
    requires |frames| == |allocs| && Receivable(frames, allocs)
    ensures forall f | f in frames :: |f| < U16
    ensures PollAll(EncodeAll(frames) + more, allocs, idle) == Polled(more, Kept(frames, allocs))
  {
    if frames != [] {
      hide Poll, Encode;
      FramesAreRecovered(frames[1..], allocs[1..], more, idle);
      var rest := EncodeAll(frames[1..]) + more;
      EncodeFirst(frames, more);
      PollRecoversFrame(frames[0], rest, allocs[0], idle);
    }
  }

  lemma EncodeFirst(frames: seq<seq<Byte>>, more: seq<Byte>)
    requires frames != [] && |frames[0]| < U16 && forall f | f in frames[1..] :: |f| < U16
    ensures forall f | f in frames :: |f| < U16
    ensures EncodeAll(frames) + more == Encode(frames[0]) + (EncodeAll(frames[1..]) + more)
  {
    hide Encode;
    assert frames == [frames[0]] + frames[1..];
  }

  // ---- Sending ----

  /** The bytes the transmit loop passes over: buffer by buffer, until an empty buffer that is not the first.
      There the count of bytes left in the buffer wraps, and `beyond` is what lies in memory from it on. */
  function Stream(chain: seq<seq<Byte>>, beyond: seq<Byte>): seq<Byte>
    requires chain != []
  {
    chain[0] + Behind(chain[1..], beyond)
  }

  function Behind(chain: seq<seq<Byte>>, beyond: seq<Byte>): seq<Byte> {
    if chain == [] then [] else if chain[0] == [] then beyond else chain[0] + Behind(chain[1..], beyond)
  }

  /** A chain sent as `totLen` bytes, or as far as it goes. */
  function Sent(chain: seq<seq<Byte>>, totLen: int, beyond: seq<Byte>): seq<Byte>
    requires chain != [] && 0 <= totLen < U16
  {
    var data := Stream(chain, beyond);
    Header(totLen) + if totLen <= |data| then data[..totLen] else data
  }

  /** From the first empty buffer on there is no more data. */
  predicate NoDataBehindEmpty(chain: seq<seq<Byte>>) {
    chain == [] || (if chain[0] == [] then Flat(chain) == [] else NoDataBehindEmpty(chain[1..]))
  }

  lemma FlatFirst(chain: seq<seq<Byte>>)
    requires chain != []
    ensures Flat(chain) == chain[0] + Flat(chain[1..])
  {
    assert chain == [chain[0]] + chain[1..];
    FlatCons(chain[0], chain[1..]);
  }

  lemma {:induction false} BehindIsFlat(chain: seq<seq<Byte>>, beyond: seq<Byte>)
    requires NoDataBehindEmpty(chain)
    ensures Flat(chain) <= Behind(chain, beyond)
  {
    if chain != [] {
      hide Flat;
      FlatFirst(chain);
      if chain[0] != [] {
        BehindIsFlat(chain[1..], beyond);
      }
    }
  }

  /** Otherwise the first byte behind the empty buffer is lost, and what lies in memory goes out for it. */
  lemma {:induction false} FirstLostByte(chain: seq<seq<Byte>>) returns (k: nat)
    requires !NoDataBehindEmpty(chain)
    ensures k < |Flat(chain)|
    ensures forall beyond: seq<Byte> | beyond != [] :: |Behind(chain, beyond)| > k && Behind(chain, beyond)[k] == beyond[0]
  {
    hide Flat;
    FlatFirst(chain);
    if chain[0] == [] {
      k := 0;
    } else {
      var k' := FirstLostByte(chain[1..]);
      k := |chain[0]| + k';
    }
  }

  lemma SentIsEncoded(chain: seq<seq<Byte>>, beyond: seq<Byte>)
    requires Proper(chain)
    ensures Sent(chain, |Flat(chain)|, beyond) == Encode(Flat(chain))
  {
    hide Header, Flat;
    FlatFirst(chain);
    BehindIsFlat(chain[1..], beyond);
  }

  function Other(b: Byte): (c: Byte)
    ensures c != b
  {
    !b
  }

  /** Contents of memory with which a lost byte shows. */
  lemma LosingMemory(chain: seq<seq<Byte>>) returns (beyond: seq<Byte>)
    requires chain != [] && |Flat(chain)| < U16 && !NoDataBehindEmpty(chain[1..])
    ensures |beyond| >= U16 && Sent(chain, |Flat(chain)|, beyond) != Encode(Flat(chain))
  {
    hide Header, Flat, Sent, Encode, Behind, Other, NoDataBehindEmpty;
    FlatFirst(chain);
    var k := FirstLostByte(chain[1..]);
    var lost := Flat(chain[1..])[k];
    beyond := seq(U16, _ => Other(lost));
    assert Behind(chain[1..], beyond)[k] == beyond[0] == Other(lost);
    LostInFrame(chain, k, beyond);
  }

  /** Main result: a chain of buffers is sent as the frame it holds, whatever lies in memory behind its buffers,
      exactly if no data follows an empty buffer other than the first. */
  lemma SentIsEncodedIff(chain: seq<seq<Byte>>)
    requires chain != [] && |Flat(chain)| < U16
    ensures (forall beyond: seq<Byte> | |beyond| >= U16 :: Sent(chain, |Flat(chain)|, beyond) == Encode(Flat(chain)))
            <==> NoDataBehindEmpty(chain[1..])
  {
    if NoDataBehindEmpty(chain[1..]) {
      forall beyond: seq<Byte> | |beyond| >= U16
        ensures Sent(chain, |Flat(chain)|, beyond) == Encode(Flat(chain))
      {
        SentIsEncoded(chain, beyond);
      }
    } else {
      hide Sent, Encode;
      var _ := LosingMemory(chain);
    }
  }

  lemma LostInFrame(chain: seq<seq<Byte>>, k: nat, beyond: seq<Byte>)
    requires chain != [] && |Flat(chain)| < U16 && Flat(chain) == chain[0] + Flat(chain[1..])
    requires k < |Flat(chain[1..])| && k < |Behind(chain[1..], beyond)|
    requires Behind(chain[1..], beyond)[k] != Flat(chain[1..])[k]
    ensures Sent(chain, |Flat(chain)|, beyond) != Encode(Flat(chain))
  {
    hide Header, Flat, Behind;
    assert Encode(Flat(chain))[2 + |chain[0]| + k] == Flat(chain[1..])[k];
  }

  /** A chain whose data is a frame and can be sent as it. */
  predicate Proper(chain: seq<seq<Byte>>) {
    chain != [] && |Flat(chain)| < U16 && NoDataBehindEmpty(chain[1..])
  }

  function Frames(chains: seq<seq<seq<Byte>>>): (frames: seq<seq<Byte>>)
    ensures |frames| == |chains|
  {
    seq(|chains|, k requires 0 <= k < |chains| => Flat(chains[k]))
  }

  /** The transmit FIFO after sending the chains one after the other. */
  function SentAll(chains: seq<seq<seq<Byte>>>, beyond: seq<Byte>): seq<Byte>
    requires forall c | c in chains :: Proper(c)
  {
    if chains == [] then []
    else
      assert chains[0] in chains && Proper(chains[0]);
      Sent(chains[0], |Flat(chains[0])|, beyond) + SentAll(chains[1..], beyond)
  }

  lemma {:induction false} SentAllIsEncoded(chains: seq<seq<seq<Byte>>>, beyond: seq<Byte>)
    requires forall c | c in chains :: Proper(c)
    ensures forall f | f in Frames(chains) :: |f| < U16
    ensures SentAll(chains, beyond) == EncodeAll(Frames(chains))
  {
    if chains != [] {
      hide Flat, Encode, Sent;
      SentIsEncoded(chains[0], beyond);
      SentAllIsEncoded(chains[1..], beyond);
      assert Frames(chains)[1..] == Frames(chains[1..]);
    }
  }

  /** Main result: what one side sends as chains of buffers, the other receives as the frames they hold, in
      order and each once, but for those that found no buffer. */
  lemma TransmitThenReceive(chains: seq<seq<seq<Byte>>>, beyond: seq<Byte>, allocs: seq<bool>, more: seq<Byte>, idle: Byte)
    requires forall c | c in chains :: Proper(c)
    requires |chains| == |allocs| && Receivable(Frames(chains), allocs)
    ensures PollAll(SentAll(chains, beyond) + more, allocs, idle) == Polled(more, Kept(Frames(chains), allocs))
  {
    SentAllIsEncoded(chains, beyond);
    FramesAreRecovered(Frames(chains), allocs, more, idle);
  }

  // ---- The interface, with its two FIFOs ----

  class Interface {
    var tx: seq<Byte>
    var rx: seq<Byte>
    /** What has been handed to the stack. */
    var delivered: seq<Handed>

    constructor ()
      ensures tx == [] && rx == [] && delivered == []
    {
      tx, rx, delivered := [], [], [];
    }

    /** Sends a chain of buffers of `totLen` bytes. */
    method Output(chain: seq<seq<Byte>>, totLen: int, beyond: seq<Byte>)
      requires chain != [] && 0 <= totLen < U16 <= |beyond|
      requires forall k | 0 <= k < |chain| :: |chain[k]| < U16
      modifies `tx
      ensures tx == old(tx) + Sent(chain, totLen, beyond)
    {
      hide Digit, Header, Stream, Left, Counting;
      ghost var data := Stream(chain, beyond);
      tx := tx + [Digit(totLen / 256)];
      tx := tx + [Digit(totLen % 256)];
      ghost var start := tx;
      HeaderBytes(totLen);
      assert start == old(tx) + Header(totLen);
      var k, at, i := 0, 0, 0;
      var thisBufLen := |chain[0]|;
      StartCounting(chain);
      LeftStart(chain, beyond);
      while i < totLen
        invariant 0 <= i <= totLen && i <= |data| && 0 <= k < |chain| && 0 <= at <= i
        invariant Place(chain, k, at) && Counting(chain, k, at, thisBufLen)
        invariant data[i..] == Left(chain, k, at, beyond)
        invariant tx == start + data[..i]
      {
        if thisBufLen == 0 {
          AtEnd(chain, k, at, thisBufLen);
          if k + 1 == |chain| {
            LeftEnd(chain, k, beyond);
            break;
          }
          LeftSkip(chain, k, beyond);
          k, at := k + 1, 0;
          thisBufLen := |chain[k]|;
        } else {
          NotAtEnd(chain, k, at, thisBufLen);
        }
        NextByte(data, i, chain, k, at, beyond);
        OneRead(chain, k, at, thisBufLen);
        tx := tx + [if at < |chain[k]| then chain[k][at] else beyond[at]];
        at := at + 1;
        thisBufLen := (thisBufLen - 1) % U16;
        i := i + 1;
      }
      assert i < totLen ==> data[..i] == data;
    }

    method Read(idle: Byte) returns (b: Byte)
      modifies `rx
      ensures rx == Drop(old(rx), 1) && [b] == Take(old(rx), 1, idle)
    {
      if rx == [] {
        b := idle;
      } else {
        b := rx[0];
        rx := rx[1..];
      }
    }

    method ClearRxFifo(idle: Byte)
      modifies `rx
      ensures rx == Cleared(old(rx))
    {
      if rx != [] {
        var i := 0;
        while i < 2048
          invariant 0 <= i <= 2048 && rx == Drop(old(rx), i)
        {
          if rx == [] {
            break;
          }
          var _ := Read(idle);
          i := i + 1;
        }
      }
    }

    method ReadMany(n: nat, idle: Byte) returns (data: seq<Byte>)
      modifies `rx
      ensures rx == Drop(old(rx), n) && data == Take(old(rx), n, idle)
    {
      data := [];
      var i := 0;
      while i < n
        invariant 0 <= i <= n && rx == Drop(old(rx), i) && data == Take(old(rx), i, idle)
      {
        var b := Read(idle);
        data := data + [b];
        i := i + 1;
      }
    }

    /** One poll; `alloc` says whether the pool has a buffer. The two length reads are taken in order. */
    method PollOnce(alloc: bool, idle: Byte)
      modifies `rx, `delivered
      ensures var p := Poll(old(rx), alloc, idle); rx == p.rest && delivered == old(delivered) + p.delivered
    {
      hide Count, Take, Drop;
      if rx != [] {
        var hi := Read(idle);
        var lo := Read(idle);
        TakeInTwo(old(rx), 1, 1, idle);
        var count := Count(hi, lo);
        if count == 0 || count > MAX_ETH_FRAME_LEN {
          ClearRxFifo(idle);
        }
        CountBound(hi, lo);
        ghost var body := rx;
        if alloc {
          TakeInTwo(rx, 1, if count == 0 then 0 else count - 1, idle);
          var first := Read(idle);
          var others := ReadMany(if count == 0 then 0 else count - 1, idle);
          var written := [first] + others;
          FirstBytes(body, |written|, if count <= POOL_BUFSIZE then count else POOL_BUFSIZE, idle);
          delivered := delivered + [if count <= POOL_BUFSIZE then Intact(written[..count]) else Overrun(written[..POOL_BUFSIZE])];
        } else {
          var _ := ReadMany(count, idle);
        }
      }
    }
  }

  /** Reading in two goes is reading all at once. */
  lemma TakeInTwo(rx: seq<Byte>, a: nat, b: nat, idle: Byte)
    ensures Take(rx, a, idle) + Take(Drop(rx, a), b, idle) == Take(rx, a + b, idle)
    ensures Drop(Drop(rx, a), b) == Drop(rx, a + b)
  {
  }

  lemma CountBound(hi: Byte, lo: Byte)
    ensures 0 <= Count(hi, lo) < U16
  {
  }

  /** The first bytes taken are those taken by a shorter read. */
  lemma FirstBytes(rx: seq<Byte>, n: nat, m: nat, idle: Byte)
    requires m <= n
    ensures Take(rx, n, idle)[..m] == Take(rx, m, idle)
  {
  }

  /** The transmit loop is inside buffer `k`, or beyond an empty one. */
  predicate Place(chain: seq<seq<Byte>>, k: nat, at: nat)
    requires k < |chain|
  {
    at <= |chain[k]| || (k > 0 && chain[k] == [] && at < U16)
  }

  /** What is left to send from byte `at` of buffer `k` on. */
  function Left(chain: seq<seq<Byte>>, k: nat, at: nat, beyond: seq<Byte>): seq<Byte>
    requires k < |chain| && Place(chain, k, at) && U16 <= |beyond|
  {
    if k > 0 && chain[k] == [] then beyond[at..] else chain[k][at..] + Behind(chain[k + 1..], beyond)
  }

  lemma LeftStart(chain: seq<seq<Byte>>, beyond: seq<Byte>)
    requires chain != [] && U16 <= |beyond|
    ensures Left(chain, 0, 0, beyond) == Stream(chain, beyond) == Stream(chain, beyond)[0..]
  {
  }

  /** ThisBufLen, with 16 bits, between two bytes of the transmit loop. */
  predicate Counting(chain: seq<seq<Byte>>, k: nat, at: nat, left: int)
    requires k < |chain|
  {
    left == (|chain[k]| - at) % U16 && Place(chain, k, at) && (k > 0 && chain[k] == [] ==> at > 0)
  }

  lemma StartCounting(chain: seq<seq<Byte>>)
    requires chain != [] && |chain[0]| < U16
    ensures Counting(chain, 0, 0, |chain[0]|)
  {
  }

  /** With nothing left to count, the loop is at the end of its buffer. */
  lemma AtEnd(chain: seq<seq<Byte>>, k: nat, at: nat, left: int)
    requires k < |chain| && |chain[k]| < U16 && Counting(chain, k, at, left) && left == 0
    ensures at == |chain[k]| && (k > 0 ==> chain[k] != [])
  {
  }

  lemma NotAtEnd(chain: seq<seq<Byte>>, k: nat, at: nat, left: int)
    requires k < |chain| && |chain[k]| < U16 && Counting(chain, k, at, left) && left != 0
    ensures at < |chain[k]| || (k > 0 && chain[k] == [])
  {
  }

  lemma OneRead(chain: seq<seq<Byte>>, k: nat, at: nat, left: int)
    requires k < |chain| && |chain[k]| < U16 && at + 1 < U16
    requires at < |chain[k]| || (k > 0 && chain[k] == [])
    requires Counting(chain, k, at, left) || (at == 0 && left == |chain[k]|)
    ensures Place(chain, k, at + 1) && Counting(chain, k, at + 1, (left - 1) % U16)
  {
  }

  /** Behind the end of a buffer comes the next one. */
  lemma LeftSkip(chain: seq<seq<Byte>>, k: nat, beyond: seq<Byte>)
    requires k + 1 < |chain| && (k > 0 ==> chain[k] != []) && U16 <= |beyond|
    ensures Left(chain, k, |chain[k]|, beyond) == Left(chain, k + 1, 0, beyond)
  {
    assert chain[k + 1..][1..] == chain[k + 2..] && chain[k + 1..][0] == chain[k + 1];
    assert chain[k][|chain[k]|..] == [];
  }

  /** Behind the end of the last buffer comes nothing. */
  lemma LeftEnd(chain: seq<seq<Byte>>, k: nat, beyond: seq<Byte>)
    requires k + 1 == |chain| && (k > 0 ==> chain[k] != []) && U16 <= |beyond|
    ensures Left(chain, k, |chain[k]|, beyond) == []
  {
    assert chain[k + 1..] == [];
  }

  lemma NextByte(data: seq<Byte>, i: nat, chain: seq<seq<Byte>>, k: nat, at: nat, beyond: seq<Byte>)
    requires i <= |data| && k < |chain| && U16 <= |beyond| && at + 1 < U16
    requires at < |chain[k]| || (k > 0 && chain[k] == [])
    requires data[i..] == Left(chain, k, at, beyond)
    ensures i < |data| && data[i + 1..] == Left(chain, k, at + 1, beyond)
    ensures data[..i + 1] == data[..i] + [if at < |chain[k]| then chain[k][at] else beyond[at]]
  {
    hide Behind;
    assert data[i] == data[i..][0];
    assert data[i + 1..] == data[i..][1..];
  }
}
