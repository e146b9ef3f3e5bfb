/** The configuration log in the last erase block (fw/pano_ldr/main.c:1321-1414): tag / length / value
    records, appended under the NOR write rule and parsed again after every append and at boot. */
module ConfigLog {
  import opened NorFlash
  import opened Words
  import Pigeonhole

  /** The size of gTemp, and the eight bytes behind it that the parser can also read. */
  const BUF: nat := 1024
  const BEHIND: nat := 8
  const RAM: nat := 1032

  const ERASED_WORD: Word := 0xffff_ffff

  const TAG_AUTO_BOOT: Word := 449220
  const TAG_AUTO_BOOT_ADR: Word := 449221
  const TAG_TFTP_SRV: Word := 449222

  // ---- Little-endian words ----

  function WordAt(buf: seq<Byte>, off: nat): Word
    requires off + 4 <= |buf|
  {
    Value(buf[off]) + 0x100 * Value(buf[off + 1]) + 0x1_0000 * Value(buf[off + 2]) + 0x100_0000 * Value(buf[off + 3])
  }

  function Bytes(w: Word): (b: seq<Byte>)
    ensures |b| == 4
  {
    var q1 := w / 0x100;
    var q2 := q1 / 0x100;
    [Digit(w % 0x100), Digit(q1 % 0x100), Digit(q2 % 0x100), Digit(q2 / 0x100)]
  }

  lemma WordRoundTrip(w: Word)
    ensures WordAt(Bytes(w), 0) == w
  {
    hide Digit, Value;
    var q1 := w / 0x100;
    var q2 := q1 / 0x100;
    DigitRoundTrip(w % 0x100);
    DigitRoundTrip(q1 % 0x100);
    DigitRoundTrip(q2 % 0x100);
    DigitRoundTrip(q2 / 0x100);
  }

  /** Equal bytes are equal words. */
  lemma SameWord(a: seq<Byte>, i: nat, b: seq<Byte>, j: nat)
    requires i + 4 <= |a| && j + 4 <= |b| && a[i..i + 4] == b[j..j + 4]
    ensures WordAt(a, i) == WordAt(b, j)
  {
    assert a[i] == a[i..i + 4][0] && a[i + 1] == a[i..i + 4][1] && a[i + 2] == a[i..i + 4][2] && a[i + 3] == a[i..i + 4][3];
    assert b[j] == b[j..j + 4][0] && b[j + 1] == b[j..j + 4][1] && b[j + 2] == b[j..j + 4][2] && b[j + 3] == b[j..j + 4][3];
  }

  predicate Blank(buf: seq<Byte>, from: nat) {
    forall i | from <= i < |buf| :: buf[i] == BLANK
  }

  lemma BlankWord(buf: seq<Byte>, from: nat, off: nat)
    requires Blank(buf, from) && from <= off && off + 4 <= |buf|
    ensures WordAt(buf, off) == ERASED_WORD
  {
    hide Value;
    BlankValue();
  }

  lemma BlankValue()
    ensures Value(BLANK) == 255
  {
  }

  // ---- Parsing ----

  /** The length rounded up to whole words, as the parser strides. */
  function RoundUp(len: nat): (r: nat)
    ensures len <= r < len + 4 && r % 4 == 0
  {
    if len % 4 != 0 then len + 4 - len % 4 else len
  }

  /** A record seen by the parser: `at` is where its value starts. */
  datatype Record = Record(tag: Word, len: Word, at: nat)

  function RecordAt(ram: seq<Byte>, off: nat): Record
    requires |ram| == RAM && off <= 1020
  {
    Record(WordAt(ram, off), WordAt(ram, off + 4), off + 8)
  }

  /** Where parsing ends: at the first erased tag word, or at a length that leads out of the buffer. */
  datatype Outcome = Free(offset: nat) | Invalid

  /** The parser's pointer between two rounds of its loop, or where it has ended. */
  datatype Place = At(off: nat) | Ended(outcome: Outcome)

  lemma AlignedNext(off: nat, len: nat)
    requires off % 4 == 0
    ensures (off + 8 + RoundUp(len)) % 4 == 0 && (off + 8 + RoundUp(len)) % WORDS % 4 == 0
  {
    AlignedWraps(off + 8 + RoundUp(len));
  }

  lemma AlignedWraps(x: nat)
    requires x % 4 == 0
    ensures x % WORDS % 4 == 0
  {
    assert x % WORDS == x - 4 * (0x4000_0000 * (x / WORDS));
  }

  /** One round, with 32-bit pointers. */
  function Round(ram: seq<Byte>, off: nat): (p: Place)
    requires |ram| == RAM && off % 4 == 0 && off <= 1020
    ensures p.At? ==> p.off % 4 == 0 && p.off <= 1020
  {
    hide WordAt, RoundUp;
    if WordAt(ram, off) == ERASED_WORD then Ended(Free(off))
    else
      AlignedNext(off, WordAt(ram, off + 4));
      var next := (off + 8 + RoundUp(WordAt(ram, off + 4))) % WORDS;
      if next > 1020 then Ended(Invalid) else At(next)
  }

  /** The parser after `n` rounds. */
  function Walk(ram: seq<Byte>, n: nat): (p: Place)
    requires |ram| == RAM
    ensures p.At? ==> p.off % 4 == 0 && p.off <= 1020
  {
    if n == 0 then At(0)
    else
      var p := Walk(ram, n - 1);
      if p.At? then Round(ram, p.off) else p
  }

  /** The records it has passed by then. */
  function Passed(ram: seq<Byte>, n: nat): (records: seq<Record>)
    requires |ram| == RAM
    ensures forall r | r in records :: r.at + 4 <= RAM
  {
    if n == 0 then []
    else
      var p := Walk(ram, n - 1);
      Passed(ram, n - 1) + if p.At? && Round(ram, p.off).At? then [RecordAt(ram, p.off)] else []
  }

  lemma WalkStep(ram: seq<Byte>, n: nat)
    requires |ram| == RAM && n > 0
    ensures var p := Walk(ram, n - 1);
            && Walk(ram, n) == (if p.At? then Round(ram, p.off) else p)
            && Passed(ram, n) == Passed(ram, n - 1) + if p.At? && Round(ram, p.off).At? then [RecordAt(ram, p.off)] else []
  {
  }

  /** There are 256 aligned offsets in the buffer. */
  const ROUNDS: nat := 256

  lemma {:induction false} WalkStays(ram: seq<Byte>, n: nat, m: nat)
    requires |ram| == RAM && n <= m && Walk(ram, n).Ended?
    ensures Walk(ram, m) == Walk(ram, n) && Passed(ram, m) == Passed(ram, n)
    decreases m
  {
    if n < m {
      WalkStays(ram, n, m - 1);
    }
  }

  // ---- When the parser ends ----

  lemma NextPlace(ram: seq<Byte>, i: nat, j: nat)
    requires |ram| == RAM && Walk(ram, i) == Walk(ram, j)
    ensures Walk(ram, i + 1) == Walk(ram, j + 1)
  {
    hide Round;
  }

  lemma {:induction false} SamePlaceSameWay(ram: seq<Byte>, i: nat, j: nat, d: nat)
    requires |ram| == RAM && Walk(ram, i) == Walk(ram, j)
    ensures Walk(ram, i + d) == Walk(ram, j + d)
    decreases d
  {
    hide Walk;
    if d > 0 {
      NextPlace(ram, i, j);
      SamePlaceSameWay(ram, i + 1, j + 1, d - 1);
      assert i + 1 + (d - 1) == i + d && j + 1 + (d - 1) == j + d;
    }
  }

  /** A parser that is at one place twice never ends. */
  lemma {:induction false} RepeatNeverEnds(ram: seq<Byte>, i: nat, j: nat, n: nat)
    requires |ram| == RAM && i < j && Walk(ram, i).At? && Walk(ram, i) == Walk(ram, j)
    ensures Walk(ram, n).At?
    decreases n
  {
    hide Walk;
    if n <= j {
      if Walk(ram, n).Ended? {
        WalkStays(ram, n, j);
      }
    } else {
      SamePlaceSameWay(ram, i, j, n - j);
      RepeatNeverEnds(ram, i, j, i + n - j);
    }
  }

  /** Still on its way after 256 rounds, the parser has been somewhere twice. */
  lemma LateMeansRepeat(ram: seq<Byte>) returns (i: nat, j: nat)
    requires |ram| == RAM && Walk(ram, ROUNDS).At?
    ensures i < j <= ROUNDS && Walk(ram, i).At? && Walk(ram, i) == Walk(ram, j)
  {
    hide Walk;
    forall k: nat | k <= ROUNDS
      ensures Walk(ram, k).At?
    {
      if Walk(ram, k).Ended? {
        WalkStays(ram, k, ROUNDS);
      }
    }
    var s := seq(ROUNDS + 1, k requires 0 <= k <= ROUNDS => Walk(ram, k).off / 4 + 1);
    i, j := Pigeonhole.RepeatWithin(s, ROUNDS);
    assert s[i] == Walk(ram, i).off / 4 + 1 && s[j] == Walk(ram, j).off / 4 + 1;
  }

  /** Main result: the parser ends at all exactly when it has ended after 256 rounds, which is exactly when it
      is nowhere twice. */
  lemma ParserEndsIff(ram: seq<Byte>)
    requires |ram| == RAM
    ensures (exists n: nat :: Walk(ram, n).Ended?) <==> Walk(ram, ROUNDS).Ended?
    ensures (exists i: nat, j: nat :: i < j && Walk(ram, i).At? && Walk(ram, i) == Walk(ram, j)) <==> Walk(ram, ROUNDS).At?
  {
    hide Walk;
    if Walk(ram, ROUNDS).At? {
      var i, j := LateMeansRepeat(ram);
      forall n: nat
        ensures Walk(ram, n).At?
      {
        RepeatNeverEnds(ram, i, j, n);
      }
    } else if i: nat, j: nat :| i < j && Walk(ram, i).At? && Walk(ram, i) == Walk(ram, j) {
      RepeatNeverEnds(ram, i, j, ROUNDS);
    }
  }

  lemma RoundInPlace(ram: seq<Byte>, off: nat)
    requires |ram| == RAM && off % 4 == 0 && off <= 1020
    requires WordAt(ram, off) != ERASED_WORD && RoundUp(WordAt(ram, off + 4)) == 0xffff_fff8
    ensures Round(ram, off) == At(off)
  {
    hide WordAt, RoundUp;
  }

  /** A record that the parser reaches and whose rounded length is 2^32 - 8 leads back to itself, for ever. */
  lemma {:induction false} WrappedLengthLoops(ram: seq<Byte>, k: nat, n: nat)
    requires |ram| == RAM && Walk(ram, k).At? && k <= n
    requires var off := Walk(ram, k).off;
             WordAt(ram, off) != ERASED_WORD && RoundUp(WordAt(ram, off + 4)) == 0xffff_fff8
    ensures Walk(ram, n) == Walk(ram, k)
    decreases n
  {
    if k < n {
      hide Round, Walk, WordAt, RoundUp;
      WrappedLengthLoops(ram, k, n - 1);
      RoundInPlace(ram, Walk(ram, k).off);
      WalkStep(ram, n);
    }
  }

  /** Not every length that wraps is such a trap: from 2^32 - 1 the parser goes on behind the record. */
  lemma WrappedLengthCanEnd(ram: seq<Byte>)
    requires |ram| == RAM && WordAt(ram, 0) != ERASED_WORD
    requires WordAt(ram, 4) == 0xffff_ffff && WordAt(ram, 8) == ERASED_WORD
    ensures Walk(ram, ROUNDS) == Ended(Free(8))
  {
    hide WordAt;
    assert Walk(ram, 1) == At(8);
    assert Walk(ram, 2) == Ended(Free(8));
    WalkStays(ram, 2, ROUNDS);
  }

  // ---- Logs whose lengths do not wrap ----

  /** Parsing over the integers; `Wrapped` if some length leads beyond 32 bits. */
  datatype Parsed = Parsed(outcome: Outcome, records: seq<Record>) | Wrapped

  function Parse(ram: seq<Byte>, off: nat): (p: Parsed)
    requires |ram| == RAM && off % 4 == 0 && off <= 1020
    ensures p.Parsed? && p.outcome.Free? ==> off <= p.outcome.offset <= 1020 && p.outcome.offset % 4 == 0
    decreases RAM - off
  {
    hide WordAt, RoundUp;
    if WordAt(ram, off) == ERASED_WORD then Parsed(Free(off), [])
    else
      var next := off + 8 + RoundUp(WordAt(ram, off + 4));
      AlignedNext(off, WordAt(ram, off + 4));
      if next >= WORDS then Wrapped
      else if next > 1020 then Parsed(Invalid, [])
      else
        var rest := Parse(ram, next);
        if rest.Wrapped? then Wrapped else Parsed(rest.outcome, [RecordAt(ram, off)] + rest.records)
  }

  predicate IsFree(p: Parsed) { p.Parsed? && p.outcome.Free? }

  /** After `n` rounds the parser and `Parse` have the same way before them. */
  ghost predicate Along(ram: seq<Byte>, n: nat)
    requires |ram| == RAM
  {
    var whole := Parse(ram, 0);
    match Walk(ram, n)
    case At(off) =>
      var rest := Parse(ram, off);
      8 * n <= off && rest.Parsed? && whole == Parsed(rest.outcome, Passed(ram, n) + rest.records)
    case Ended(outcome) => whole == Parsed(outcome, Passed(ram, n))
  }

  lemma {:induction false} ParseAlong(ram: seq<Byte>, n: nat)
    requires |ram| == RAM && Parse(ram, 0).Parsed?
    ensures Along(ram, n)
  {
    if n == 0 {
      assert [] + Parse(ram, 0).records == Parse(ram, 0).records;
    } else {
      ParseAlong(ram, n - 1);
      if Walk(ram, n - 1).At? {
        RoundAlong(ram, Walk(ram, n - 1).off, Passed(ram, n - 1));
      }
    }
  }

  /** Below 2^32 a round of the code needs no remainder. */
  lemma RoundStep(ram: seq<Byte>, off: nat)
    requires |ram| == RAM && off % 4 == 0 && off <= 1020 && WordAt(ram, off) != ERASED_WORD
    ensures var next := off + 8 + RoundUp(WordAt(ram, off + 4));
            next < WORDS ==> Round(ram, off) == if next > 1020 then Ended(Invalid) else At(next)
  {
    hide WordAt, RoundUp;
  }

  lemma Regroup(a: seq<Record>, b: seq<Record>, c: seq<Record>)
    ensures a + (b + c) == a + b + c
  {
  }

  lemma RoundAlong(ram: seq<Byte>, off: nat, passed: seq<Record>)
    requires |ram| == RAM && off % 4 == 0 && off <= 1020 && Parse(ram, off).Parsed?
    ensures match Round(ram, off)
            case At(next) =>
              && off + 8 <= next && Parse(ram, next).Parsed?
              && Parse(ram, off).outcome == Parse(ram, next).outcome
              && passed + Parse(ram, off).records == passed + [RecordAt(ram, off)] + Parse(ram, next).records
            case Ended(outcome) => Parse(ram, off) == Parsed(outcome, []) && passed + [] == passed
  {
    hide WordAt, RoundUp;
    if WordAt(ram, off) != ERASED_WORD {
      ParseStep(ram, off);
      RoundStep(ram, off);
      hide Parse, Round;
      var next := off + 8 + RoundUp(WordAt(ram, off + 4));
      if next <= 1020 {
        Regroup(passed, [RecordAt(ram, off)], Parse(ram, next).records);
      }
    }
  }

  /** Main result: unless a length wraps, the parser ends, and as `Parse` says; so a parser that does not end
      has met a length that wraps. */
  lemma WalkFollowsParse(ram: seq<Byte>)
    requires |ram| == RAM && Parse(ram, 0).Parsed?
    ensures Walk(ram, ROUNDS) == Ended(Parse(ram, 0).outcome) && Passed(ram, ROUNDS) == Parse(ram, 0).records
  {
    ParseAlong(ram, ROUNDS);
  }

  /** A free offset is an erased word, and every record lies below it. */
  lemma {:induction false} FreeIsErased(ram: seq<Byte>, off: nat)
    requires |ram| == RAM && off % 4 == 0 && off <= 1020 && IsFree(Parse(ram, off))
    ensures var free := Parse(ram, off).outcome.offset;
            && WordAt(ram, free) == ERASED_WORD
            && forall r | r in Parse(ram, off).records :: r.at + RoundUp(r.len) <= free
    decreases RAM - off
  {
    hide WordAt, RoundUp;
    if WordAt(ram, off) != ERASED_WORD {
      FreeIsErased(ram, off + 8 + RoundUp(WordAt(ram, off + 4)));
    }
  }

  /** Contents that agree below a free offset are parsed alike up to it. */
  lemma {:induction false} ParsePrefix(ram: seq<Byte>, ram': seq<Byte>, off: nat, free: nat)
    requires |ram| == |ram'| == RAM && off % 4 == 0 && off <= 1020
    requires IsFree(Parse(ram, off)) && Parse(ram, off).outcome == Free(free)
    requires ram[..free] == ram'[..free]
    ensures off <= free <= 1020 && free % 4 == 0
    ensures var rest := Parse(ram', free);
            Parse(ram', off) == if rest.Wrapped? then Wrapped
                                else Parsed(rest.outcome, Parse(ram, off).records + rest.records)
    decreases RAM - off
  {
    hide WordAt, RoundUp;
    var more := Parse(ram', free);
    if WordAt(ram, off) == ERASED_WORD {
      assert more.Parsed? ==> [] + more.records == more.records;
    } else {
      var next := off + 8 + RoundUp(WordAt(ram, off + 4));
      ParseStep(ram, off);
      SameBelow(ram, ram', off, free);
      SameBelow(ram, ram', off + 4, free);
      ParseStep(ram', off);
      ParsePrefix(ram, ram', next, free);
      hide Parse;
      if more.Parsed? {
        Regroup([RecordAt(ram, off)], Parse(ram, next).records, more.records);
      }
    }
  }

  lemma ParseStep(ram: seq<Byte>, off: nat)
    requires |ram| == RAM && off % 4 == 0 && off <= 1020 && WordAt(ram, off) != ERASED_WORD
    ensures (off + 8 + RoundUp(WordAt(ram, off + 4))) % 4 == 0
    ensures var next := off + 8 + RoundUp(WordAt(ram, off + 4));
            Parse(ram, off) == if next >= WORDS then Wrapped
                               else if next > 1020 then Parsed(Invalid, [])
                               else if Parse(ram, next).Wrapped? then Wrapped
                               else Parsed(Parse(ram, next).outcome, [RecordAt(ram, off)] + Parse(ram, next).records)
  {
    hide WordAt, RoundUp;
    AlignedNext(off, WordAt(ram, off + 4));
  }

  lemma SameBelow(ram: seq<Byte>, ram': seq<Byte>, off: nat, free: nat)
    requires off + 4 <= free <= |ram| && free <= |ram'| && ram[..free] == ram'[..free]
    ensures WordAt(ram, off) == WordAt(ram', off)
  {
    assert ram[off..off + 4] == ram[..free][off..off + 4] && ram'[off..off + 4] == ram'[..free][off..off + 4];
    SameWord(ram, off, ram', off);
  }

  // ---- Appending ----

  function Encode(tag: Word, data: seq<Byte>): seq<Byte>
    requires |data| < WORDS
  {
    Bytes(tag) + Bytes(|data|) + data
  }

  /** Main result: an append of a value of any length that fits with one word to spare, at a free offset with
      erased bytes behind it, is parsed again as exactly that record, after the records that were there; the
      word after it is erased although the spare word does not count the rounding. */
  lemma AppendIsReread(ram: seq<Byte>, ram': seq<Byte>, tag: Word, data: seq<Byte>)
    requires |ram| == |ram'| == RAM && IsFree(Parse(ram, 0)) && tag != ERASED_WORD
    requires var off := Parse(ram, 0).outcome.offset;
             && Blank(ram[..BUF], off) && off + 8 + |data| + 4 <= BUF
             && ram'[..BUF] == Program(ram[..BUF], off, Encode(tag, data))
    ensures var p := Parse(ram, 0); var off := p.outcome.offset; var end := off + 8 + RoundUp(|data|);
            && Walk(ram', ROUNDS) == Ended(Free(end))
            && Passed(ram', ROUNDS) == p.records + [Record(tag, |data|, off + 8)]
            && Parse(ram', 0) == Parsed(Free(end), p.records + [Record(tag, |data|, off + 8)])
            && ram'[off + 8..off + 8 + |data|] == data
            && ram'[..off] == ram[..off]
            && Blank(ram'[..BUF], off + 8 + |data|)
  {
    hide WordAt, RoundUp, Program, Encode, Parse, Blank, Walk, Passed;
    var off := Parse(ram, 0).outcome.offset;
    var end := off + 8 + RoundUp(|data|);
    FreeOffset(ram);
    RoundedFits(off, |data|);
    AppendedFields(ram, ram', off, tag, data);
    ParsePrefix(ram, ram', 0, off);
    ParseOne(ram', off, end, tag, |data|);
    WalkFollowsParse(ram');
  }

  lemma FreeOffset(ram: seq<Byte>)
    requires |ram| == RAM && IsFree(Parse(ram, 0))
    ensures Parse(ram, 0).outcome.offset <= 1020 && Parse(ram, 0).outcome.offset % 4 == 0
  {
  }

  lemma AppendedFields(ram: seq<Byte>, ram': seq<Byte>, off: nat, tag: Word, data: seq<Byte>)
    requires |ram| == |ram'| == RAM && off % 4 == 0 && off + 8 + |data| + 4 <= BUF && Blank(ram[..BUF], off)
    requires ram'[..BUF] == Program(ram[..BUF], off, Encode(tag, data))
    ensures off + 8 + RoundUp(|data|) <= 1020
    ensures WordAt(ram', off) == tag && WordAt(ram', off + 4) == |data|
    ensures WordAt(ram', off + 8 + RoundUp(|data|)) == ERASED_WORD
    ensures ram'[off + 8..off + 8 + |data|] == data && ram'[..off] == ram[..off]
    ensures Blank(ram'[..BUF], off + 8 + |data|)
  {
    hide WordAt, RoundUp, Program, Bytes, Blank;
    var buf, buf' := ram[..BUF], ram'[..BUF];
    AppendStores(buf, off, Encode(tag, data));
    EntryFields(buf', off, tag, data);
    RoundedFits(off, |data|);
    var end := off + 8 + RoundUp(|data|);
    BlankWord(buf', off + 8 + |data|, end);
    BufInRam(ram, off, off + 8 + |data|);
    BufInRam(ram', off, off + 8 + |data|);
    SameBelow(buf', ram', off, BUF);
    SameBelow(buf', ram', off + 4, BUF);
    SameBelow(buf', ram', end, BUF);
  }

  lemma BufInRam(ram: seq<Byte>, off: nat, end: nat)
    requires |ram| == RAM && off + 8 <= end <= BUF
    ensures ram[..off] == ram[..BUF][..off] && ram[off + 8..end] == ram[..BUF][off + 8..end]
    ensures ram[..BUF][..BUF] == ram[..BUF]
  {
    Slice(ram, 0, BUF, 0, off);
    Slice(ram, 0, BUF, off + 8, end);
    assert ram[0..BUF] == ram[..BUF] && ram[0..off] == ram[..off] && ram[..BUF][0..off] == ram[..BUF][..off];
  }

  /** Alignment makes the unrounded fit test leave room for a whole word after the rounded stride. */
  lemma RoundedFits(off: nat, len: nat)
    requires off % 4 == 0 && off + 8 + len + 4 <= BUF
    ensures off + 8 + RoundUp(len) <= 1020
  {
  }

  lemma Slice(buf: seq<Byte>, off: nat, n: nat, i: nat, j: nat)
    requires off + n <= |buf| && i <= j <= n
    ensures buf[off..off + n][i..j] == buf[off + i..off + j]
  {
    var a, b := buf[off..off + n][i..j], buf[off + i..off + j];
    assert |a| == |b| && forall k | 0 <= k < |a| :: a[k] == b[k];
  }

  lemma EntryFields(buf: seq<Byte>, off: nat, tag: Word, data: seq<Byte>)
    requires |data| < WORDS && off + 8 + |data| <= |buf| && buf[off..off + 8 + |data|] == Encode(tag, data)
    ensures WordAt(buf, off) == tag && WordAt(buf, off + 4) == |data|
    ensures buf[off + 8..off + 8 + |data|] == data
  {
    hide WordAt, Bytes;
    var entry := buf[off..off + 8 + |data|];
    Slice(buf, off, |entry|, 0, 4);
    Slice(buf, off, |entry|, 4, 8);
    Slice(buf, off, |entry|, 8, |entry|);
    assert entry[0..4] == Bytes(tag) && entry[4..8] == Bytes(|data|) && entry[8..|entry|] == data;
    WordIs(buf, off, tag);
    WordIs(buf, off + 4, |data|);
  }

  lemma AppendStores(buf: seq<Byte>, off: nat, entry: seq<Byte>)
    requires off + |entry| <= |buf| && Blank(buf, off)
    ensures var buf' := Program(buf, off, entry);
            && buf'[off..off + |entry|] == entry && buf'[..off] == buf[..off] && Blank(buf', off + |entry|)
  {
    hide Meet;
    forall i | 0 <= i < |entry|
      ensures Program(buf, off, entry)[off + i] == entry[i]
    {
      MeetBlank(entry[i]);
    }
  }

  lemma WordIs(buf: seq<Byte>, off: nat, w: Word)
    requires off + 4 <= |buf| && buf[off..off + 4] == Bytes(w)
    ensures WordAt(buf, off) == w
  {
    hide Bytes, WordAt;
    WordRoundTrip(w);
    assert Bytes(w)[0..4] == Bytes(w);
    SameWord(buf, off, Bytes(w), 0);
  }

  lemma ParseOne(ram: seq<Byte>, off: nat, end: nat, tag: Word, len: Word)
    requires |ram| == RAM && off % 4 == 0 && end == off + 8 + RoundUp(len) <= 1020
    requires WordAt(ram, off) == tag != ERASED_WORD && WordAt(ram, off + 4) == len
    requires WordAt(ram, end) == ERASED_WORD
    ensures Parse(ram, off) == Parsed(Free(end), [Record(tag, len, off + 8)])
  {
    hide WordAt;
    AlignedNext(off, len);
    assert Parse(ram, end) == Parsed(Free(end), []);
    assert [Record(tag, len, off + 8)] + [] == [Record(tag, len, off + 8)];
  }
}
