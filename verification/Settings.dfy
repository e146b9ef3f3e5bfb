/** The settings kept in the configuration log, over whole runs of commands and reboots
    (fw/pano_ldr/main.c:963-987, 1072-1146, 1321-1414). */
module Settings {
  import opened NorFlash
  import opened Words
  import opened ConfigLog
  import FlashMap
  import Division

  const GOLDEN_IMAGE_ADR: Word := 0x40000

  /** gAutoBoot, gAutoBootAdr and gTftp.ServerIP. */
  datatype Values = Values(autoBoot: Word, autoBootAdr: Word, server: Word)

  const DEFAULTS := Values(0, GOLDEN_IMAGE_ADR, 0)

  datatype Entry = Entry(tag: Word, value: Word)

  /** The flash, the variables, and whether the firmware is running: a parser that does not end stops it. */
  datatype Store = Store(mem: seq<Byte>, values: Values, running: bool)

  predicate Geometry(size: nat, eraseSize: nat, pageSize: nat) {
    && BUF <= eraseSize < size < WORDS
    && 0 < pageSize && 2 * pageSize <= BUF && eraseSize % pageSize == 0
  }

  // ---- ParseDataBlock and AddBoardInfo ----

  function Base(mem: seq<Byte>, eraseSize: nat): nat
    requires eraseSize <= |mem|
  {
    |mem| - eraseSize
  }

  /** What `spi_read` puts into gTemp: the start of the last erase block. */
  function Window(mem: seq<Byte>, eraseSize: nat): (buf: seq<Byte>)
    requires BUF <= eraseSize <= |mem|
    ensures |buf| == BUF
  {
    mem[Base(mem, eraseSize)..Base(mem, eraseSize) + BUF]
  }

  function ApplyOne(v: Values, e: Entry): Values {
    if e.tag == TAG_AUTO_BOOT then v.(autoBoot := e.value)
    else if e.tag == TAG_AUTO_BOOT_ADR then v.(autoBootAdr := e.value)
    else if e.tag == TAG_TFTP_SRV then v.(server := e.value)
    else v
  }

  function Apply(v: Values, entries: seq<Entry>): Values {
    if entries == [] then v else ApplyOne(Apply(v, entries[..|entries| - 1]), entries[|entries| - 1])
  }

  /** The parser reads a whole word as the value, whatever the length says. */
  function Decode(buf: seq<Byte>, records: seq<Record>): (entries: seq<Entry>)
    requires forall r | r in records :: r.at + 4 <= |buf|
    ensures |entries| == |records|
  {
    seq(|records|, k requires 0 <= k < |records| => Entry(records[k].tag, WordAt(buf, records[k].at)))
  }

  function Entries(ram: seq<Byte>): seq<Entry>
    requires |ram| == RAM
  {
    Decode(ram, Passed(ram, ROUNDS))
  }

  lemma ApplyRecord(v: Values, ram: seq<Byte>, seen: seq<Record>, r: Record)
    requires r.at + 4 <= |ram| && forall s | s in seen :: s.at + 4 <= |ram|
    ensures forall s | s in seen + [r] :: s.at + 4 <= |ram|
    ensures Apply(v, Decode(ram, seen + [r]))
            == ApplyOne(Apply(v, Decode(ram, seen)), Entry(r.tag, WordAt(ram, r.at)))
  {
    hide WordAt;
    var entries := Decode(ram, seen + [r]);
    assert entries[..|entries| - 1] == Decode(ram, seen);
  }

  /** The bytes in memory behind gTemp; they belong to other variables, so each command finds its own. */
  type Behind = b: seq<Byte> | |b| == BEHIND witness seq(BEHIND, _ => 0)

  function Ram(mem: seq<Byte>, eraseSize: nat, behind: Behind): (ram: seq<Byte>)
    requires BUF <= eraseSize <= |mem|
    ensures |ram| == RAM
  {
    Window(mem, eraseSize) + behind
  }

  lemma WindowInRam(mem: seq<Byte>, eraseSize: nat, behind: Behind)
    requires BUF <= eraseSize <= |mem|
    ensures Ram(mem, eraseSize, behind)[..BUF] == Window(mem, eraseSize)
    ensures WordAt(Ram(mem, eraseSize, behind), BUF) == WordAt(behind, 0)
  {
    hide Window, Value;
    assert Ram(mem, eraseSize, behind)[BUF..BUF + 4] == behind[0..4];
    SameWord(Ram(mem, eraseSize, behind), BUF, behind, 0);
  }

  /** CheckEmpty as the parser reaches it: gTemp holds the second page of the block where a page of 0xff is
      expected. */
  predicate LooksEmpty(mem: seq<Byte>, eraseSize: nat, pageSize: nat)
    requires Geometry(|mem|, eraseSize, pageSize)
  {
    var page := SecondPage(Window(mem, eraseSize), pageSize);
    WholePages(eraseSize, pageSize);
    FlashMap.PagesMatch(mem, Base(mem, eraseSize), eraseSize / pageSize, page)
  }

  function SecondPage(buf: seq<Byte>, pageSize: nat): (page: seq<Byte>)
    requires 2 * pageSize <= |buf|
    ensures |page| == pageSize
  {
    buf[pageSize..2 * pageSize]
  }

  /** The values the records give to the variables, and the flash address of the first free word, or 0. An
      invalid block counts as empty if all its pages equal what gTemp holds from PageSize on. */
  function ParseDataBlock(st: Store, eraseSize: nat, pageSize: nat, behind: Behind): (r: (Store, nat))
    requires Geometry(|st.mem|, eraseSize, pageSize)
    ensures r.0.mem == st.mem
    ensures r.1 == 0 || (Base(st.mem, eraseSize) <= r.1 && (st.running ==> r.0.running))
  {
    var ram, base := Ram(st.mem, eraseSize, behind), Base(st.mem, eraseSize);
    match Walk(ram, ROUNDS)
    case At(_) => (st.(running := false), 0)
    case Ended(outcome) =>
      (st.(values := Apply(st.values, Entries(ram))),
       match outcome
       case Free(off) => base + off
       case Invalid => if LooksEmpty(st.mem, eraseSize, pageSize) then base else 0)
  }

  lemma WholePages(eraseSize: nat, pageSize: nat)
    requires pageSize > 0 && eraseSize % pageSize == 0
    ensures eraseSize / pageSize * pageSize == eraseSize
  {
  }

  /** A record assembled at `off` of gTemp can end behind it. */
  function Stored(behind: Behind, off: nat, entry: seq<Byte>): Behind {
    seq(BEHIND, k requires 0 <= k < BEHIND => if off <= BUF + k < off + |entry| then entry[BUF + k - off] else behind[k])
  }

  function AddBoardInfo(st: Store, eraseSize: nat, pageSize: nat, tag: Word, data: seq<Byte>, behind: Behind): (r: Store)
    requires Geometry(|st.mem|, eraseSize, pageSize) && |data| < WORDS - 8
    ensures |r.mem| == |st.mem|
  {
    var (st', writeOffset) := ParseDataBlock(st, eraseSize, pageSize, behind);
    if writeOffset == 0 then st'
    else
      var bufOffset := writeOffset - Base(st.mem, eraseSize);
      var available := (BUF - bufOffset - (8 + |data|)) % WORDS;
      if available >= 4 then
        var entry := Encode(tag, data);
        ParseDataBlock(st'.(mem := Program(st.mem, writeOffset, entry)), eraseSize, pageSize,
                       Stored(behind, bufOffset, entry)).0
      else st'
  }

  // ---- Commands ----

  /** The autoboot, bootadr and tftp commands with a valid argument. */
  datatype Setting = AutoBoot(delayed: bool, on: bool) | BootAdr(adr: Word) | TftpServer(ip: Word)

  predicate IsTag(tag: Word) { tag == TAG_AUTO_BOOT || tag == TAG_AUTO_BOOT_ADR || tag == TAG_TFTP_SRV }

  function EntryOf(s: Setting): (e: Entry)
    ensures IsTag(e.tag)
  {
    match s
    case AutoBoot(delayed, on) => Entry(TAG_AUTO_BOOT, if delayed then 2 else if on then 1 else 0)
    case BootAdr(adr) => Entry(TAG_AUTO_BOOT_ADR, adr)
    case TftpServer(ip) => Entry(TAG_TFTP_SRV, ip)
  }

  datatype Step = Set(setting: Setting, behind: Behind) | Reboot(behind: Behind)

  function Do(st: Store, step: Step, eraseSize: nat, pageSize: nat): (r: Store)
    requires Geometry(|st.mem|, eraseSize, pageSize)
    ensures |r.mem| == |st.mem|
  {
    match step
    case Set(s, behind) =>
      if st.running then AddBoardInfo(st, eraseSize, pageSize, EntryOf(s).tag, Bytes(EntryOf(s).value), behind) else st
    case Reboot(behind) => ParseDataBlock(Store(st.mem, DEFAULTS, true), eraseSize, pageSize, behind).0
  }

  function Run(mem: seq<Byte>, steps: seq<Step>, eraseSize: nat, pageSize: nat): (r: Store)
    requires Geometry(|mem|, eraseSize, pageSize)
    ensures |r.mem| == |mem|
  {
    if steps == [] then Store(mem, DEFAULTS, true)
    else Do(Run(mem, steps[..|steps| - 1], eraseSize, pageSize), steps[|steps| - 1], eraseSize, pageSize)
  }

  /** The settings made in a run, in order. */
  function Made(steps: seq<Step>): seq<Entry> {
    if steps == [] then []
    else
      var earlier := Made(steps[..|steps| - 1]);
      match steps[|steps| - 1]
      case Set(s, _) => earlier + [EntryOf(s)]
      case Reboot(_) => earlier
  }

  // ---- The specification: a map in which the last value wins ----

  function Latest(entries: seq<Entry>, tag: Word, default: Word): Word {
    if entries == [] then default
    else if entries[|entries| - 1].tag == tag then entries[|entries| - 1].value
    else Latest(entries[..|entries| - 1], tag, default)
  }

  function LastValues(entries: seq<Entry>, v: Values): Values {
    Values(Latest(entries, TAG_AUTO_BOOT, v.autoBoot), Latest(entries, TAG_AUTO_BOOT_ADR, v.autoBootAdr),
           Latest(entries, TAG_TFTP_SRV, v.server))
  }

  lemma {:induction false} ApplyIsLastValues(v: Values, entries: seq<Entry>)
    ensures Apply(v, entries) == LastValues(entries, v)
  {
    if entries != [] {
      ApplyIsLastValues(v, entries[..|entries| - 1]);
    }
  }

  lemma {:induction false} LatestTwice(entries: seq<Entry>, tag: Word, default: Word)
    ensures Latest(entries, tag, Latest(entries, tag, default)) == Latest(entries, tag, default)
  {
    if entries != [] {
      LatestTwice(entries[..|entries| - 1], tag, default);
    }
  }

  /** Parsing on top of values that already are the last ones changes nothing, and one more entry shows. */
  lemma ApplyAgain(v: Values, entries: seq<Entry>, e: Entry)
    ensures Apply(Apply(v, entries), entries) == Apply(v, entries)
    ensures Apply(Apply(v, entries), entries + [e]) == Apply(v, entries + [e])
  {
    hide Latest;
    var w := Apply(v, entries);
    ApplyIsLastValues(v, entries);
    ApplyIsLastValues(w, entries);
    LatestTwice(entries, TAG_AUTO_BOOT, v.autoBoot);
    LatestTwice(entries, TAG_AUTO_BOOT_ADR, v.autoBootAdr);
    LatestTwice(entries, TAG_TFTP_SRV, v.server);
    assert (entries + [e])[..|entries|] == entries;
  }

  // ---- A log of settings ----

  /** Twelve bytes per setting, from the start of the buffer. */
  predicate Layout(buf: seq<Byte>, entries: seq<Entry>) {
    && 12 * |entries| <= |buf|
    && forall k | 0 <= k < |entries| ::
         && IsTag(entries[k].tag) && WordAt(buf, 12 * k) == entries[k].tag
         && WordAt(buf, 12 * k + 4) == 4 && WordAt(buf, 12 * k + 8) == entries[k].value
  }

  /** The log holds exactly `entries`, and the rest of the buffer is erased. */
  predicate Holds(buf: seq<Byte>, entries: seq<Entry>) {
    |buf| == BUF && |entries| <= 85 && Layout(buf, entries) && Blank(buf, 12 * |entries|)
  }

  /** Full, and the tag of one more record in the last word. */
  predicate Overfull(buf: seq<Byte>, entries: seq<Entry>) {
    |buf| == BUF && |entries| == 85 && Layout(buf, entries) && WordAt(buf, 1020) != ERASED_WORD
  }

  lemma LayoutGrows(buf: seq<Byte>, buf': seq<Byte>, entries: seq<Entry>)
    requires Layout(buf, entries) && 12 * |entries| <= |buf'| && buf[..12 * |entries|] == buf'[..12 * |entries|]
    ensures Layout(buf', entries)
  {
    hide WordAt;
    forall k | 0 <= k < |entries|
      ensures WordAt(buf', 12 * k) == WordAt(buf, 12 * k) && WordAt(buf', 12 * k + 4) == WordAt(buf, 12 * k + 4)
      ensures WordAt(buf', 12 * k + 8) == WordAt(buf, 12 * k + 8)
    {
      SameBelow(buf, buf', 12 * k, 12 * |entries|);
      SameBelow(buf, buf', 12 * k + 4, 12 * |entries|);
      SameBelow(buf, buf', 12 * k + 8, 12 * |entries|);
    }
  }

  function Records(entries: seq<Entry>): (records: seq<Record>)
    ensures |records| == |entries|
  {
    seq(|entries|, k requires 0 <= k < |entries| => Record(entries[k].tag, 4, 12 * k + 8))
  }

  lemma RoundOfFour(ram: seq<Byte>, off: nat)
    requires |ram| == RAM && off % 4 == 0 && off + 12 <= 1020
    requires WordAt(ram, off) != ERASED_WORD && WordAt(ram, off + 4) == 4
    ensures Round(ram, off) == At(off + 12)
  {
    hide WordAt;
  }

  /** The parser passes such records one per round. */
  lemma {:induction false} WalkLayout(ram: seq<Byte>, entries: seq<Entry>, n: nat)
    requires |ram| == RAM && |entries| <= 85 && Layout(ram, entries) && n <= |entries|
    ensures Walk(ram, n) == At(12 * n) && Passed(ram, n) == Records(entries[..n])
  {
    hide WordAt;
    if n > 0 {
      hide Round, Walk, Passed;
      WalkLayout(ram, entries, n - 1);
      RoundOfFour(ram, 12 * (n - 1));
      WalkStep(ram, n);
      assert Records(entries[..n]) == Records(entries[..n - 1]) + [Record(entries[n - 1].tag, 4, 12 * (n - 1) + 8)];
    }
  }

  lemma DecodeLayout(ram: seq<Byte>, entries: seq<Entry>)
    requires |ram| == RAM && |entries| <= 85 && Layout(ram, entries)
    ensures forall r | r in Records(entries) :: r.at + 4 <= RAM
    ensures Decode(ram, Records(entries)) == entries
  {
    hide WordAt;
  }

  /** And ends behind the last one, if it ends there at all. */
  lemma ParseLayout(ram: seq<Byte>, entries: seq<Entry>)
    requires |ram| == RAM && |entries| <= 85 && Layout(ram, entries)
    requires Round(ram, 12 * |entries|).Ended?
    ensures Walk(ram, ROUNDS) == Round(ram, 12 * |entries|) && Entries(ram) == entries
  {
    hide Round, WordAt, Decode;
    var n := |entries|;
    WalkLayout(ram, entries, n);
    assert entries[..n] == entries;
    assert Passed(ram, n + 1) == Passed(ram, n) + [] == Records(entries);
    WalkStays(ram, n + 1, ROUNDS);
    DecodeLayout(ram, entries);
  }

  /** What the word behind the buffer must not be, if it is read as a length: one that wraps back into it. */
  predicate LeavesBuffer(behind: Behind) { (1028 + RoundUp(WordAt(behind, 0))) % WORDS > 1020 }

  lemma HeldIsFree(mem: seq<Byte>, eraseSize: nat, entries: seq<Entry>, behind: Behind)
    requires BUF <= eraseSize <= |mem| && Holds(Window(mem, eraseSize), entries)
    ensures var ram := Ram(mem, eraseSize, behind);
            Walk(ram, ROUNDS) == Ended(Free(12 * |entries|)) && Entries(ram) == entries
  {
    hide Walk, Passed, Decode, WordAt, Window, Layout;
    var ram := Ram(mem, eraseSize, behind);
    var buf := Window(mem, eraseSize);
    var free := 12 * |entries|;
    WindowInRam(mem, eraseSize, behind);
    LayoutInRam(buf, ram, entries);
    BlankWord(buf, free, free);
    SameBelow(buf, ram, free, BUF);
    ParseLayout(ram, entries);
  }

  lemma ParseInOrder(st: Store, eraseSize: nat, pageSize: nat, entries: seq<Entry>, behind: Behind)
    requires Geometry(|st.mem|, eraseSize, pageSize) && Holds(Window(st.mem, eraseSize), entries)
    ensures ParseDataBlock(st, eraseSize, pageSize, behind)
            == (st.(values := Apply(st.values, entries)), Base(st.mem, eraseSize) + 12 * |entries|)
  {
    hide Walk, Passed, Decode, Apply, Window;
    HeldIsFree(st.mem, eraseSize, entries, behind);
  }

  lemma LayoutInRam(buf: seq<Byte>, ram: seq<Byte>, entries: seq<Entry>)
    requires |buf| == BUF && |ram| == RAM && ram[..BUF] == buf && Layout(buf, entries)
    ensures Layout(ram, entries)
    ensures buf[..BUF] == ram[..BUF]
  {
    assert buf[..BUF] == buf;
    assert buf[..12 * |entries|] == ram[..BUF][..12 * |entries|] == ram[..12 * |entries|];
    LayoutGrows(buf, ram, entries);
  }

  /** An overfull log is invalid exactly if the word behind gTemp, read as the length of the 86th record, leads
      out of the buffer. */
  lemma OverfullIsInvalid(mem: seq<Byte>, eraseSize: nat, entries: seq<Entry>, behind: Behind)
    requires BUF <= eraseSize <= |mem| && Overfull(Window(mem, eraseSize), entries)
    ensures var ram := Ram(mem, eraseSize, behind);
            && Walk(ram, 85) == At(1020)
            && (Walk(ram, 86) == Ended(Invalid) <==> LeavesBuffer(behind))
            && (LeavesBuffer(behind) ==> Walk(ram, ROUNDS) == Ended(Invalid) && Entries(ram) == entries)
  {
    hide WordAt, Window, Layout, Decode, RoundUp;
    var ram := Ram(mem, eraseSize, behind);
    var buf := Window(mem, eraseSize);
    WindowInRam(mem, eraseSize, behind);
    LayoutInRam(buf, ram, entries);
    SameBelow(buf, ram, 1020, BUF);
    WalkLayout(ram, entries, 85);
    if LeavesBuffer(behind) {
      ParseLayout(ram, entries);
    }
  }

  // ---- An overfull log does not look empty ----

  /** The tags and lengths of consecutive records do not repeat with the pages, unless the page size is a
      multiple of twelve. */
  lemma PagesDiffer(buf: seq<Byte>, entries: seq<Entry>, pageSize: nat)
    requires |buf| == BUF && |entries| == 85 && Layout(buf, entries)
    requires 2 * pageSize <= BUF && pageSize % 12 in {4, 8}
    ensures buf[..pageSize] != buf[pageSize..2 * pageSize]
  {
    hide WordAt;
    var k := pageSize / 12;
    if pageSize % 12 == 4 {
      assert pageSize == 12 * k + 4;
      assert IsTag(entries[0].tag) && WordAt(buf, 12 * 0) == entries[0].tag;
      assert WordAt(buf, 12 * k + 4) == 4;
      if buf[..pageSize] == buf[pageSize..2 * pageSize] {
        WordInNextPage(buf, pageSize, 0);
      }
    } else {
      assert pageSize + 4 == 12 * (k + 1);
      assert WordAt(buf, 12 * 0 + 4) == 4;
      assert IsTag(entries[k + 1].tag) && WordAt(buf, 12 * (k + 1)) == entries[k + 1].tag;
      if buf[..pageSize] == buf[pageSize..2 * pageSize] {
        WordInNextPage(buf, pageSize, 4);
      }
    }
  }

  lemma WordInNextPage(buf: seq<Byte>, pageSize: nat, off: nat)
    requires 2 * pageSize <= |buf| && buf[..pageSize] == buf[pageSize..2 * pageSize] && off + 4 <= pageSize
    ensures WordAt(buf, pageSize + off) == WordAt(buf, off)
  {
    assert buf[..pageSize][off..off + 4] == buf[off..off + 4];
    assert buf[pageSize..2 * pageSize][off..off + 4] == buf[pageSize + off..pageSize + off + 4];
    SameWord(buf, off, buf, pageSize + off);
  }

  lemma FirstPageMatches(mem: seq<Byte>, eraseSize: nat, pageSize: nat)
    requires Geometry(|mem|, eraseSize, pageSize) && LooksEmpty(mem, eraseSize, pageSize)
    ensures var buf := Window(mem, eraseSize); buf[..pageSize] == buf[pageSize..2 * pageSize]
  {
    WholePages(eraseSize, pageSize);
    var base := Base(mem, eraseSize);
    assert eraseSize / pageSize > 0;
    assert mem[base..base + pageSize] == Window(mem, eraseSize)[..pageSize];
  }

  lemma ParseOverfull(st: Store, eraseSize: nat, pageSize: nat, entries: seq<Entry>, behind: Behind)
    requires Geometry(|st.mem|, eraseSize, pageSize) && Overfull(Window(st.mem, eraseSize), entries)
    requires LeavesBuffer(behind) && pageSize % 12 in {4, 8}
    ensures ParseDataBlock(st, eraseSize, pageSize, behind) == (st.(values := Apply(st.values, entries)), 0)
  {
    hide Walk, Passed, Decode, Apply, WordAt, Window, Layout, LooksEmpty, LeavesBuffer;
    OverfullIsInvalid(st.mem, eraseSize, entries, behind);
    if LooksEmpty(st.mem, eraseSize, pageSize) {
      FirstPageMatches(st.mem, eraseSize, pageSize);
      PagesDiffer(Window(st.mem, eraseSize), entries, pageSize);
    }
  }

  // ---- Appending a setting ----

  /** One more setting, while fewer than 85 are in the log. */
  lemma AppendHolds(buf: seq<Byte>, entries: seq<Entry>, e: Entry)
    requires Holds(buf, entries) && |entries| < 85 && IsTag(e.tag)
    ensures var buf' := Program(buf, 12 * |entries|, Encode(e.tag, Bytes(e.value)));
            Holds(buf', entries + [e]) && buf'[..12 * |entries|] == buf[..12 * |entries|]
  {
    hide WordAt, Bytes, Program, Blank;
    var free, data := 12 * |entries|, Bytes(e.value);
    var buf' := Program(buf, free, Encode(e.tag, data));
    AppendStores(buf, free, Encode(e.tag, data));
    EntryFields(buf', free, e.tag, data);
    WordIs(buf', free + 8, e.value);
    LayoutGrows(buf, buf', entries);
  }

  /** Only the tag of a record written at the last word lands in the window. */
  lemma AppendOverfills(buf: seq<Byte>, entries: seq<Entry>, e: Entry)
    requires Holds(buf, entries) && |entries| == 85 && IsTag(e.tag)
    ensures var buf' := Program(buf, 1020, Encode(e.tag, Bytes(e.value)));
            Overfull(buf', entries) && buf'[..1020] == buf[..1020]
  {
    hide WordAt, Bytes, Program;
    var entry := Encode(e.tag, Bytes(e.value));
    var buf' := Program(buf, 1020, entry);
    TailWord(buf, e.tag, entry);
    LayoutGrows(buf, buf', entries);
  }

  lemma TailWord(buf: seq<Byte>, tag: Word, entry: seq<Byte>)
    requires |buf| == BUF && Blank(buf, 1020) && |entry| >= 4 && entry[..4] == Bytes(tag)
    ensures var buf' := Program(buf, 1020, entry); buf'[..1020] == buf[..1020] && WordAt(buf', 1020) == tag
  {
    hide WordAt, Meet, Bytes;
    var buf' := Program(buf, 1020, entry);
    forall k | 0 <= k < 4
      ensures buf'[1020..1024][k] == entry[..4][k]
    {
      MeetBlank(entry[k]);
    }
    assert buf'[1020..1024] == Bytes(tag);
    WordIs(buf', 1020, tag);
  }

  /** The length of such a record is stored behind gTemp, where the parser then finds it. */
  lemma StoredLength(behind: Behind, tag: Word, value: Word)
    ensures LeavesBuffer(Stored(behind, 1020, Encode(tag, Bytes(value))))
  {
    hide Bytes, WordAt;
    var stored := Stored(behind, 1020, Encode(tag, Bytes(value)));
    assert stored[0..4] == Bytes(4);
    WordIs(stored, 0, 4);
  }

  /** Writing within the window writes to the flash there, and nowhere else. */
  lemma ProgramWindow(mem: seq<Byte>, eraseSize: nat, off: nat, data: seq<Byte>)
    requires BUF <= eraseSize <= |mem|
    ensures Window(Program(mem, Base(mem, eraseSize) + off, data), eraseSize) == Program(Window(mem, eraseSize), off, data)
    ensures Program(mem, Base(mem, eraseSize) + off, data)[..Base(mem, eraseSize)] == mem[..Base(mem, eraseSize)]
  {
    hide Meet;
  }

  // ---- One step ----

  /** The first 85 settings, which are all the log has room for. */
  function Room(entries: seq<Entry>): seq<Entry> { if |entries| <= 85 then entries else entries[..85] }

  /** The log and the variables hold the first 85 settings made; from the 86th on the log is overfull. */
  ghost predicate Inv(st: Store, eraseSize: nat, made: seq<Entry>)
    requires BUF <= eraseSize <= |st.mem|
  {
    && st.running && st.values == Apply(DEFAULTS, Room(made))
    && if |made| <= 85 then Holds(Window(st.mem, eraseSize), made) else Overfull(Window(st.mem, eraseSize), Room(made))
  }

  lemma SetKeepsInv(st: Store, eraseSize: nat, pageSize: nat, made: seq<Entry>, step: Step)
    requires Geometry(|st.mem|, eraseSize, pageSize) && Inv(st, eraseSize, made)
    requires step.Set? && |made| < 85
    ensures var st' := Do(st, step, eraseSize, pageSize); var base := Base(st.mem, eraseSize);
            && Inv(st', eraseSize, made + [EntryOf(step.setting)])
            && st'.mem[..base] == st.mem[..base]
            && Window(st'.mem, eraseSize)[..12 * |made|] == Window(st.mem, eraseSize)[..12 * |made|]
  {
    hide Holds, Window, ParseDataBlock, Apply, Program, Bytes, Stored;
    var e := EntryOf(step.setting);
    var off := 12 * |made|;
    var entry := Encode(e.tag, Bytes(e.value));
    ParseInOrder(st, eraseSize, pageSize, made, step.behind);
    ApplyAgain(DEFAULTS, made, e);
    AppendHolds(Window(st.mem, eraseSize), made, e);
    ProgramWindow(st.mem, eraseSize, off, entry);
    var mem := Program(st.mem, Base(st.mem, eraseSize) + off, entry);
    ParseInOrder(st.(mem := mem), eraseSize, pageSize, made + [e], Stored(step.behind, off, entry));
  }

  /** The 86th setting passes the fit test, because the unsigned subtraction wraps round, and overfills the
      log. */
  lemma EightySixthIsLost(st: Store, eraseSize: nat, pageSize: nat, made: seq<Entry>, step: Step)
    requires Geometry(|st.mem|, eraseSize, pageSize) && Inv(st, eraseSize, made)
    requires step.Set? && |made| == 85 && pageSize % 12 in {4, 8}
    ensures var st' := Do(st, step, eraseSize, pageSize); var base := Base(st.mem, eraseSize);
            && Inv(st', eraseSize, made + [EntryOf(step.setting)])
            && st'.mem[..base] == st.mem[..base]
            && Window(st'.mem, eraseSize)[..1020] == Window(st.mem, eraseSize)[..1020]
  {
    hide Holds, Overfull, Window, ParseDataBlock, Apply, Program, Bytes, Stored;
    var e := EntryOf(step.setting);
    var entry := Encode(e.tag, Bytes(e.value));
    ParseInOrder(st, eraseSize, pageSize, made, step.behind);
    ApplyAgain(DEFAULTS, made, e);
    AppendOverfills(Window(st.mem, eraseSize), made, e);
    ProgramWindow(st.mem, eraseSize, 1020, entry);
    StoredLength(step.behind, e.tag, e.value);
    var mem := Program(st.mem, Base(st.mem, eraseSize) + 1020, entry);
    ParseOverfull(st.(mem := mem), eraseSize, pageSize, made, Stored(step.behind, 1020, entry));
    assert (made + [e])[..85] == made;
  }

  /** From then on no step changes anything. */
  lemma OverfullStays(st: Store, eraseSize: nat, pageSize: nat, made: seq<Entry>, step: Step)
    requires Geometry(|st.mem|, eraseSize, pageSize) && Inv(st, eraseSize, made)
    requires |made| > 85 && pageSize % 12 in {4, 8} && LeavesBuffer(step.behind)
    ensures Do(st, step, eraseSize, pageSize) == st
  {
    hide Overfull, ParseDataBlock, LeavesBuffer, Apply;
    ParseOverfull(Store(st.mem, DEFAULTS, true), eraseSize, pageSize, Room(made), step.behind);
    ParseOverfull(st, eraseSize, pageSize, Room(made), step.behind);
    ApplyAgain(DEFAULTS, Room(made), Entry(0, 0));
  }

  lemma RebootKeepsInv(st: Store, eraseSize: nat, pageSize: nat, made: seq<Entry>, step: Step)
    requires Geometry(|st.mem|, eraseSize, pageSize) && Inv(st, eraseSize, made)
    requires step.Reboot? && |made| <= 85
    ensures Do(st, step, eraseSize, pageSize) == st
  {
    hide Holds, ParseDataBlock;
    ParseInOrder(Store(st.mem, DEFAULTS, true), eraseSize, pageSize, made, step.behind);
  }

  // ---- Runs ----

  /** Once the log is overfull, no step finds a word behind gTemp that leads the parser back into it, and the
      page size is not a multiple of twelve; up to 85 settings nothing is asked. */
  ghost predicate Sane(steps: seq<Step>, pageSize: nat) {
    steps != [] ==>
      var earlier := steps[..|steps| - 1];
      && Sane(earlier, pageSize)
      && (|Made(steps)| > 85 ==> pageSize % 12 in {4, 8})
      && (|Made(earlier)| > 85 ==> LeavesBuffer(steps[|steps| - 1].behind))
  }

  lemma {:induction false} FewAreSane(steps: seq<Step>, pageSize: nat)
    requires |Made(steps)| <= 85
    ensures Sane(steps, pageSize)
  {
    if steps != [] {
      FewAreSane(steps[..|steps| - 1], pageSize);
    }
  }

  lemma ErasedLogIsEmpty(mem: seq<Byte>, eraseSize: nat)
    requires BUF <= eraseSize <= |mem| && Blank(Window(mem, eraseSize), 0)
    ensures Inv(Store(mem, DEFAULTS, true), eraseSize, [])
  {
  }

  lemma StepKeepsInv(st: Store, eraseSize: nat, pageSize: nat, steps: seq<Step>)
    requires steps != [] && Sane(steps, pageSize)
    requires var earlier := steps[..|steps| - 1];
             Geometry(|st.mem|, eraseSize, pageSize) && Inv(st, eraseSize, Made(earlier))
    ensures var st' := Do(st, steps[|steps| - 1], eraseSize, pageSize); var base := Base(st.mem, eraseSize);
            var kept := 12 * |Room(Made(steps[..|steps| - 1]))|;
            && Inv(st', eraseSize, Made(steps))
            && st'.mem[..base] == st.mem[..base]
            && Window(st'.mem, eraseSize)[..kept] == Window(st.mem, eraseSize)[..kept]
  {
    hide Inv, Do, Window, LeavesBuffer;
    var made, step := Made(steps[..|steps| - 1]), steps[|steps| - 1];
    if |made| > 85 {
      OverfullStays(st, eraseSize, pageSize, made, step);
      if step.Set? {
        StillOverfull(st, eraseSize, made, EntryOf(step.setting));
      }
    } else if step.Reboot? {
      RebootKeepsInv(st, eraseSize, pageSize, made, step);
    } else if |made| < 85 {
      SetKeepsInv(st, eraseSize, pageSize, made, step);
    } else {
      EightySixthIsLost(st, eraseSize, pageSize, made, step);
    }
  }

  lemma StillOverfull(st: Store, eraseSize: nat, made: seq<Entry>, e: Entry)
    requires BUF <= eraseSize <= |st.mem| && Inv(st, eraseSize, made) && |made| > 85
    ensures Inv(st, eraseSize, made + [e])
  {
    hide Overfull;
    assert Room(made + [e]) == Room(made);
  }

  lemma {:induction false} RunInvariant(mem: seq<Byte>, steps: seq<Step>, eraseSize: nat, pageSize: nat)
    requires Geometry(|mem|, eraseSize, pageSize) && Blank(Window(mem, eraseSize), 0) && Sane(steps, pageSize)
    ensures Inv(Run(mem, steps, eraseSize, pageSize), eraseSize, Made(steps))
    ensures Run(mem, steps, eraseSize, pageSize).mem[..Base(mem, eraseSize)] == mem[..Base(mem, eraseSize)]
  {
    hide Inv, Do, Blank, Window, LeavesBuffer;
    if steps == [] {
      ErasedLogIsEmpty(mem, eraseSize);
    } else {
      RunInvariant(mem, steps[..|steps| - 1], eraseSize, pageSize);
      StepKeepsInv(Run(mem, steps[..|steps| - 1], eraseSize, pageSize), eraseSize, pageSize, steps);
    }
  }

  // ---- What a run is to do, from its commands alone ----

  /** How many settings a run makes. */
  function Count(steps: seq<Step>): nat {
    if steps == [] then 0 else Count(steps[..|steps| - 1]) + if steps[|steps| - 1].Set? then 1 else 0
  }

  function LastAutoBoot(steps: seq<Step>): Word {
    if steps == [] then 0
    else
      match steps[|steps| - 1]
      case Set(AutoBoot(delayed, on), _) => if delayed then 2 else if on then 1 else 0
      case _ => LastAutoBoot(steps[..|steps| - 1])
  }

  function LastBootAdr(steps: seq<Step>): Word {
    if steps == [] then 0x40000
    else
      match steps[|steps| - 1]
      case Set(BootAdr(adr), _) => adr
      case _ => LastBootAdr(steps[..|steps| - 1])
  }

  function LastServer(steps: seq<Step>): Word {
    if steps == [] then 0
    else
      match steps[|steps| - 1]
      case Set(TftpServer(ip), _) => ip
      case _ => LastServer(steps[..|steps| - 1])
  }

  lemma {:induction false} MadeMeans(steps: seq<Step>)
    ensures |Made(steps)| == Count(steps)
    ensures LastValues(Made(steps), DEFAULTS) == Values(LastAutoBoot(steps), LastBootAdr(steps), LastServer(steps))
  {
    if steps != [] {
      var earlier := steps[..|steps| - 1];
      MadeMeans(earlier);
      assert steps[|steps| - 1].Set? ==> Made(steps)[..|Made(steps)| - 1] == Made(earlier);
    }
  }

  /** The first 1024 bytes of the last erase block are erased. */
  predicate ErasedLog(mem: seq<Byte>, eraseSize: nat)
    requires 1024 <= eraseSize <= |mem|
  {
    forall i | |mem| - eraseSize <= i < |mem| - eraseSize + 1024 :: mem[i] == 0xFF
  }

  lemma ErasedWindow(mem: seq<Byte>, eraseSize: nat)
    requires BUF <= eraseSize <= |mem| && ErasedLog(mem, eraseSize)
    ensures Blank(Window(mem, eraseSize), 0) && Base(mem, eraseSize) == |mem| - eraseSize
  {
  }

  /** Main result: from an erased block, after any run of up to 85 settings interleaved with reboots, each
      variable has the last value set for it, or its default; a reboot finds the same in the flash, whatever the
      variables were before it; and nothing outside the last block has changed. */
  lemma LastValueWins(mem: seq<Byte>, steps: seq<Step>, eraseSize: nat, pageSize: nat, behind: Behind)
    requires Geometry(|mem|, eraseSize, pageSize) && ErasedLog(mem, eraseSize) && Count(steps) <= 85
    ensures var st := Run(mem, steps, eraseSize, pageSize);
            && st.running && st.values == Values(LastAutoBoot(steps), LastBootAdr(steps), LastServer(steps))
            && (forall v: Values, running: bool :: Do(Store(st.mem, v, running), Reboot(behind), eraseSize, pageSize) == st)
            && st.mem[..|mem| - eraseSize] == mem[..|mem| - eraseSize]
  {
    hide Holds, Do, Blank, LastValues, Apply, Sane, ErasedLog, Window;
    MadeMeans(steps);
    ErasedWindow(mem, eraseSize);
    FewAreSane(steps, pageSize);
    RunInvariant(mem, steps, eraseSize, pageSize);
    ApplyIsLastValues(DEFAULTS, Made(steps));
    var st := Run(mem, steps, eraseSize, pageSize);
    RebootKeepsInv(st, eraseSize, pageSize, Made(steps), Reboot(behind));
    forall v: Values, running: bool
      ensures Do(Store(st.mem, v, running), Reboot(behind), eraseSize, pageSize) == st
    {
      RebootForgets(st, Store(st.mem, v, running), behind, eraseSize, pageSize);
    }
  }

  lemma RebootForgets(a: Store, b: Store, behind: Behind, eraseSize: nat, pageSize: nat)
    requires a.mem == b.mem && Geometry(|a.mem|, eraseSize, pageSize)
    ensures Do(a, Reboot(behind), eraseSize, pageSize) == Do(b, Reboot(behind), eraseSize, pageSize)
  {
    hide ParseDataBlock;
  }

  /** What the command is to do with the variables. */
  function Updated(v: Values, s: Setting): Values {
    match s
    case AutoBoot(delayed, on) => v.(autoBoot := if delayed then 2 else if on then 1 else 0)
    case BootAdr(adr) => v.(autoBootAdr := adr)
    case TftpServer(ip) => v.(server := ip)
  }

  /** Main result: while fewer than 85 settings have been made, each command sets its variable and no other, and
      a reboot keeps it. */
  lemma CommandsSetVariables(mem: seq<Byte>, steps: seq<Step>, setting: Setting, behind: Behind, later: Behind,
                             eraseSize: nat, pageSize: nat)
    requires Geometry(|mem|, eraseSize, pageSize) && ErasedLog(mem, eraseSize) && Count(steps) < 85
    ensures var st := Run(mem, steps, eraseSize, pageSize);
            var set_ := Do(st, Set(setting, behind), eraseSize, pageSize);
            && set_.values == Updated(st.values, setting)
            && (forall v: Values, running: bool :: Do(Store(set_.mem, v, running), Reboot(later), eraseSize, pageSize) == set_)
  {
    hide Do, ErasedLog;
    var all := steps + [Set(setting, behind)];
    assert all[..|steps|] == steps;
    LastValueWins(mem, steps, eraseSize, pageSize, later);
    LastValueWins(mem, all, eraseSize, pageSize, later);
  }

  /** The bytes of the record of a setting: tag, length and value, least significant byte first. */
  function RecordBytes(s: Setting): seq<Byte> {
    match s
    case AutoBoot(delayed, on) =>
      [0xC4, 0xDA, 0x06, 0x00, 4, 0, 0, 0, if delayed then 2 else if on then 1 else 0, 0, 0, 0]
    case BootAdr(adr) => [0xC5, 0xDA, 0x06, 0x00, 4, 0, 0, 0] + Bytes(adr)
    case TftpServer(ip) => [0xC6, 0xDA, 0x06, 0x00, 4, 0, 0, 0] + Bytes(ip)
  }

  lemma TagBytes()
    ensures Bytes(449220) == [0xC4, 0xDA, 0x06, 0x00]
    ensures Bytes(449221) == [0xC5, 0xDA, 0x06, 0x00]
    ensures Bytes(449222) == [0xC6, 0xDA, 0x06, 0x00]
  {
    hide Digit;
    DigitOfValue(0xC4);
    DigitOfValue(0xC5);
    DigitOfValue(0xC6);
    DigitOfValue(0xDA);
    DigitOfValue(0x06);
    DigitOfValue(0);
  }

  lemma SmallBytes()
    ensures Bytes(0) == [0, 0, 0, 0] && Bytes(1) == [1, 0, 0, 0] && Bytes(2) == [2, 0, 0, 0] && Bytes(4) == [4, 0, 0, 0]
  {
  }

  lemma EncodedSetting(s: Setting)
    ensures Encode(EntryOf(s).tag, Bytes(EntryOf(s).value)) == RecordBytes(s)
  {
    hide Bytes;
    TagBytes();
    SmallBytes();
  }

  /** Main result: the n-th setting is in the flash as these twelve bytes, 12 n bytes into the last block. */
  lemma SettingIsStored(mem: seq<Byte>, steps: seq<Step>, setting: Setting, behind: Behind, eraseSize: nat, pageSize: nat)
    requires Geometry(|mem|, eraseSize, pageSize) && ErasedLog(mem, eraseSize) && Count(steps) < 85
    ensures var st := Do(Run(mem, steps, eraseSize, pageSize), Set(setting, behind), eraseSize, pageSize);
            var at := |mem| - eraseSize + 12 * Count(steps);
            |st.mem| == |mem| && at + 12 <= |mem| && st.mem[at..at + 12] == RecordBytes(setting)
  {
    hide Blank, Apply, Sane, ErasedLog, Window, Program, Encode, Bytes, RecordBytes, Do, LastValues, Layout;
    MadeMeans(steps);
    ErasedWindow(mem, eraseSize);
    FewAreSane(steps, pageSize);
    RunInvariant(mem, steps, eraseSize, pageSize);
    var st := Run(mem, steps, eraseSize, pageSize);
    SetWrites(st, eraseSize, pageSize, Made(steps), Set(setting, behind));
    EncodedSetting(setting);
    EncodeLength(EntryOf(setting).tag, Bytes(EntryOf(setting).value));
    StoredInFlash(st.mem, eraseSize, Made(steps), Encode(EntryOf(setting).tag, Bytes(EntryOf(setting).value)));
  }

  lemma SetWrites(st: Store, eraseSize: nat, pageSize: nat, made: seq<Entry>, step: Step)
    requires Geometry(|st.mem|, eraseSize, pageSize) && st.running && Holds(Window(st.mem, eraseSize), made)
    requires step.Set? && |made| < 85
    ensures var e := EntryOf(step.setting);
            Do(st, step, eraseSize, pageSize).mem
            == Program(st.mem, Base(st.mem, eraseSize) + 12 * |made|, Encode(e.tag, Bytes(e.value)))
  {
    hide Holds, Window, ParseDataBlock, Apply, Program, Bytes, Stored, Encode;
    ParseInOrder(st, eraseSize, pageSize, made, step.behind);
  }

  lemma StoredInFlash(mem: seq<Byte>, eraseSize: nat, made: seq<Entry>, entry: seq<Byte>)
    requires BUF <= eraseSize <= |mem| && Holds(Window(mem, eraseSize), made) && |made| < 85 && |entry| == 12
    ensures var at := Base(mem, eraseSize) + 12 * |made|; Program(mem, at, entry)[at..at + 12] == entry
  {
    hide Program, Layout;
    var off, base := 12 * |made|, Base(mem, eraseSize);
    ProgramWindow(mem, eraseSize, off, entry);
    AppendStores(Window(mem, eraseSize), off, entry);
    var mem' := Program(mem, base + off, entry);
    Slice(mem', base, BUF, off, off + 12);
  }

  lemma EarlierIsSane(steps: seq<Step>, pageSize: nat)
    requires steps != [] && Sane(steps, pageSize)
    ensures Sane(steps[..|steps| - 1], pageSize)
  {
  }

  lemma RoomGrows(a: seq<Entry>, b: seq<Entry>)
    requires |a| <= |b|
    ensures |Room(a)| <= |Room(b)| <= 85
  {
  }

  lemma {:induction false} EarlierWindowStays(mem: seq<Byte>, steps: seq<Step>, n: nat, eraseSize: nat, pageSize: nat)
    requires Geometry(|mem|, eraseSize, pageSize) && ErasedLog(mem, eraseSize) && Sane(steps, pageSize)
    requires n <= |steps|
    ensures |Made(steps[..n])| <= |Made(steps)|
    ensures var kept := 12 * |Room(Made(steps[..n]))|;
            Window(Run(mem, steps, eraseSize, pageSize).mem, eraseSize)[..kept]
            == Window(Run(mem, steps[..n], eraseSize, pageSize).mem, eraseSize)[..kept]
  {
    ErasedWindow(mem, eraseSize);
    hide Inv, Do, Blank, Window, ErasedLog, LeavesBuffer, Room, Sane;
    if n == |steps| {
      assert steps[..n] == steps;
    } else {
      var earlier := steps[..|steps| - 1];
      assert earlier[..n] == steps[..n];
      EarlierIsSane(steps, pageSize);
      EarlierWindowStays(mem, earlier, n, eraseSize, pageSize);
      RoomGrows(Made(steps[..n]), Made(earlier));
      RunInvariant(mem, earlier, eraseSize, pageSize);
      var st := Run(mem, earlier, eraseSize, pageSize);
      StepKeepsInv(st, eraseSize, pageSize, steps);
      ShorterPrefix(Window(Run(mem, steps, eraseSize, pageSize).mem, eraseSize), Window(st.mem, eraseSize),
                    12 * |Room(Made(earlier))|, 12 * |Room(Made(steps[..n]))|);
    }
  }

  lemma WindowPart(mem: seq<Byte>, eraseSize: nat, n: nat)
    requires BUF <= eraseSize <= |mem| && n <= BUF
    ensures Window(mem, eraseSize)[..n] == mem[|mem| - eraseSize..|mem| - eraseSize + n]
  {
  }

  /** Main result: the log only grows. Whatever it holds after the first `n` steps of a run, in 12 bytes for each
      of up to 85 settings, is still there, byte for byte, after all of them. */
  lemma EarlierBytesStay(mem: seq<Byte>, steps: seq<Step>, n: nat, eraseSize: nat, pageSize: nat)
    requires Geometry(|mem|, eraseSize, pageSize) && ErasedLog(mem, eraseSize) && Sane(steps, pageSize)
    requires n <= |steps|
    ensures var log, count := |mem| - eraseSize, Count(steps[..n]);
            var kept := 12 * if count <= 85 then count else 85;
            Run(mem, steps, eraseSize, pageSize).mem[log..log + kept]
            == Run(mem, steps[..n], eraseSize, pageSize).mem[log..log + kept]
  {
    hide Run, Window, ErasedLog, Sane, LastValues;
    MadeMeans(steps[..n]);
    EarlierWindowStays(mem, steps, n, eraseSize, pageSize);
    var kept := 12 * |Room(Made(steps[..n]))|;
    WindowPart(Run(mem, steps, eraseSize, pageSize).mem, eraseSize, kept);
    WindowPart(Run(mem, steps[..n], eraseSize, pageSize).mem, eraseSize, kept);
  }

  lemma ShorterPrefix(a: seq<Byte>, b: seq<Byte>, n: nat, m: nat)
    requires m <= n <= |a| && n <= |b| && a[..n] == b[..n]
    ensures a[..m] == b[..m]
  {
    assert a[..m] == a[..n][..m] && b[..m] == b[..n][..m];
  }

  /** What a boot reads from the flash: the parser ends at a free word, having seen these entries. */
  ghost predicate ReadsAs(mem: seq<Byte>, eraseSize: nat, behind: Behind, entries: seq<Entry>)
    requires BUF <= eraseSize <= |mem|
  {
    var ram := Ram(mem, eraseSize, behind);
    Walk(ram, ROUNDS).Ended? && Walk(ram, ROUNDS).outcome.Free? && Entries(ram) == entries
  }

  /** Main result: after any run, of any number of settings, one more is kept by the log exactly while fewer
      than 85 are in it; and the variables have the last values of the first 85. */
  lemma SettingIsKeptIffRoom(mem: seq<Byte>, steps: seq<Step>, step: Step, eraseSize: nat, pageSize: nat, behind: Behind)
    requires Geometry(|mem|, eraseSize, pageSize) && ErasedLog(mem, eraseSize)
    requires step.Set? && Sane(steps + [step], pageSize) && (Count(steps) >= 85 ==> LeavesBuffer(behind))
    ensures var st := Do(Run(mem, steps, eraseSize, pageSize), step, eraseSize, pageSize);
            var made := Made(steps) + [EntryOf(step.setting)];
            && (ReadsAs(st.mem, eraseSize, behind, made) <==> Count(steps) < 85)
            && st.running && st.values == LastValues(Room(made), DEFAULTS)
  {
    MadeMeans(steps);
    ErasedWindow(mem, eraseSize);
    hide Window, Blank, Do, ErasedLog, Apply, LastValues, Sane, LeavesBuffer, Inv;
    var all := steps + [step];
    assert all[..|steps|] == steps;
    RunInvariant(mem, all, eraseSize, pageSize);
    var made := Made(steps) + [EntryOf(step.setting)];
    assert Made(all) == made;
    var st := Run(mem, all, eraseSize, pageSize);
    ReadBack(st, eraseSize, pageSize, made, behind);
    ApplyIsLastValues(DEFAULTS, Room(made));
  }

  lemma ReadBack(st: Store, eraseSize: nat, pageSize: nat, made: seq<Entry>, behind: Behind)
    requires BUF <= eraseSize <= |st.mem| && Inv(st, eraseSize, made) && (|made| > 85 ==> LeavesBuffer(behind))
    ensures ReadsAs(st.mem, eraseSize, behind, made) <==> |made| <= 85
    ensures st.running && st.values == Apply(DEFAULTS, Room(made))
  {
    hide Walk, Passed, Decode, Apply, WordAt, Window, Layout, LeavesBuffer, Blank;
    if |made| <= 85 {
      HeldIsFree(st.mem, eraseSize, made, behind);
    } else {
      OverfullIsInvalid(st.mem, eraseSize, Room(made), behind);
    }
  }

  // ---- Records of any length ----

  /** A later parse, with `later` behind gTemp, finds the old records and then this one, with its value in the
      buffer. */
  ghost predicate Rereads(mem: seq<Byte>, eraseSize: nat, later: Behind, records: seq<Record>, off: nat, tag: Word,
                          data: seq<Byte>)
    requires BUF <= eraseSize <= |mem| && |data| < WORDS
  {
    var ram := Ram(mem, eraseSize, later);
    && Walk(ram, ROUNDS).Ended? && Walk(ram, ROUNDS).outcome.Free?
    && Passed(ram, ROUNDS) == records + [Record(tag, |data|, off + 8)]
    && off + 8 + |data| <= BUF && ram[off + 8..off + 8 + |data|] == data
  }

  /** A log whose lengths do not wrap, with everything behind its last record erased; the next goes to `off`. */
  ghost predicate IsLog(mem: seq<Byte>, eraseSize: nat, behind: Behind, records: seq<Record>, off: nat)
    requires BUF <= eraseSize <= |mem|
  {
    Parse(Ram(mem, eraseSize, behind), 0) == Parsed(Free(off), records) && Blank(Window(mem, eraseSize), off)
  }

  lemma LogIsWalked(st: Store, eraseSize: nat, pageSize: nat, behind: Behind, records: seq<Record>, off: nat)
    requires Geometry(|st.mem|, eraseSize, pageSize) && IsLog(st.mem, eraseSize, behind, records, off)
    ensures off % 4 == 0 && off <= 1020
    ensures ParseDataBlock(st, eraseSize, pageSize, behind)
            == (st.(values := Apply(st.values, Entries(Ram(st.mem, eraseSize, behind)))), Base(st.mem, eraseSize) + off)
  {
    hide Walk, Passed, Ram, Decode, Apply, Blank, Parse, Window, LooksEmpty;
    var ram := Ram(st.mem, eraseSize, behind);
    FreeOffset(ram);
    WalkFollowsParse(ram);
  }

  lemma FittingIsReread(mem: seq<Byte>, eraseSize: nat, behind: Behind, later: Behind, records: seq<Record>, off: nat,
                        tag: Word, data: seq<Byte>)
    requires BUF <= eraseSize <= |mem| && IsLog(mem, eraseSize, behind, records, off) && tag != ERASED_WORD
    requires off + 12 + |data| <= BUF
    ensures Rereads(Program(mem, Base(mem, eraseSize) + off, Encode(tag, data)), eraseSize, later, records, off, tag, data)
  {
    hide Walk, Passed, Ram, Window, Parse, Program, Encode, Blank;
    var mem' := Program(mem, Base(mem, eraseSize) + off, Encode(tag, data));
    ProgramWindow(mem, eraseSize, off, Encode(tag, data));
    WindowInRam(mem, eraseSize, behind);
    WindowInRam(mem', eraseSize, later);
    AppendIsReread(Ram(mem, eraseSize, behind), Ram(mem', eraseSize, later), tag, data);
  }

  /** What is not written is not found. */
  lemma UnwrittenIsNotReread(mem: seq<Byte>, eraseSize: nat, behind: Behind, later: Behind, records: seq<Record>, off: nat,
                             tag: Word, data: seq<Byte>)
    requires BUF <= eraseSize <= |mem| && IsLog(mem, eraseSize, behind, records, off) && |data| < WORDS
    ensures !Rereads(mem, eraseSize, later, records, off, tag, data)
  {
    hide Walk, Passed, Ram, Window, WordAt;
    var ram, ram', buf := Ram(mem, eraseSize, behind), Ram(mem, eraseSize, later), Window(mem, eraseSize);
    WindowInRam(mem, eraseSize, behind);
    WindowInRam(mem, eraseSize, later);
    FreeOffset(ram);
    assert ram[..off] == buf[..off] == ram'[..off];
    ParsePrefix(ram, ram', 0, off);
    BlankWord(buf, off, off);
    assert buf[..BUF] == ram'[..BUF];
    SameBelow(buf, ram', off, BUF);
    assert Parse(ram', off) == Parsed(Free(off), []);
    assert Parse(ram', 0).records == records + [];
    hide Parse;
    WalkFollowsParse(ram');
  }

  /** Main result: a record of any length is found again by every later parse exactly if it fits the buffer with
      one word to spare, although the fit test also lets records through for which its subtraction wraps. */
  lemma AnyRecordIsRereadIffItFits(st: Store, eraseSize: nat, pageSize: nat, records: seq<Record>, off: nat, tag: Word,
                                   data: seq<Byte>, behind: Behind, later: Behind)
    requires Geometry(|st.mem|, eraseSize, pageSize) && IsLog(st.mem, eraseSize, behind, records, off)
    requires tag != ERASED_WORD && |data| < WORDS - 8
    ensures Rereads(AddBoardInfo(st, eraseSize, pageSize, tag, data, behind).mem, eraseSize, later, records, off, tag, data)
            <==> off + 12 + |data| <= BUF
  {
    hide Walk, Passed, Ram, Window, Program, Encode, Stored, ParseDataBlock, IsLog;
    LogIsWalked(st, eraseSize, pageSize, behind, records, off);
    if off + 12 + |data| <= BUF {
      FittingIsReread(st.mem, eraseSize, behind, later, records, off, tag, data);
    } else if off + 8 + |data| <= BUF {
      UnwrittenIsNotReread(st.mem, eraseSize, behind, later, records, off, tag, data);
    }
  }

  // ---- The test for an empty block ----

  /** An invalid block is never erased, so where the parser takes one for empty it is mistaken. */
  lemma InvalidIsNeverErased(mem: seq<Byte>, eraseSize: nat, behind: Behind)
    requires BUF <= eraseSize <= |mem| && Walk(Ram(mem, eraseSize, behind), ROUNDS) == Ended(Invalid)
    ensures !FlashMap.AllBlank(mem, Base(mem, eraseSize), eraseSize)
  {
    hide WordAt, Walk, Ram;
    if FlashMap.AllBlank(mem, Base(mem, eraseSize), eraseSize) {
      ErasedIsFree(mem, eraseSize, behind);
    }
  }

  lemma ErasedIsFree(mem: seq<Byte>, eraseSize: nat, behind: Behind)
    requires BUF <= eraseSize <= |mem| && FlashMap.AllBlank(mem, Base(mem, eraseSize), eraseSize)
    ensures Walk(Ram(mem, eraseSize, behind), ROUNDS) == Ended(Free(0))
  {
    hide Walk, Passed, Ram;
    assert Blank(Window(mem, eraseSize), 0);
    HeldIsFree(mem, eraseSize, [], behind);
  }

  /** The place of byte `i` in its page. */
  function Offset(i: nat, pageSize: nat): (o: nat)
    requires pageSize > 0
    ensures o < pageSize
  {
    i % pageSize
  }

  /** Every page of the last block equals its second page. */
  predicate PagesRepeat(mem: seq<Byte>, eraseSize: nat, pageSize: nat)
    requires Geometry(|mem|, eraseSize, pageSize)
  {
    var base := Base(mem, eraseSize);
    forall i | 0 <= i < eraseSize :: mem[base + i] == mem[base + pageSize + Offset(i, pageSize)]
  }

  /** `n` bytes from `adr` on repeat the page. */
  predicate Repeats(mem: seq<Byte>, adr: nat, n: nat, page: seq<Byte>)
    requires adr + n <= |mem| && page != []
  {
    forall i | 0 <= i < n :: mem[adr + i] == page[Offset(i, |page|)]
  }

  lemma NextPageSameOffset(i: nat, size: nat)
    requires size > 0
    ensures Offset(i + size, size) == Offset(i, size)
  {
    Division.Unique(i + size, i / size + 1, i % size, size);
  }

  lemma FirstPageOffset(i: nat, size: nat)
    requires i < size
    ensures Offset(i, size) == i
  {
    Division.Unique(i, 0, i, size);
  }

  lemma OnePageLess(mem: seq<Byte>, adr: nat, n: nat, page: seq<Byte>)
    requires page != [] && adr + |page| + n <= |mem| && Repeats(mem, adr, |page| + n, page)
    ensures mem[adr..adr + |page|] == page && Repeats(mem, adr + |page|, n, page)
  {
    hide Offset;
    forall i | 0 <= i < |page|
      ensures mem[adr + i] == page[i]
    {
      FirstPageOffset(i, |page|);
    }
    forall i | 0 <= i < n
      ensures mem[adr + |page| + i] == page[Offset(i, |page|)]
    {
      NextPageSameOffset(i, |page|);
      assert mem[adr + (i + |page|)] == page[Offset(i + |page|, |page|)];
    }
  }

  lemma OnePageMore(mem: seq<Byte>, adr: nat, n: nat, page: seq<Byte>)
    requires page != [] && adr + |page| + n <= |mem|
    requires mem[adr..adr + |page|] == page && Repeats(mem, adr + |page|, n, page)
    ensures Repeats(mem, adr, |page| + n, page)
  {
    hide Offset;
    forall i | 0 <= i < |page| + n
      ensures mem[adr + i] == page[Offset(i, |page|)]
    {
      if i < |page| {
        FirstPageOffset(i, |page|);
        assert mem[adr + i] == mem[adr..adr + |page|][i];
      } else {
        NextPageSameOffset(i - |page|, |page|);
        assert mem[adr + |page| + (i - |page|)] == page[Offset(i - |page|, |page|)];
      }
    }
  }

  lemma {:induction false} PagesMatchBytes(mem: seq<Byte>, adr: nat, n: nat, page: seq<Byte>)
    requires page != [] && 0 <= n * |page| && adr + n * |page| <= |mem|
    ensures FlashMap.PagesMatch(mem, adr, n, page) <==> Repeats(mem, adr, n * |page|, page)
    decreases n
  {
    if n > 0 {
      FlashMap.MorePages(n, |page|);
      PagesMatchBytes(mem, adr + |page|, n - 1, page);
      hide Repeats;
      if Repeats(mem, adr, n * |page|, page) {
        OnePageLess(mem, adr, (n - 1) * |page|, page);
      } else if FlashMap.PagesMatch(mem, adr, n, page) {
        OnePageMore(mem, adr, (n - 1) * |page|, page);
      }
    }
  }

  /** Main result: an invalid block is used for new settings exactly if all its pages are equal. */
  lemma InvalidIsUsedIffPagesRepeat(st: Store, eraseSize: nat, pageSize: nat, behind: Behind)
    requires Geometry(|st.mem|, eraseSize, pageSize)
    requires Walk(Ram(st.mem, eraseSize, behind), ROUNDS) == Ended(Invalid)
    ensures ParseDataBlock(st, eraseSize, pageSize, behind).1 == Base(st.mem, eraseSize)
            <==> PagesRepeat(st.mem, eraseSize, pageSize)
    ensures ParseDataBlock(st, eraseSize, pageSize, behind).1 in {0, Base(st.mem, eraseSize)}
  {
    hide Walk, Passed, Ram, Decode, Apply, LooksEmpty;
    LooksEmptyIffPagesRepeat(st.mem, eraseSize, pageSize);
  }

  lemma LooksEmptyIffPagesRepeat(mem: seq<Byte>, eraseSize: nat, pageSize: nat)
    requires Geometry(|mem|, eraseSize, pageSize)
    ensures LooksEmpty(mem, eraseSize, pageSize) <==> PagesRepeat(mem, eraseSize, pageSize)
  {
    hide Offset, FlashMap.PagesMatch;
    var base, page := Base(mem, eraseSize), SecondPage(Window(mem, eraseSize), pageSize);
    WholePages(eraseSize, pageSize);
    PagesMatchBytes(mem, base, eraseSize / pageSize, page);
    assert forall i | 0 <= i < eraseSize :: page[Offset(i, pageSize)] == mem[base + pageSize + Offset(i, pageSize)];
  }

  /** No bit of the entry is 1 where the flash has a 0. */
  predicate OnlyClearsBits(mem: seq<Byte>, adr: nat, entry: seq<Byte>)
    requires adr + |entry| <= |mem|
  {
    forall i | 0 <= i < |entry| :: entry[i] & !mem[adr + i] == 0
  }

  /** What is written into such a block is there afterwards exactly if it clears bits only; then the parser
      finds it as the first record. */
  lemma RecordIntoInvalidBlock(st: Store, eraseSize: nat, pageSize: nat, tag: Word, data: seq<Byte>, behind: Behind, later: Behind)
    requires Geometry(|st.mem|, eraseSize, pageSize) && 8 + |data| + 4 <= BUF
    requires Walk(Ram(st.mem, eraseSize, behind), ROUNDS) == Ended(Invalid) && PagesRepeat(st.mem, eraseSize, pageSize)
    ensures var mem := AddBoardInfo(st, eraseSize, pageSize, tag, data, behind).mem;
            var base, entry := Base(st.mem, eraseSize), Encode(tag, data);
            && mem == Program(st.mem, base, entry)
            && (mem[base..base + |entry|] == entry <==> OnlyClearsBits(st.mem, base, entry))
            && (mem[base..base + |entry|] == entry && tag != ERASED_WORD ==>
                  Passed(Ram(mem, eraseSize, later), 1) == [Record(tag, |data|, 8)])
  {
    hide Walk, Passed, Ram, Encode, Program, AddBoardInfo, PagesRepeat, OnlyClearsBits;
    InvalidIsWritten(st, eraseSize, pageSize, tag, data, behind);
    EncodeLength(tag, data);
    ProgramReads(st.mem, Base(st.mem, eraseSize), Encode(tag, data));
    var mem := Program(st.mem, Base(st.mem, eraseSize), Encode(tag, data));
    var base := Base(st.mem, eraseSize);
    if mem[base..base + |Encode(tag, data)|] == Encode(tag, data) && tag != ERASED_WORD {
      FirstRecord(mem, eraseSize, tag, data, later);
    }
  }

  lemma InvalidIsWritten(st: Store, eraseSize: nat, pageSize: nat, tag: Word, data: seq<Byte>, behind: Behind)
    requires Geometry(|st.mem|, eraseSize, pageSize) && 8 + |data| + 4 <= BUF
    requires Walk(Ram(st.mem, eraseSize, behind), ROUNDS) == Ended(Invalid) && PagesRepeat(st.mem, eraseSize, pageSize)
    ensures AddBoardInfo(st, eraseSize, pageSize, tag, data, behind).mem
            == Program(st.mem, Base(st.mem, eraseSize), Encode(tag, data))
  {
    hide Walk, Ram, Encode, Program, ParseDataBlock, PagesRepeat, Stored;
    InvalidIsUsedIffPagesRepeat(st, eraseSize, pageSize, behind);
  }

  lemma FirstRecord(mem: seq<Byte>, eraseSize: nat, tag: Word, data: seq<Byte>, behind: Behind)
    requires BUF <= eraseSize <= |mem| && 8 + |data| + 4 <= BUF && tag != ERASED_WORD
    requires mem[Base(mem, eraseSize)..Base(mem, eraseSize) + 8 + |data|] == Encode(tag, data)
    ensures Passed(Ram(mem, eraseSize, behind), 1) == [Record(tag, |data|, 8)]
  {
    hide WordAt, RoundUp, Encode;
    var ram := Ram(mem, eraseSize, behind);
    assert ram[0..8 + |data|] == mem[Base(mem, eraseSize)..Base(mem, eraseSize) + 8 + |data|];
    EntryFields(ram, 0, tag, data);
    RoundedFits(0, |data|);
    assert Round(ram, 0).At?;
    assert Walk(ram, 0) == At(0) && Passed(ram, 0) == [];
    WalkStep(ram, 1);
  }

  lemma EncodeLength(tag: Word, data: seq<Byte>)
    requires |data| < WORDS
    ensures |Encode(tag, data)| == 8 + |data|
  {
  }

  lemma ProgramReads(mem: seq<Byte>, adr: nat, entry: seq<Byte>)
    requires adr + |entry| <= |mem|
    ensures Program(mem, adr, entry)[adr..adr + |entry|] == entry
            <==> OnlyClearsBits(mem, adr, entry)
  {
    hide Meet;
    var read := Program(mem, adr, entry)[adr..adr + |entry|];
    forall i | 0 <= i < |entry|
      ensures read[i] == entry[i] <==> entry[i] & !mem[adr + i] == 0
    {
      OnlyClears(mem[adr + i], entry[i]);
    }
  }

  // ---- A block of zeros ----

  /** The last block is all zeros. */
  predicate ZeroBlock(mem: seq<Byte>, eraseSize: nat)
    requires eraseSize <= |mem|
  {
    forall i | Base(mem, eraseSize) <= i < |mem| :: mem[i] == 0
  }

  lemma ZeroWord(ram: seq<Byte>, off: nat)
    requires off + 4 <= |ram| && forall i | off <= i < off + 4 :: ram[i] == 0
    ensures WordAt(ram, off) == 0
  {
    assert Value(0) == 0;
  }

  lemma RoundOfZeros(ram: seq<Byte>, off: nat)
    requires |ram| == RAM && off % 4 == 0 && off <= 1016 && forall i | 0 <= i < BUF :: ram[i] == 0
    ensures Round(ram, off) == (if off + 8 <= 1020 then At(off + 8) else Ended(Invalid))
    ensures RecordAt(ram, off).tag == 0
  {
    hide WordAt;
    ZeroWord(ram, off);
    ZeroWord(ram, off + 4);
  }

  lemma {:induction false} WalkZeros(ram: seq<Byte>, n: nat)
    requires |ram| == RAM && n <= 127 && forall i | 0 <= i < BUF :: ram[i] == 0
    ensures Walk(ram, n) == At(8 * n) && forall r | r in Passed(ram, n) :: r.tag == 0
  {
    if n > 0 {
      hide Round, RecordAt;
      WalkZeros(ram, n - 1);
      RoundOfZeros(ram, 8 * (n - 1));
    }
  }

  lemma ZerosAreInvalid(ram: seq<Byte>)
    requires |ram| == RAM && forall i | 0 <= i < BUF :: ram[i] == 0
    ensures Walk(ram, ROUNDS) == Ended(Invalid) && forall r | r in Passed(ram, ROUNDS) :: r.tag == 0
  {
    hide Round, RecordAt;
    WalkZeros(ram, 127);
    RoundOfZeros(ram, 1016);
    assert Walk(ram, 128) == Ended(Invalid);
    WalkStays(ram, 128, ROUNDS);
  }

  lemma {:induction false} ZeroTagsSetNothing(v: Values, entries: seq<Entry>)
    requires forall e | e in entries :: e.tag == 0
    ensures Apply(v, entries) == v
  {
    if entries != [] {
      assert entries[|entries| - 1] in entries;
      ZeroTagsSetNothing(v, entries[..|entries| - 1]);
    }
  }

  /** A block of zeros is neither a valid log nor erased, and is taken for empty. */
  lemma ZerosLookEmpty(st: Store, eraseSize: nat, pageSize: nat, behind: Behind)
    requires Geometry(|st.mem|, eraseSize, pageSize) && ZeroBlock(st.mem, eraseSize)
    ensures Walk(Ram(st.mem, eraseSize, behind), ROUNDS) == Ended(Invalid)
    ensures ParseDataBlock(st, eraseSize, pageSize, behind) == (st, Base(st.mem, eraseSize))
  {
    hide Walk, Passed, Apply, LooksEmpty, WordAt;
    var ram := Ram(st.mem, eraseSize, behind);
    ZerosAreInvalid(ram);
    ZeroTagsSetNothing(st.values, Entries(ram));
    LooksEmptyIffPagesRepeat(st.mem, eraseSize, pageSize);
  }

  lemma ProgramZeros(mem: seq<Byte>, adr: nat, data: seq<Byte>)
    requires forall i | adr <= i < |mem| :: mem[i] == 0
    ensures Program(mem, adr, data) == mem
  {
    assert forall b: Byte :: Meet(0, b) == 0;
  }

  /** Main result: on a block of zeros every setting is lost, in any run, and nothing repairs the block. */
  lemma {:induction false} ZerosLoseEverySetting(mem: seq<Byte>, steps: seq<Step>, eraseSize: nat, pageSize: nat)
    requires Geometry(|mem|, eraseSize, pageSize) && ZeroBlock(mem, eraseSize)
    ensures Run(mem, steps, eraseSize, pageSize) == Store(mem, DEFAULTS, true)
  {
    if steps != [] {
      hide ParseDataBlock, ZeroBlock, Encode, Stored;
      ZerosLoseEverySetting(mem, steps[..|steps| - 1], eraseSize, pageSize);
      ZerosIgnoreStep(Store(mem, DEFAULTS, true), steps[|steps| - 1], eraseSize, pageSize);
    }
  }

  lemma ZerosIgnoreStep(st: Store, step: Step, eraseSize: nat, pageSize: nat)
    requires Geometry(|st.mem|, eraseSize, pageSize) && ZeroBlock(st.mem, eraseSize)
    requires st.running && st.values == DEFAULTS
    ensures Do(st, step, eraseSize, pageSize) == st
  {
    hide ParseDataBlock, Program, Encode, Stored, Bytes, Ram, Walk;
    ZerosLookEmpty(st, eraseSize, pageSize, step.behind);
    if step.Set? {
      var entry := Encode(EntryOf(step.setting).tag, Bytes(EntryOf(step.setting).value));
      ProgramZeros(st.mem, Base(st.mem, eraseSize), entry);
      ZerosLookEmpty(st, eraseSize, pageSize, Stored(step.behind, 0, entry));
    }
  }
}
