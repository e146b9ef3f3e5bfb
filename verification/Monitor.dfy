/** The loader's own use of flash (fw/pano_ldr/main.c): the empty test, the map command, and the parser and
    writer of the configuration log, on the buffer and the settings they share. */
module Monitor {
  import opened NorFlash
  import opened Words
  import opened ConfigLog
  import FlashMap
  import Settings

  class Loader {
    const flash: Flash
    /** gTemp, and the bytes of memory behind it that its users can reach. */
    const temp: array<Byte>
    var autoBoot: Word
    var autoBootAdr: Word
    var server: Word

    predicate Valid()
      reads this
    {
      && temp.Length == RAM && temp != flash.mem
      && Settings.Geometry(flash.mem.Length, flash.eraseSize, flash.pageSize)
      && flash.mem.Length % flash.eraseSize == 0
    }

    function Values(): Settings.Values
      reads this
    {
      Settings.Values(autoBoot, autoBootAdr, server)
    }

    function Store(): Settings.Store
      reads this, flash, flash.mem
    {
      Settings.Store(flash.mem[..], Values(), true)
    }

    constructor (flash: Flash)
      requires Settings.Geometry(flash.mem.Length, flash.eraseSize, flash.pageSize)
      requires flash.mem.Length % flash.eraseSize == 0
      ensures Valid() && fresh(temp) && this.flash == flash && Values() == Settings.DEFAULTS
    {
      this.flash := flash;
      temp := new Byte[RAM];
      autoBoot, autoBootAdr, server := 0, Settings.GOLDEN_IMAGE_ADR, 0;
    }

    /** spi_read into the start of gTemp. */
    method ReadTemp(adr: nat, len: nat)
      requires Valid() && len <= BUF && adr + len <= flash.mem.Length
      modifies temp
      ensures temp[..len] == flash.mem[adr..adr + len] && temp[len..] == old(temp[len..])
    {
      forall i | 0 <= i < len {
        temp[i] := flash.mem[adr + i];
      }
    }

    method FillTemp(from: nat, len: nat, b: Byte)
      requires Valid() && from + len <= BUF
      modifies temp
      ensures temp[from..from + len] == FlashMap.Filled(b, len)
      ensures temp[from + len..] == old(temp[from + len..])
    {
      forall i | from <= i < from + len {
        temp[i] := b;
      }
    }

    /** Whether every page of a block equals the page that gTemp holds behind the first. */
    method CheckEmpty(adr: nat) returns (empty: bool)
      requires Valid() && adr + flash.eraseSize <= flash.mem.Length
      modifies temp
      ensures temp[flash.pageSize..] == old(temp[flash.pageSize..])
      ensures flash.eraseSize / flash.pageSize * flash.pageSize == flash.eraseSize
      ensures empty == FlashMap.PagesMatch(flash.mem[..], adr, flash.eraseSize / flash.pageSize,
                                           Settings.SecondPage(old(temp[..]), flash.pageSize))
    {
      hide FlashMap.AllBlank;
      var pageSize := flash.pageSize;
      ghost var page := Settings.SecondPage(temp[..], pageSize);
      Settings.WholePages(flash.eraseSize, pageSize);
      var pages := flash.eraseSize / pageSize;
      var i, at: nat := 0, adr;
      empty := true;
      while i < pages
        invariant 0 <= i <= pages && at + (pages - i) * pageSize <= flash.mem.Length
        invariant temp[pageSize..] == old(temp[pageSize..]) && Settings.SecondPage(temp[..], pageSize) == page
        invariant FlashMap.PagesMatch(flash.mem[..], adr, pages, page)
                  == FlashMap.PagesMatch(flash.mem[..], at, pages - i, page)
      {
        FlashMap.MorePages(pages - i, pageSize);
        var same := PageMatches(at);
        if !same {
          empty := false;
          return;
        }
        at := at + pageSize;
        i := i + 1;
      }
    }

    method PageMatches(adr: nat) returns (same: bool)
      requires Valid() && adr + flash.pageSize <= flash.mem.Length
      modifies temp
      ensures temp[flash.pageSize..] == old(temp[flash.pageSize..])
      ensures Settings.SecondPage(temp[..], flash.pageSize) == Settings.SecondPage(old(temp[..]), flash.pageSize)
      ensures same == (flash.mem[adr..adr + flash.pageSize] == Settings.SecondPage(old(temp[..]), flash.pageSize))
    {
      var pageSize := flash.pageSize;
      FillTemp(0, pageSize, 0xaa);
      ReadTemp(adr, pageSize);
      assert Settings.SecondPage(temp[..], pageSize) == temp[pageSize..][..pageSize];
      assert Settings.SecondPage(old(temp[..]), pageSize) == old(temp[pageSize..])[..pageSize];
      same := temp[..pageSize] == temp[pageSize..2 * pageSize];
    }

    /** The map command. `beyond` is what the empty test says about the addresses past the end of flash, which
        it is also asked for. */
    method MapCmd(beyond: bool) returns (regions: seq<FlashMap.Region>)
      requires Valid()
      modifies temp
      ensures FlashMap.IsMap(flash.mem[..], regions, flash.eraseSize)
    {
      hide FlashMap.Building, FlashMap.AllBlank, FlashMap.Uniform;
      ghost var mem := flash.mem[..];
      var eraseSize := flash.eraseSize;
      var adr: nat, lastAdr: nat, start: nat := 0, 0, 0;
      var printStart := true;
      regions := [];
      FillTemp(flash.pageSize, flash.pageSize, BLANK);
      FlashMap.BlockFits(0, flash.mem.Length, eraseSize);
      var empty := CheckBlock(0);
      var wasEmpty := empty;
      FirstBlock(mem, wasEmpty, eraseSize);
      while adr < flash.mem.Length
        invariant adr % eraseSize == 0 && lastAdr <= adr <= flash.mem.Length
        invariant printStart <==> lastAdr == adr
        invariant !printStart ==> start == lastAdr
        invariant adr == flash.mem.Length ==> printStart
        invariant temp[flash.pageSize..2 * flash.pageSize] == FlashMap.Filled(BLANK, flash.pageSize)
        invariant FlashMap.Building(mem, regions, lastAdr, if adr < |mem| then adr + 1 else adr, wasEmpty, eraseSize)
      {
        if printStart {
          printStart := false;
          start := adr;
        }
        FlashMap.BlockFits(adr, flash.mem.Length, eraseSize);
        FlashMap.NextAligned(adr, eraseSize);
        BlockDone(mem, regions, lastAdr, adr, wasEmpty, eraseSize);
        adr := adr + eraseSize;
        if adr < flash.mem.Length {
          FlashMap.BlockFits(adr, flash.mem.Length, eraseSize);
          empty := CheckBlock(adr);
        } else {
          empty := beyond;
        }
        if wasEmpty == empty && adr == flash.mem.Length {
          empty := !empty;
        }
        if wasEmpty != empty {
          FlashMap.CloseRegion(mem, regions, lastAdr, adr, wasEmpty, eraseSize);
          wasEmpty := empty;
          printStart := true;
          regions := regions + [FlashMap.Region(start, adr - 1, (adr - lastAdr) / 1024, !wasEmpty)];
          lastAdr := adr;
        }
        if adr < flash.mem.Length {
          BlockAdded(mem, regions, lastAdr, adr, wasEmpty, eraseSize);
        }
      }
      MapDone(mem, regions, wasEmpty, eraseSize);
    }

    /** The empty test on one block, with a page of 0xff to compare with. */
    method CheckBlock(adr: nat) returns (empty: bool)
      requires Valid() && FlashMap.IsBlock(adr, flash.mem.Length, flash.eraseSize)
      requires temp[flash.pageSize..2 * flash.pageSize] == FlashMap.Filled(BLANK, flash.pageSize)
      modifies temp
      ensures temp[flash.pageSize..2 * flash.pageSize] == FlashMap.Filled(BLANK, flash.pageSize)
      ensures empty == FlashMap.AllBlank(flash.mem[..], adr, flash.eraseSize)
    {
      ghost var before := temp[..];
      assert before[flash.pageSize..2 * flash.pageSize] == temp[flash.pageSize..2 * flash.pageSize];
      assert temp[flash.pageSize..][..flash.pageSize] == temp[flash.pageSize..2 * flash.pageSize];
      empty := CheckEmpty(adr);
      assert temp[flash.pageSize..][..flash.pageSize] == temp[flash.pageSize..2 * flash.pageSize];
      FlashMap.BlankPagesMatch(flash.mem[..], adr, flash.eraseSize / flash.pageSize, flash.pageSize);
    }

    // ---- The configuration log ----

    function Behind(): Settings.Behind
      requires temp.Length == RAM
      reads temp
    {
      temp[BUF..]
    }

    /** Reads the block into gTemp, takes over the settings it finds, and returns the flash address of the
        first free word, or 0; called where the parser ends. */
    method ParseDataBlock() returns (ret: nat)
      requires Valid()
      requires Settings.ParseDataBlock(Store(), flash.eraseSize, flash.pageSize, Behind()).0.running
      modifies `autoBoot, `autoBootAdr, `server, temp
      ensures (Store(), ret) == Settings.ParseDataBlock(old(Store()), flash.eraseSize, flash.pageSize, old(Behind()))
      ensures Behind() == old(Behind())
    {
      hide Walk, Passed, Settings.Apply, Settings.Decode, FlashMap.PagesMatch;
      var base := flash.mem.Length - flash.eraseSize;
      ReadTemp(base, BUF);
      assert temp[..] == temp[..BUF] + temp[BUF..] == Settings.Ram(flash.mem[..], flash.eraseSize, old(Behind()));
      var valid, off := TakeRecords();
      ret := 0;
      if valid {
        ret := base + off;
      } else {
        SecondPageOf(temp[..], flash.pageSize);
        var empty := CheckEmpty(base);
        if empty {
          ret := base;
        }
      }
    }

    /** The parser's loop over the records in gTemp. */
    method TakeRecords() returns (valid: bool, off: nat)
      requires Valid() && Walk(temp[..], ROUNDS).Ended?
      modifies `autoBoot, `autoBootAdr, `server
      ensures Values() == Settings.Apply(old(Values()), Settings.Entries(temp[..]))
      ensures Walk(temp[..], ROUNDS) == Ended(if valid then Free(off) else Invalid)
    {
      hide WordAt, RoundUp, Walk, Passed, Settings.Apply, Settings.ApplyOne, Settings.Decode;
      ghost var ram := temp[..];
      ghost var n := 0;
      off, valid := 0, true;
      NothingPassed(ram, Values());
      while WordAt(temp[..], off) != ERASED_WORD
        invariant off % 4 == 0 && off <= 1020 && valid && n <= ROUNDS
        invariant temp[..] == ram && Walk(ram, n) == At(off)
        invariant Values() == Settings.Apply(old(Values()), Settings.Decode(ram, Passed(ram, n)))
        decreases ROUNDS - n
      {
        StillWalking(ram, n);
        WalkStep(ram, n + 1);
        var tag := WordAt(temp[..], off);
        var next := (off + 8 + RoundUp(WordAt(temp[..], off + 4))) % WORDS;
        if next > 1020 {
          valid := false;
          break;
        }
        Settings.ApplyRecord(old(Values()), ram, Passed(ram, n), RecordAt(ram, off));
        TakeSetting(tag, WordAt(temp[..], off + 8));
        off, n := next, n + 1;
      }
      EndsHere(ram, n);
    }

    method TakeSetting(tag: Word, value: Word)
      modifies `autoBoot, `autoBootAdr, `server
      ensures Values() == Settings.ApplyOne(old(Values()), Settings.Entry(tag, value))
    {
      if tag == TAG_AUTO_BOOT {
        autoBoot := value;
      } else if tag == TAG_AUTO_BOOT_ADR {
        autoBootAdr := value;
      } else if tag == TAG_TFTP_SRV {
        server := value;
      }
    }

    /** Appends a record if the fit test lets it through, and reloads the settings; called where both parsers
        end. The record is assembled behind the others in gTemp, and, if it does not fit, in the memory
        behind that. */
    method AddBoardInfo(tag: Word, data: seq<Byte>)
      requires Valid() && |data| < WORDS - 8
      requires Settings.AddBoardInfo(Store(), flash.eraseSize, flash.pageSize, tag, data, Behind()).running
      modifies `autoBoot, `autoBootAdr, `server, temp, flash`ops, flash.mem
      ensures Store() == Settings.AddBoardInfo(old(Store()), flash.eraseSize, flash.pageSize, tag, data, old(Behind()))
    {
      hide Settings.ParseDataBlock, Program, Encode;
      ghost var mem := flash.mem[..];
      var writeOffset := ParseDataBlock();
      assert flash.mem[..] == mem;
      if writeOffset != 0 {
        var bufOffset := writeOffset - (flash.mem.Length - flash.eraseSize);
        var available := (BUF - bufOffset - (8 + |data|)) % WORDS;
        if available >= 4 {
          StoreTemp(bufOffset, Encode(tag, data));
          flash.Write(writeOffset, Encode(tag, data));
          assert flash.mem[..] == Program(mem, writeOffset, Encode(tag, data));
          var _ := ParseDataBlock();
        }
      }
    }

    /** What of the record is within reach of the parser. */
    method StoreTemp(off: nat, entry: seq<Byte>)
      requires Valid()
      modifies temp
      ensures Behind() == Settings.Stored(old(Behind()), off, entry)
    {
      forall i | 0 <= i < RAM && off <= i < off + |entry| {
        temp[i] := entry[i - off];
      }
    }
  }

  // ---- The map command's invariant ----

  lemma FirstBlock(mem: seq<Byte>, blank: bool, eraseSize: nat)
    requires FlashMap.IsBlock(0, |mem|, eraseSize) && FlashMap.AllBlank(mem, 0, eraseSize) == blank
    ensures FlashMap.Building(mem, [], 0, 1, blank, eraseSize)
  {
    assert FlashMap.Uniform(mem, 0, 0, blank, eraseSize);
    FlashMap.UniformGrows(mem, 0, 0, blank, eraseSize);
  }

  lemma BlockDone(mem: seq<Byte>, regions: seq<FlashMap.Region>, from: nat, adr: nat, blank: bool, eraseSize: nat)
    requires eraseSize > 0 && adr % eraseSize == 0
    requires FlashMap.Building(mem, regions, from, adr + 1, blank, eraseSize)
    ensures FlashMap.Building(mem, regions, from, adr + eraseSize, blank, eraseSize)
  {
    FlashMap.UniformToNext(mem, from, adr, blank, eraseSize);
  }

  lemma BlockAdded(mem: seq<Byte>, regions: seq<FlashMap.Region>, from: nat, adr: nat, blank: bool, eraseSize: nat)
    requires eraseSize > 0 && FlashMap.Building(mem, regions, from, adr, blank, eraseSize)
    requires FlashMap.IsBlock(adr, |mem|, eraseSize) && FlashMap.AllBlank(mem, adr, eraseSize) == blank
    ensures FlashMap.Building(mem, regions, from, adr + 1, blank, eraseSize)
  {
    FlashMap.UniformGrows(mem, from, adr, blank, eraseSize);
  }

  lemma MapDone(mem: seq<Byte>, regions: seq<FlashMap.Region>, blank: bool, eraseSize: nat)
    requires eraseSize > 0 && FlashMap.Building(mem, regions, |mem|, |mem|, blank, eraseSize)
    ensures FlashMap.IsMap(mem, regions, eraseSize)
  {
  }

  // ---- The parser's invariant ----

  lemma NothingPassed(ram: seq<Byte>, v: Settings.Values)
    requires |ram| == RAM
    ensures Walk(ram, 0) == At(0)
    ensures Settings.Apply(v, Settings.Decode(ram, Passed(ram, 0))) == v
  {
  }

  lemma StillWalking(ram: seq<Byte>, n: nat)
    requires |ram| == RAM && Walk(ram, ROUNDS).Ended? && Walk(ram, n).At? && n <= ROUNDS
    ensures n < ROUNDS
  {
  }

  /** One round after the last place, the parser has ended for good. */
  lemma EndsHere(ram: seq<Byte>, n: nat)
    requires |ram| == RAM && n < ROUNDS && Walk(ram, n).At? && Round(ram, Walk(ram, n).off).Ended?
    ensures Walk(ram, ROUNDS) == Round(ram, Walk(ram, n).off) && Passed(ram, ROUNDS) == Passed(ram, n)
  {
    assert Passed(ram, n + 1) == Passed(ram, n) + [];
    WalkStays(ram, n + 1, ROUNDS);
  }

  lemma SecondPageOf(ram: seq<Byte>, pageSize: nat)
    requires |ram| == RAM && 2 * pageSize <= BUF
    ensures Settings.SecondPage(ram, pageSize) == Settings.SecondPage(ram[..BUF], pageSize)
  {
  }
}
