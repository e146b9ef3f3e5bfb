/** What the map command is to print (fw/pano_ldr/main.c:989-1046, 1264-1283): the run-length encoding of
    the flash into regions of erased and of used blocks. */
module FlashMap {
  import Division
  import opened NorFlash
  import opened Words

  predicate AllBlank(mem: seq<Byte>, adr: nat, len: nat)
    requires adr + len <= |mem|
  {
    forall i | adr <= i < adr + len :: mem[i] == BLANK
  }

  /** CheckEmpty: `n` pages from `adr` on, each compared with the same reference page. */
  predicate PagesMatch(mem: seq<Byte>, adr: nat, n: nat, page: seq<Byte>)
    requires adr + n * |page| <= |mem|
    decreases n
  {
    n == 0 || (MorePages(n, |page|); mem[adr..adr + |page|] == page && PagesMatch(mem, adr + |page|, n - 1, page))
  }

  lemma MorePages(n: nat, size: nat)
    requires n > 0
    ensures n * size == size + (n - 1) * size && (n - 1) * size >= 0
  {
  }

  function Filled(b: Byte, n: nat): (r: seq<Byte>)
    ensures |r| == n
  {
    seq(n, _ => b)
  }

  lemma BlankPage(mem: seq<Byte>, adr: nat, size: nat)
    requires adr + size <= |mem|
    ensures mem[adr..adr + size] == Filled(BLANK, size) <==> AllBlank(mem, adr, size)
  {
    var page := mem[adr..adr + size];
    assert forall i | 0 <= i < size :: page[i] == mem[adr + i];
    assert (forall i | 0 <= i < size :: page[i] == BLANK) <==> page == Filled(BLANK, size);
    forall i | (forall j | 0 <= j < size :: page[j] == BLANK) && adr <= i < adr + size
      ensures mem[i] == BLANK
    {
      assert mem[i] == page[i - adr];
    }
  }

  /** Against a page of 0xff this is what it is meant to be: every byte of the pages is erased. */
  lemma {:induction false} BlankPagesMatch(mem: seq<Byte>, adr: nat, n: nat, size: nat)
    requires adr + n * size <= |mem|
    ensures PagesMatch(mem, adr, n, Filled(BLANK, size)) <==> AllBlank(mem, adr, n * size)
    decreases n
  {
    if n > 0 {
      MorePages(n, size);
      BlankPagesMatch(mem, adr + size, n - 1, size);
      BlankPage(mem, adr, size);
    }
  }

  /** One printed line: start and last address, size in KB, and the label. */
  datatype Region = Region(start: nat, last: int, kb: int, empty: bool)

  predicate IsBlock(adr: nat, size: nat, eraseSize: nat) {
    0 < eraseSize && adr % eraseSize == 0 && adr + eraseSize <= size
  }

  /** The regions follow each other without gaps from 0 up to `end`, each at least one block long. */
  ghost predicate Tiles(regions: seq<Region>, end: nat, eraseSize: nat)
    requires eraseSize > 0
  {
    && (regions == [] <==> end == 0)
    && (regions != [] ==> regions[0].start == 0 && regions[|regions| - 1].last == end - 1)
    && (forall k | 0 < k < |regions| :: regions[k].start == regions[k - 1].last + 1)
    && (forall k | 0 <= k < |regions| ::
          && regions[k].start <= regions[k].last < end && regions[k].start % eraseSize == 0
          && regions[k].kb == (regions[k].last + 1 - regions[k].start) / 1024)
  }

  /** Neighbours differ, so no region could be longer. */
  ghost predicate Alternates(regions: seq<Region>) {
    forall k | 0 < k < |regions| :: regions[k].empty != regions[k - 1].empty
  }

  /** The label is true of every block in the region. */
  ghost predicate Truthful(mem: seq<Byte>, regions: seq<Region>, eraseSize: nat) {
    forall k, b: nat | 0 <= k < |regions| && regions[k].start <= b <= regions[k].last && IsBlock(b, |mem|, eraseSize) ::
      AllBlank(mem, b, eraseSize) == regions[k].empty
  }

  ghost predicate IsMap(mem: seq<Byte>, regions: seq<Region>, eraseSize: nat)
    requires eraseSize > 0
  {
    Tiles(regions, |mem|, eraseSize) && Alternates(regions) && Truthful(mem, regions, eraseSize)
  }

  // ---- There is only one such map ----

  lemma BlockFits(adr: nat, size: nat, eraseSize: nat)
    requires eraseSize > 0 && adr % eraseSize == 0 && size % eraseSize == 0 && adr < size
    ensures IsBlock(adr, size, eraseSize)
  {
    var d := size / eraseSize - adr / eraseSize;
    assert size == size / eraseSize * eraseSize && adr == adr / eraseSize * eraseSize;
    assert size - adr == d * eraseSize;
    Division.Unique(size - adr, d, 0, eraseSize);
    if d >= 1 {
      Division.Grow(d, eraseSize);
    }
  }

  /** A region of one map cannot end inside a region of another that starts at the same place. */
  lemma RegionNotShorter(mem: seq<Byte>, a: seq<Region>, b: seq<Region>, eraseSize: nat, k: nat)
    requires eraseSize > 0 && |mem| % eraseSize == 0
    requires IsMap(mem, a, eraseSize) && IsMap(mem, b, eraseSize)
    requires k < |a| && k < |b| && a[k].start == b[k].start
    ensures a[k].empty == b[k].empty && a[k].last >= b[k].last
  {
    BlockFits(a[k].start, |mem|, eraseSize);
    if k + 1 < |a| {
      var next := a[k + 1].start;
      BlockFits(next, |mem|, eraseSize);
      assert AllBlank(mem, next, eraseSize) == a[k + 1].empty;
    }
  }

  /** Main result: the map of the flash is determined by its contents. */
  lemma MapIsUnique(mem: seq<Byte>, a: seq<Region>, b: seq<Region>, eraseSize: nat)
    requires eraseSize > 0 && |mem| % eraseSize == 0
    requires IsMap(mem, a, eraseSize) && IsMap(mem, b, eraseSize)
    ensures a == b
  {
    if |a| <= |b| {
      SameRegions(mem, a, b, eraseSize, |a|);
      SameLength(mem, a, b, eraseSize);
    } else {
      SameRegions(mem, b, a, eraseSize, |b|);
      SameLength(mem, b, a, eraseSize);
    }
  }

  lemma SameStart(a: seq<Region>, b: seq<Region>, end: nat, eraseSize: nat, k: nat)
    requires eraseSize > 0 && Tiles(a, end, eraseSize) && Tiles(b, end, eraseSize)
    requires k < |a| && k < |b| && (k > 0 ==> a[k - 1] == b[k - 1])
    ensures a[k].start == b[k].start
  {
  }

  lemma {:induction false} SameRegions(mem: seq<Byte>, a: seq<Region>, b: seq<Region>, eraseSize: nat, n: nat)
    requires eraseSize > 0 && |mem| % eraseSize == 0
    requires IsMap(mem, a, eraseSize) && IsMap(mem, b, eraseSize)
    requires n <= |a| && n <= |b|
    ensures forall k | 0 <= k < n :: a[k] == b[k]
  {
    if n > 0 {
      hide Alternates, Truthful;
      SameRegions(mem, a, b, eraseSize, n - 1);
      assert n > 1 ==> a[n - 2] == b[n - 2];
      SameStart(a, b, |mem|, eraseSize, n - 1);
      RegionNotShorter(mem, a, b, eraseSize, n - 1);
      RegionNotShorter(mem, b, a, eraseSize, n - 1);
    }
  }

  lemma NotAtEnd(b: seq<Region>, end: nat, eraseSize: nat, k: nat)
    requires eraseSize > 0 && Tiles(b, end, eraseSize) && k + 1 < |b|
    ensures b[k].last + 1 < end
  {
    assert b[k + 1].start == b[k].last + 1;
  }

  /** Once one map has reached the end of flash, so has the other. */
  lemma SameLength(mem: seq<Byte>, a: seq<Region>, b: seq<Region>, eraseSize: nat)
    requires eraseSize > 0 && IsMap(mem, a, eraseSize) && IsMap(mem, b, eraseSize)
    requires |a| <= |b| && forall k | 0 <= k < |a| :: a[k] == b[k]
    ensures |a| == |b|
  {
    if a != [] && |a| < |b| {
      NotAtEnd(b, |mem|, eraseSize, |a| - 1);
    }
  }

  // ---- The map under construction ----

  /** The blocks from `from` up to `end` are all as `blank` says. */
  ghost predicate Uniform(mem: seq<Byte>, from: nat, end: nat, blank: bool, eraseSize: nat) {
    forall b: nat | from <= b < end && IsBlock(b, |mem|, eraseSize) :: AllBlank(mem, b, eraseSize) == blank
  }

  /** The map is right up to `from`, where a region of the other kind starts that is uniform up to `end`. */
  ghost predicate Building(mem: seq<Byte>, regions: seq<Region>, from: nat, end: nat, blank: bool, eraseSize: nat)
    requires eraseSize > 0
  {
    && from % eraseSize == 0
    && Tiles(regions, from, eraseSize) && Alternates(regions) && Truthful(mem, regions, eraseSize)
    && (regions != [] ==> regions[|regions| - 1].empty != blank)
    && Uniform(mem, from, end, blank, eraseSize)
  }

  lemma BlockSteps(adr: nat, b: nat, eraseSize: nat)
    requires eraseSize > 0 && adr % eraseSize == 0 && b % eraseSize == 0 && adr < b
    ensures adr + eraseSize <= b
    ensures (adr + eraseSize) % eraseSize == 0
  {
    BlockFits(adr, b, eraseSize);
    NextAligned(adr, eraseSize);
  }

  lemma NextAligned(adr: nat, eraseSize: nat)
    requires eraseSize > 0 && adr % eraseSize == 0
    ensures (adr + eraseSize) % eraseSize == 0
  {
    assert adr == adr / eraseSize * eraseSize;
    assert (adr / eraseSize + 1) * eraseSize == adr + eraseSize;
    Division.Unique(adr + eraseSize, adr / eraseSize + 1, 0, eraseSize);
  }

  /** No block starts between two neighbouring blocks. */
  lemma UniformToNext(mem: seq<Byte>, from: nat, adr: nat, blank: bool, eraseSize: nat)
    requires eraseSize > 0 && adr % eraseSize == 0 && Uniform(mem, from, adr + 1, blank, eraseSize)
    ensures Uniform(mem, from, adr + eraseSize, blank, eraseSize)
  {
    forall b: nat | from <= b < adr + eraseSize && IsBlock(b, |mem|, eraseSize)
      ensures b <= adr
    {
      if adr < b {
        BlockSteps(adr, b, eraseSize);
      }
    }
  }

  lemma UniformGrows(mem: seq<Byte>, from: nat, adr: nat, blank: bool, eraseSize: nat)
    requires Uniform(mem, from, adr, blank, eraseSize)
    requires IsBlock(adr, |mem|, eraseSize) && AllBlank(mem, adr, eraseSize) == blank
    ensures Uniform(mem, from, adr + 1, blank, eraseSize)
  {
  }

  /** Printing a line closes the region, and one of the other kind starts. */
  lemma CloseRegion(mem: seq<Byte>, regions: seq<Region>, from: nat, adr: nat, blank: bool, eraseSize: nat)
    requires eraseSize > 0 && from < adr && adr % eraseSize == 0
    requires Building(mem, regions, from, adr, blank, eraseSize)
    ensures Building(mem, regions + [Region(from, adr - 1, (adr - from) / 1024, blank)], adr, adr, !blank, eraseSize)
  {
    var r := Region(from, adr - 1, (adr - from) / 1024, blank);
    var regions' := regions + [r];
    forall k, b: nat | 0 <= k < |regions'| && regions'[k].start <= b <= regions'[k].last && IsBlock(b, |mem|, eraseSize)
      ensures AllBlank(mem, b, eraseSize) == regions'[k].empty
    {
      if k < |regions| {
        assert regions[k] == regions'[k];
      }
    }
  }
}
