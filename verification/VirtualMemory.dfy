/** Virtual memory: 64-bit addresses translated by page walks over guest RAM. */
module VirtualMemory {
  import opened Machine
  import GuestMemory
  import opened PageWalk

  datatype Translation = Mapped(phys: u64) | Fault | Panic

  function Base(bits: u64): u64 {
    bits & !0xFFF
  }

  function Decode(bits: u64): Entry<u64> {
    Entry(bits, bits & 1 != 0, bits & 0x80 != 0, Base(bits))
  }

  /** The RAM index of a table entry. */
  function EntryAt(table: u64, index: u64): nat {
    (table + index * 8) as nat
  }

  function FetchAt(ram: seq<u8>, at: nat): Option<Entry<u64>> {
    if at + 8 <= |ram| then Some(Decode(GuestMemory.Load64(ram, at))) else None
  }

  function Fetcher(ram: seq<u8>): Fetch<u64> {
    (table, index) => FetchAt(ram, EntryAt(table, index))
  }

  function PathOf(virt: u64): Path<u64> {
    Path((virt >> 39) & 0x1FF, (virt >> 30) & 0x1FF, (virt >> 21) & 0x1FF, (virt >> 12) & 0x1FF)
  }

  /** The offset bits of a block mapped by a leaf. */
  function Mask(level: LeafLevel): u64 {
    if level == 1 then 0xFFF else if level == 2 then 0x1F_FFFF else 0x3FFF_FFFF
  }

  function Or(a: u64, b: u64): u64 {
    a | b
  }

  /** `a` with the bits under the mask taken from `b`. */
  function Splice(a: u64, b: u64, mask: u64): u64 {
    Or(a & !mask, b & mask)
  }

  function Address(found: Found<u64>, virt: u64): Translation {
    match found
    case Leaf(bits, level) => Mapped(Splice(bits, virt, Mask(level)))
    case NotPresent => Fault
    case Outside => Panic
  }

  /** With CR3 zero, addresses map to themselves. */
  function Translate(ram: seq<u8>, cr3: u64, virt: u64): Translation {
    if cr3 == 0 then Mapped(virt)
    else Address(Walk(Fetcher(ram), Base(cr3), PathOf(virt)), virt)
  }

  // ---- The specification: a walk over the base-512 digits of the address ----

  /** The page number, and for higher levels what is left of it after dropping digits. */
  function Quotient(virt: u64, n: Level): u64 {
    if n == 1 then virt / 4096 else Quotient(virt, n - 1) / 512
  }

  /** Digit `n` of the address in base 512, counted from 1 above the page offset. */
  function Digit(virt: u64, n: Level): u64 {
    Quotient(virt, n) % 512
  }

  function DigitsOf(virt: u64): Digits<u64> {
    (n: Level) => Digit(virt, n)
  }

  /** The bytes that an entry of level `n` covers. */
  function BlockSize(n: Level): u64 {
    if n == 1 then 4096 else BlockSize(n - 1) * 512
  }

  /** The block that an entry names, plus the offset of the address in it. */
  function InBlock(bits: u64, virt: u64, mask: u64): u64 {
    (bits & !mask) + (virt & mask)
  }

  /** Translation by recursive descent. */
  function RadixTranslate(ram: seq<u8>, cr3: u64, virt: u64): Translation {
    if cr3 == 0 then Mapped(virt)
    else
      match Descend(Fetcher(ram), Base(cr3), DigitsOf(virt), 4)
      case Leaf(bits, n) => Mapped(InBlock(bits, virt, BlockSize(n) - 1))
      case NotPresent => Fault
      case Outside => Panic
  }

  lemma Quotient2(virt: u64)
    ensures (virt / 4096 / 512) % 512 == (virt >> 21) & 0x1FF
  {
  }

  lemma Quotient3(virt: u64)
    ensures (virt / 4096 / 512 / 512) % 512 == (virt >> 30) & 0x1FF
  {
  }

  lemma Quotient4(virt: u64)
    ensures (virt / 4096 / 512 / 512 / 512) % 512 == (virt >> 39) & 0x1FF
  {
  }

  /** The four shifted and masked fields are the base-512 digits. */
  lemma PathSpellsDigits(virt: u64)
    ensures Spells(PathOf(virt), DigitsOf(virt))
  {
    assert Digit(virt, 1) == (virt >> 12) & 0x1FF;
    assert Digit(virt, 2) == (virt >> 21) & 0x1FF by { Quotient2(virt); }
    assert Digit(virt, 3) == (virt >> 30) & 0x1FF by { Quotient3(virt); }
    assert Digit(virt, 4) == (virt >> 39) & 0x1FF by { Quotient4(virt); }
  }

  lemma FieldsRebuild(virt: u64)
    ensures (((virt >> 39) & 0x1FF) << 39) | (((virt >> 30) & 0x1FF) << 30) | (((virt >> 21) & 0x1FF) << 21)
            | (((virt >> 12) & 0x1FF) << 12) | (virt & 0xFFF) == virt & 0xFFFF_FFFF_FFFF
  {
  }

  /** The digits and the page offset make up the low 48 bits, so no two pages share a path. */
  lemma DigitsRebuildAddress(virt: u64)
    ensures (Digit(virt, 4) << 39) | (Digit(virt, 3) << 30) | (Digit(virt, 2) << 21) | (Digit(virt, 1) << 12)
            | (virt & 0xFFF) == virt & 0xFFFF_FFFF_FFFF
  {
    PathSpellsDigits(virt);
    assert DigitsOf(virt)(4) == (virt >> 39) & 0x1FF && DigitsOf(virt)(3) == (virt >> 30) & 0x1FF;
    assert DigitsOf(virt)(2) == (virt >> 21) & 0x1FF && DigitsOf(virt)(1) == (virt >> 12) & 0x1FF;
    FieldsRebuild(virt);
  }

  lemma MaskIsBlock(level: LeafLevel)
    ensures Mask(level) == BlockSize(level) - 1
  {
    assert BlockSize(1) == 0x1000;
    assert BlockSize(2) == 0x20_0000;
  }

  lemma DisjointBitsAdd(a: u64, b: u64, mask: u64)
    ensures (a & !mask) | (b & mask) == (a & !mask) + (b & mask)
  {
  }

  lemma SpliceAdds(a: u64, b: u64, mask: u64)
    ensures Splice(a, b, mask) == InBlock(a, b, mask)
  {
    DisjointBitsAdd(a, b, mask);
  }

  lemma LeafAddress(bits: u64, virt: u64, level: LeafLevel)
    ensures Splice(bits, virt, Mask(level)) == InBlock(bits, virt, BlockSize(level) - 1)
  {
    MaskIsBlock(level);
    SpliceAdds(bits, virt, Mask(level));
  }

  lemma WalkIsDescent(ram: seq<u8>, cr3: u64, virt: u64)
    ensures Walk(Fetcher(ram), Base(cr3), PathOf(virt)) == Descend(Fetcher(ram), Base(cr3), DigitsOf(virt), 4)
  {
    PathSpellsDigits(virt);
    UnrolledIsRadix(Fetcher(ram), Base(cr3), PathOf(virt), DigitsOf(virt));
  }

  /** The unrolled translation is the recursive one, for every address and all contents of RAM. */
  lemma TranslateIsRadix(ram: seq<u8>, cr3: u64, virt: u64)
    ensures Translate(ram, cr3, virt) == RadixTranslate(ram, cr3, virt)
  {
    WalkIsDescent(ram, cr3, virt);
    match Descend(Fetcher(ram), Base(cr3), DigitsOf(virt), 4) {
      case Leaf(bits, level) => LeafAddress(bits, virt, level);
      case _ =>
    }
  }

  // ---- What the bits of an entry mean ----

  /** The address of an entry, and of CR3, is a whole number of pages. */
  lemma BaseIsPage(bits: u64)
    ensures Base(bits) == bits / 4096 * 4096
  {
  }

  lemma PresentIsOdd(bits: u64)
    ensures bits & 1 != 0 <==> bits % 2 == 1
  {
  }

  lemma LargeIsBit7(bits: u64)
    ensures bits & 0x80 != 0 <==> bits / 128 % 2 == 1
  {
  }

  /** For all bits: an entry is present exactly when it is odd, large exactly when bit 7 is set,
      and its address is a whole number of pages. */
  lemma DecodeMeans(bits: u64)
    ensures Decode(bits).bits == bits
    ensures Decode(bits).present <==> bits % 2 == 1
    ensures Decode(bits).large <==> bits / 128 % 2 == 1
    ensures Decode(bits).base == bits / 4096 * 4096
  {
    BaseIsPage(bits);
    PresentIsOdd(bits);
    LargeIsBit7(bits);
  }

  // ---- Which address bits matter ----

  lemma PathIgnoresHighBits(virt: u64)
    ensures PathOf(virt) == PathOf(virt & 0xFFFF_FFFF_FFFF)
  {
  }

  lemma MaskedIgnoresHighBits(virt: u64, mask: u64)
    requires mask >> 39 == 0
    ensures (virt & 0xFFFF_FFFF_FFFF) & mask == virt & mask
  {
  }

  lemma SpliceIgnoresHighBits(bits: u64, virt: u64, mask: u64)
    requires mask >> 39 == 0
    ensures Splice(bits, virt, mask) == Splice(bits, virt & 0xFFFF_FFFF_FFFF, mask)
  {
    MaskedIgnoresHighBits(virt, mask);
  }

  /** Bits 48 and above are ignored once CR3 is set. */
  lemma HighBitsIgnored(ram: seq<u8>, cr3: u64, virt: u64)
    requires cr3 != 0
    ensures Translate(ram, cr3, virt) == Translate(ram, cr3, virt & 0xFFFF_FFFF_FFFF)
  {
    PathIgnoresHighBits(virt);
    var found := Walk(Fetcher(ram), Base(cr3), PathOf(virt));
    if found.Leaf? {
      MaskBelowIndices(found.level);
      SpliceIgnoresHighBits(found.bits, virt, Mask(found.level));
    }
  }

  lemma SpliceOverwrites(a: u64, b: u64, mask: u64)
    ensures ((a & !mask) | (b & mask)) & mask == b & mask
  {
  }

  lemma SpliceRetains(a: u64, b: u64, mask: u64)
    ensures ((a & !mask) | (b & mask)) & !mask == a & !mask
  {
  }

  lemma SpliceTwice(a: u64, b: u64, c: u64, mask: u64)
    ensures Splice(a, Splice(b, c, mask), mask) == Splice(Splice(a, b, mask), c, mask)
  {
    SpliceOverwrites(b, c, mask);
    SpliceRetains(a, b, mask);
  }

  lemma Keeps39(a: u64, b: u64, mask: u64)
    requires mask >> 39 == 0
    ensures (Splice(a, b, mask) >> 39) & 0x1FF == (a >> 39) & 0x1FF
  {
  }

  lemma Keeps30(a: u64, b: u64, mask: u64)
    requires mask >> 30 == 0
    ensures (Splice(a, b, mask) >> 30) & 0x1FF == (a >> 30) & 0x1FF
  {
  }

  lemma Keeps21(a: u64, b: u64, mask: u64)
    requires mask >> 21 == 0
    ensures (Splice(a, b, mask) >> 21) & 0x1FF == (a >> 21) & 0x1FF
  {
  }

  lemma Keeps12(a: u64, b: u64, mask: u64)
    requires mask >> 12 == 0
    ensures (Splice(a, b, mask) >> 12) & 0x1FF == (a >> 12) & 0x1FF
  {
  }

  lemma MaskBelowIndices(level: LeafLevel)
    ensures Mask(level) >> 39 == 0 && Mask(level) >> 30 == 0
    ensures level <= 2 ==> Mask(level) >> 21 == 0
    ensures level <= 1 ==> Mask(level) >> 12 == 0
  {
  }

  lemma BlockSharesPath(virt: u64, off: u64, level: LeafLevel)
    ensures SamePathFrom(PathOf(virt), PathOf(Splice(virt, off, Mask(level))), level)
  {
    MaskBelowIndices(level);
    Keeps39(virt, off, Mask(level));
    Keeps30(virt, off, Mask(level));
    if level <= 2 { Keeps21(virt, off, Mask(level)); }
    if level <= 1 { Keeps12(virt, off, Mask(level)); }
  }

  lemma BlockSharesDigits(virt: u64, off: u64, level: LeafLevel)
    ensures SameFrom(DigitsOf(virt), DigitsOf(Splice(virt, off, Mask(level))), level)
  {
    var w := Splice(virt, off, Mask(level));
    PathSpellsDigits(virt);
    PathSpellsDigits(w);
    BlockSharesPath(virt, off, level);
    SameFromPaths(PathOf(virt), PathOf(w), DigitsOf(virt), DigitsOf(w), level);
  }

  /** The leaf that an address ends at, if its translation has one. */
  predicate HasLeaf(ram: seq<u8>, cr3: u64, virt: u64, level: LeafLevel) {
    var found := Walk(Fetcher(ram), Base(cr3), PathOf(virt));
    cr3 != 0 && found.Leaf? && found.level == level
  }

  lemma SameLeafInBlock(ram: seq<u8>, cr3: u64, virt: u64, off: u64, level: LeafLevel)
    requires HasLeaf(ram, cr3, virt, level)
    ensures Walk(Fetcher(ram), Base(cr3), PathOf(Splice(virt, off, Mask(level)))) ==
            Walk(Fetcher(ram), Base(cr3), PathOf(virt))
  {
    var w := Splice(virt, off, Mask(level));
    WalkIsDescent(ram, cr3, virt);
    WalkIsDescent(ram, cr3, w);
    BlockSharesDigits(virt, off, level);
    SharedLeaf(Fetcher(ram), Base(cr3), DigitsOf(virt), DigitsOf(w), 4);
  }

  /** Addresses of one block, anywhere in it: the offset carries over to the physical block. */
  lemma BlockSplices(ram: seq<u8>, cr3: u64, virt: u64, off: u64, level: LeafLevel)
    requires HasLeaf(ram, cr3, virt, level)
    ensures Translate(ram, cr3, virt).Mapped?
    ensures Translate(ram, cr3, Splice(virt, off, Mask(level))) ==
            Mapped(Splice(Translate(ram, cr3, virt).phys, off, Mask(level)))
  {
    var found := Walk(Fetcher(ram), Base(cr3), PathOf(virt));
    SameLeafInBlock(ram, cr3, virt, off, level);
    SpliceTwice(found.bits, virt, off, Mask(level));
  }

  predicate IsAligned(x: u64, mask: u64) {
    x & mask == 0
  }

  predicate IsOffset(x: u64, mask: u64) {
    x & mask == x
  }

  lemma SpliceIsSum(base: u64, off: u64, mask: u64)
    requires IsAligned(base, mask) && IsOffset(off, mask)
    ensures Splice(base, off, mask) == base + off
  {
    SpliceAdds(base, off, mask);
    AlignedHasNoOffset(base, mask);
  }

  lemma AlignedHasNoOffset(base: u64, mask: u64)
    requires base & mask == 0
    ensures base & !mask == base
  {
  }

  lemma SpliceAligns(bits: u64, base: u64, mask: u64)
    requires IsAligned(base, mask)
    ensures IsAligned(Splice(bits, base, mask), mask)
  {
    SpliceOverwrites(bits, base, mask);
  }

  lemma AlignedTranslation(ram: seq<u8>, cr3: u64, base: u64, level: LeafLevel)
    requires HasLeaf(ram, cr3, base, level) && IsAligned(base, Mask(level))
    ensures Translate(ram, cr3, base).Mapped? && IsAligned(Translate(ram, cr3, base).phys, Mask(level))
  {
    SpliceAligns(Walk(Fetcher(ram), Base(cr3), PathOf(base)).bits, base, Mask(level));
  }

  lemma BlockMaps(ram: seq<u8>, cr3: u64, base: u64, off: u64, level: LeafLevel, virt: u64, phys: u64)
    requires HasLeaf(ram, cr3, base, level) && Translate(ram, cr3, base).Mapped?
    requires virt == Splice(base, off, Mask(level)) && phys == Splice(Translate(ram, cr3, base).phys, off, Mask(level))
    ensures Translate(ram, cr3, virt) == Mapped(phys)
  {
    BlockSplices(ram, cr3, base, off, level);
  }

  /** A leaf maps its whole 4 KB, 2 MB or 1 GB block linearly: with `base` the start of the
      block, the address `base + off` goes to where `base` goes, plus `off`. */
  lemma BlockIsLinear(ram: seq<u8>, cr3: u64, base: u64, off: u64, level: LeafLevel)
    requires HasLeaf(ram, cr3, base, level)
    requires IsAligned(base, Mask(level)) && IsOffset(off, Mask(level))
    ensures Translate(ram, cr3, base).Mapped?
    ensures Translate(ram, cr3, base + off) == Mapped(Translate(ram, cr3, base).phys + off)
  {
    AlignedTranslation(ram, cr3, base, level);
    var phys := Translate(ram, cr3, base).phys;
    SpliceIsSum(base, off, Mask(level));
    SpliceIsSum(phys, off, Mask(level));
    BlockMaps(ram, cr3, base, off, level, base + off, phys + off);
  }

  // ---- Tables as a kernel builds them ----

  /** A table entry as a kernel writes it: an address, and flags in the low twelve bits. */
  datatype Link = Link(to: u64, flags: u64)

  function Bits(link: Link): u64 {
    link.to | link.flags
  }

  predicate IsPresent(flags: u64) {
    flags < 0x1000 && flags % 2 == 1
  }

  predicate HasBit7(flags: u64) {
    flags / 128 % 2 == 1
  }

  /** The flags say that the entry is present and no large page; all others are free. */
  predicate IsTable(link: Link) {
    IsAligned(link.to, 0xFFF) && IsPresent(link.flags) && !HasBit7(link.flags)
  }

  /** A leaf of the level: bit 7 marks it, except in level 1, where it is free. */
  predicate IsLeaf(link: Link, level: LeafLevel) {
    IsAligned(link.to, Mask(level)) && IsPresent(link.flags) && (level == 1 || HasBit7(link.flags))
  }

  /** RAM holds the link as entry `index` of the table, eight bytes each. */
  predicate Holds(ram: seq<u8>, table: u64, index: u64, link: Link) {
    var at := EntryAt(table, index);
    at + 8 <= |ram| && GuestMemory.Load64(ram, at) == Bits(link)
  }

  lemma FlagBits(to: u64, flags: u64)
    requires to & 0xFFF == 0 && flags < 0x1000 && flags % 2 == 1
    ensures (to | flags) & 1 != 0
    ensures (to | flags) & 0x80 != 0 <==> flags / 128 % 2 == 1
    ensures (to | flags) & !0xFFF == to
  {
  }

  lemma DecodeLink(link: Link)
    requires IsAligned(link.to, 0xFFF) && IsPresent(link.flags)
    ensures Decode(Bits(link)) == Entry(Bits(link), true, HasBit7(link.flags), link.to)
  {
    FlagBits(link.to, link.flags);
  }

  /** Entries are eight bytes apart. */
  lemma EntryAddress(table: u64, index: u64)
    ensures EntryAt(table, index) == (table + 8 * index) as nat
  {
  }

  lemma LinkFetches(ram: seq<u8>, table: u64, index: u64, link: Link)
    requires Holds(ram, table, index, link) && IsAligned(link.to, 0xFFF) && IsPresent(link.flags)
    ensures Fetcher(ram)(table, index) == Some(Entry(Bits(link), true, HasBit7(link.flags), link.to))
  {
    DecodeLink(link);
  }

  lemma TableLeads(ram: seq<u8>, table: u64, index: u64, link: Link)
    requires Holds(ram, table, index, link) && IsTable(link)
    ensures Leads(Fetcher(ram), table, index, link.to)
  {
    LinkFetches(ram, table, index, link);
  }

  /** The entry that a leaf is read as. */
  function LeafEntry(link: Link): Entry<u64> {
    Entry(Bits(link), true, HasBit7(link.flags), link.to)
  }

  lemma LargeAligned(to: u64)
    ensures to & 0x1F_FFFF == 0 ==> to & 0xFFF == 0
    ensures to & 0x3FFF_FFFF == 0 ==> to & 0xFFF == 0
  {
  }

  lemma LeafFetches(ram: seq<u8>, table: u64, index: u64, link: Link, level: LeafLevel)
    requires Holds(ram, table, index, link) && IsLeaf(link, level)
    ensures Fetcher(ram)(table, index) == Some(LeafEntry(link))
    ensures LeafEntry(link).bits == Bits(link) && LeafEntry(link).present && (level != 1 ==> LeafEntry(link).large)
  {
    LargeAligned(link.to);
    LinkFetches(ram, table, index, link);
  }

  lemma LeafFrame1(to: u64, flags: u64)
    requires to & 0xFFF == 0 && flags < 0x1000
    ensures (to | flags) & !0xFFF == to
  {
  }

  lemma LeafFrame2(to: u64, flags: u64)
    requires to & 0x1F_FFFF == 0 && flags < 0x1000
    ensures (to | flags) & !0x1F_FFFF == to
  {
  }

  lemma LeafFrame3(to: u64, flags: u64)
    requires to & 0x3FFF_FFFF == 0 && flags < 0x1000
    ensures (to | flags) & !0x3FFF_FFFF == to
  {
  }

  /** Under the mask, the link names its address. */
  predicate IsFramed(link: Link, mask: u64) {
    Bits(link) & !mask == link.to
  }

  lemma LeafFrame(link: Link, level: LeafLevel)
    requires IsLeaf(link, level)
    ensures IsFramed(link, Mask(level))
  {
    if level == 1 {
      LeafFrame1(link.to, link.flags);
    } else if level == 2 {
      LeafFrame2(link.to, link.flags);
    } else {
      LeafFrame3(link.to, link.flags);
    }
  }

  lemma SpliceFrom(bits: u64, virt: u64, mask: u64, to: u64)
    requires bits & !mask == to
    ensures Splice(bits, virt, mask) == to + (virt & mask)
  {
    SpliceAdds(bits, virt, mask);
  }

  /** A descent that ends at the leaf maps the address into its block. */
  lemma LeafTranslates(ram: seq<u8>, cr3: u64, virt: u64, link: Link, level: LeafLevel)
    requires cr3 != 0 && IsFramed(link, Mask(level))
    requires Descend(Fetcher(ram), Base(cr3), DigitsOf(virt), 4) == Leaf(Bits(link), level)
    ensures Translate(ram, cr3, virt) == Mapped(link.to + (virt & Mask(level)))
  {
    WalkIsDescent(ram, cr3, virt);
    SpliceFrom(Bits(link), virt, Mask(level), link.to);
  }

  /** Four tables linked along the digits of an address, by entries with any flags that say
      present, map its page to the last link. */
  lemma LinkedTablesMap(ram: seq<u8>, cr3: u64, virt: u64, pdpt: Link, pd: Link, pt: Link, page: Link)
    requires cr3 != 0 && IsTable(pdpt) && IsTable(pd) && IsTable(pt) && IsLeaf(page, 1)
    requires Holds(ram, Base(cr3), Digit(virt, 4), pdpt) && Holds(ram, pdpt.to, Digit(virt, 3), pd)
    requires Holds(ram, pd.to, Digit(virt, 2), pt) && Holds(ram, pt.to, Digit(virt, 1), page)
    ensures Translate(ram, cr3, virt) == Mapped(page.to + (virt & 0xFFF))
  {
    LinksLead1(ram, Base(cr3), virt, pdpt, pd, pt, page);
    LeafFrame(page, 1);
    LeafTranslates(ram, cr3, virt, page, 1);
  }

  lemma LinksLead1(ram: seq<u8>, pml4: u64, virt: u64, pdpt: Link, pd: Link, pt: Link, page: Link)
    requires IsTable(pdpt) && IsTable(pd) && IsTable(pt) && IsLeaf(page, 1)
    requires Holds(ram, pml4, Digit(virt, 4), pdpt) && Holds(ram, pdpt.to, Digit(virt, 3), pd)
    requires Holds(ram, pd.to, Digit(virt, 2), pt) && Holds(ram, pt.to, Digit(virt, 1), page)
    ensures Descend(Fetcher(ram), pml4, DigitsOf(virt), 4) == Leaf(Bits(page), 1)
  {
    var f, d := Fetcher(ram), DigitsOf(virt);
    TableLeads(ram, pml4, Digit(virt, 4), pdpt);
    TableLeads(ram, pdpt.to, Digit(virt, 3), pd);
    TableLeads(ram, pd.to, Digit(virt, 2), pt);
    LeafFetches(ram, pt.to, Digit(virt, 1), page, 1);
    DescentOfLinks(f, d, pml4, pdpt.to, pd.to, pt.to, LeafEntry(page));
  }

  /** Three tables linked down to a large entry map its 2 MB page. */
  lemma LinkedTablesMap2M(ram: seq<u8>, cr3: u64, virt: u64, pdpt: Link, pd: Link, page: Link)
    requires cr3 != 0 && IsTable(pdpt) && IsTable(pd) && IsLeaf(page, 2)
    requires Holds(ram, Base(cr3), Digit(virt, 4), pdpt) && Holds(ram, pdpt.to, Digit(virt, 3), pd)
    requires Holds(ram, pd.to, Digit(virt, 2), page)
    ensures Translate(ram, cr3, virt) == Mapped(page.to + (virt & 0x1F_FFFF))
  {
    LinksLead2(ram, Base(cr3), virt, pdpt, pd, page);
    LeafFrame(page, 2);
    LeafTranslates(ram, cr3, virt, page, 2);
  }

  lemma LinksLead2(ram: seq<u8>, pml4: u64, virt: u64, pdpt: Link, pd: Link, page: Link)
    requires IsTable(pdpt) && IsTable(pd) && IsLeaf(page, 2)
    requires Holds(ram, pml4, Digit(virt, 4), pdpt) && Holds(ram, pdpt.to, Digit(virt, 3), pd)
    requires Holds(ram, pd.to, Digit(virt, 2), page)
    ensures Descend(Fetcher(ram), pml4, DigitsOf(virt), 4) == Leaf(Bits(page), 2)
  {
    var f, d := Fetcher(ram), DigitsOf(virt);
    TableLeads(ram, pml4, Digit(virt, 4), pdpt);
    TableLeads(ram, pdpt.to, Digit(virt, 3), pd);
    LeafFetches(ram, pd.to, Digit(virt, 2), page, 2);
    DescentToLarge2(f, d, pml4, pdpt.to, pd.to, LeafEntry(page));
  }

  /** Two tables linked down to a large entry map its 1 GB page. */
  lemma LinkedTablesMap1G(ram: seq<u8>, cr3: u64, virt: u64, pdpt: Link, page: Link)
    requires cr3 != 0 && IsTable(pdpt) && IsLeaf(page, 3)
    requires Holds(ram, Base(cr3), Digit(virt, 4), pdpt) && Holds(ram, pdpt.to, Digit(virt, 3), page)
    ensures Translate(ram, cr3, virt) == Mapped(page.to + (virt & 0x3FFF_FFFF))
  {
    LinksLead3(ram, Base(cr3), virt, pdpt, page);
    LeafFrame(page, 3);
    LeafTranslates(ram, cr3, virt, page, 3);
  }

  lemma LinksLead3(ram: seq<u8>, pml4: u64, virt: u64, pdpt: Link, page: Link)
    requires IsTable(pdpt) && IsLeaf(page, 3)
    requires Holds(ram, pml4, Digit(virt, 4), pdpt) && Holds(ram, pdpt.to, Digit(virt, 3), page)
    ensures Descend(Fetcher(ram), pml4, DigitsOf(virt), 4) == Leaf(Bits(page), 3)
  {
    var f, d := Fetcher(ram), DigitsOf(virt);
    TableLeads(ram, pml4, Digit(virt, 4), pdpt);
    LeafFetches(ram, pdpt.to, Digit(virt, 3), page, 3);
    DescentToLarge3(f, d, pml4, pdpt.to, LeafEntry(page));
  }

  lemma DecodeAbsent(bits: u64)
    requires IsAligned(bits, 1)
    ensures !Decode(bits).present
  {
  }

  /** RAM holds an entry whose lowest bit is clear. */
  predicate Unlinked(ram: seq<u8>, table: u64, index: u64) {
    var at := EntryAt(table, index);
    at + 8 <= |ram| && IsAligned(GuestMemory.Load64(ram, at), 1)
  }

  lemma UnlinkedFetches(ram: seq<u8>, table: u64, index: u64)
    requires Unlinked(ram, table, index)
    ensures IsAbsent(Fetcher(ram), table, index)
  {
    DecodeAbsent(GuestMemory.Load64(ram, EntryAt(table, index)));
  }

  /** A top entry whose lowest bit is clear maps nothing, whatever its other bits. */
  lemma UnlinkedFaults(ram: seq<u8>, cr3: u64, virt: u64)
    requires cr3 != 0 && Unlinked(ram, Base(cr3), Digit(virt, 4))
    ensures Translate(ram, cr3, virt) == Fault
  {
    UnlinkedFetches(ram, Base(cr3), Digit(virt, 4));
    DescentToAbsent(Fetcher(ram), DigitsOf(virt), Base(cr3), 4);
    WalkIsDescent(ram, cr3, virt);
  }

  lemma FetchOutside(ram: seq<u8>, at: nat)
    ensures FetchAt(ram, at).None? <==> at + 8 > |ram|
  {
  }

  /** A top entry that does not lie in RAM as a whole makes the walk panic. */
  lemma OutsidePanics(ram: seq<u8>, cr3: u64, virt: u64, at: nat)
    requires cr3 != 0 && at == EntryAt(Base(cr3), Digit(virt, 4)) && at + 8 > |ram|
    ensures Translate(ram, cr3, virt) == Panic
  {
    FetchOutside(ram, at);
    assert Fetcher(ram)(Base(cr3), Digit(virt, 4)) == FetchAt(ram, at);
    DescentOutside(Fetcher(ram), DigitsOf(virt), Base(cr3), 4);
    WalkIsDescent(ram, cr3, virt);
  }

  // ---- Reads and writes ----

  /** The access does not panic: the walk stays in RAM, and so does the byte it finds. */
  predicate Accessible(ram: seq<u8>, t: Translation) {
    t.Fault? || (t.Mapped? && t.phys as nat < |ram|)
  }

  function ReadByte(ram: seq<u8>, cr3: u64, virt: u64): Option<u8>
    requires Accessible(ram, Translate(ram, cr3, virt))
  {
    var t := Translate(ram, cr3, virt);
    if t.Mapped? then Some(ram[t.phys as nat]) else None
  }

  function WriteByte(ram: seq<u8>, t: Translation, value: u8): seq<u8>
    requires Accessible(ram, t)
  {
    if t.Mapped? then ram[t.phys as nat := value] else ram
  }

  /** A fault reads nothing and writes nothing. */
  lemma FaultHasNoEffect(ram: seq<u8>, cr3: u64, virt: u64, value: u8)
    requires Translate(ram, cr3, virt) == Fault
    ensures ReadByte(ram, cr3, virt) == None && WriteByte(ram, Translate(ram, cr3, virt), value) == ram
  {
  }

  /** A write to a mapped address stores the value at its translation, where it is read. */
  lemma MappedByteIsStored(ram: seq<u8>, t: Translation, value: u8, at: nat)
    requires t.Mapped? && t.phys as nat == at < |ram|
    ensures WriteByte(ram, t, value) == ram[at := value]
  {
  }

  /** With paging off, addresses are physical. */
  lemma PagingOff(ram: seq<u8>, virt: u64)
    ensures Translate(ram, 0, virt) == Mapped(virt)
  {
  }

  class VirtualMemory {
    const physMem: GuestMemory.PhysicalMemory
    var cr3: u64

    constructor (physMem: GuestMemory.PhysicalMemory)
      ensures this.physMem == physMem && cr3 == 0
    {
      this.physMem := physMem;
      cr3 := 0;
    }

    method SetCr3(value: u64)
      modifies this
      ensures cr3 == value
    {
      cr3 := value;
    }

    method ReadU8(virt: u64) returns (value: Option<u8>)
      requires Accessible(physMem.ram[..], Translate(physMem.ram[..], cr3, virt))
      ensures value == ReadByte(physMem.ram[..], cr3, virt)
    {
      var t := Translate(physMem.ram[..], cr3, virt);
      if t.Mapped? {
        var b := physMem.ReadU8(t.phys as nat);
        value := Some(b);
      } else {
        value := None;
      }
    }

    method WriteU8(virt: u64, value: u8) returns (ok: bool)
      requires Accessible(physMem.ram[..], Translate(physMem.ram[..], cr3, virt))
      modifies physMem.ram
      ensures ok <==> Translate(old(physMem.ram[..]), cr3, virt).Mapped?
      ensures physMem.ram[..] ==
              WriteByte(old(physMem.ram[..]), Translate(old(physMem.ram[..]), cr3, virt), value)
    {
      var t := Translate(physMem.ram[..], cr3, virt);
      ok := t.Mapped?;
      if ok {
        physMem.WriteU8(t.phys as nat, value);
      }
    }
  }

  /** The walk for `virt` reads a table entry that covers the RAM byte `at`. */
  ghost predicate WalkReads(ram: seq<u8>, cr3: u64, virt: u64, at: nat) {
    cr3 != 0 &&
    exists e :: e in Consulted(Fetcher(ram), Base(cr3), DigitsOf(virt), 4) &&
      EntryAt(e.0, e.1) <= at < EntryAt(e.0, e.1) + 8
  }

  lemma FetchFrame(ram: seq<u8>, at: nat, value: u8, entry: nat)
    requires at < |ram| && !(entry <= at < entry + 8)
    ensures FetchAt(ram[at := value], entry) == FetchAt(ram, entry)
  {
    if entry + 8 <= |ram| {
      GuestMemory.LoadFrame(ram, at, value, entry);
    }
  }

  /** A byte outside the entries that a walk reads can change without changing the walk. */
  lemma TranslateFrame(ram: seq<u8>, cr3: u64, virt: u64, at: nat, value: u8)
    requires at < |ram| && !WalkReads(ram, cr3, virt, at)
    ensures Translate(ram[at := value], cr3, virt) == Translate(ram, cr3, virt)
  {
    if cr3 != 0 {
      var f, g := Fetcher(ram), Fetcher(ram[at := value]);
      var entries := Consulted(f, Base(cr3), DigitsOf(virt), 4);
      forall e | e in entries
        ensures f(e.0, e.1) == g(e.0, e.1)
      {
        FetchFrame(ram, at, value, EntryAt(e.0, e.1));
      }
      DescendFrame(f, g, Base(cr3), DigitsOf(virt), 4);
      WalkIsDescent(ram, cr3, virt);
      WalkIsDescent(ram[at := value], cr3, virt);
    }
  }

  /** A virtual write to a byte that its own walk does not read is read back. */
  lemma WriteReadsBack(ram: seq<u8>, cr3: u64, virt: u64, value: u8, at: nat)
    requires Translate(ram, cr3, virt).Mapped? && Translate(ram, cr3, virt).phys as nat == at < |ram|
    requires !WalkReads(ram, cr3, virt, at)
    ensures Translate(ram[at := value], cr3, virt) == Translate(ram, cr3, virt)
    ensures ReadByte(ram[at := value], cr3, virt) == Some(value)
  {
    TranslateFrame(ram, cr3, virt, at, value);
  }

  /** Any other address whose walk does not read the written byte keeps its translation,
      and its value unless it maps to that very byte. */
  lemma WriteKeepsOthers(ram: seq<u8>, cr3: u64, other: u64, value: u8, at: nat)
    requires at < |ram| && !WalkReads(ram, cr3, other, at)
    requires Accessible(ram, Translate(ram, cr3, other))
    ensures Translate(ram[at := value], cr3, other) == Translate(ram, cr3, other)
    ensures ReadByte(ram[at := value], cr3, other) ==
      var t := Translate(ram, cr3, other);
      if t.Mapped? && t.phys as nat == at then Some(value) else ReadByte(ram, cr3, other)
  {
    TranslateFrame(ram, cr3, other, at, value);
  }

  lemma ZeroPath()
    ensures PathOf(0) == Path(0, 0, 0, 0)
  {
  }

  lemma SelfEntry()
    ensures FromLe64(Le64(0x1001)) == 0x1001
    ensures Decode(0x1001) == Entry(0x1001, true, false, 0x1000)
    ensures Decode(0x1000) == Entry(0x1000, false, false, 0x1000)
    ensures Splice(0x1001, 0, 0xFFF) == 0x1000 && Base(0x1000) == 0x1000 && EntryAt(0x1000, 0) == 0x1000
  {
    Le64RoundTrip(0x1001);
  }

  /** The side condition is needed: a top table whose entry 0 points back at the table maps
      address 0 to that very entry, and writing a zero byte there unmaps the address. */
  lemma SelfMapLosesWrite() returns (ram: seq<u8>)
    ensures |ram| == 0x2000
    ensures Translate(ram, 0x1000, 0) == Mapped(0x1000)
    ensures Translate(ram[0x1000 := 0], 0x1000, 0) == Fault
  {
    var blank: seq<u8> := seq(0x2000, _ => 0);
    ram := Patch(blank, 0x1000, Le64(0x1001));
    ZeroPath();
    SelfEntry();
    var f, g := Fetcher(ram), Fetcher(ram[0x1000 := 0]);
    assert ram[0x1000..0x1008] == Le64(0x1001);
    assert f(0x1000, 0) == Some(Decode(0x1001));
    assert ram[0x1000 := 0][0x1000..0x1008] == Le64(0x1000);
    Le64RoundTrip(0x1000);
    assert g(0x1000, 0) == Some(Decode(0x1000));
    assert Walk(f, 0x1000, Path(0, 0, 0, 0)) == Leaf(0x1001, 1);
    assert Walk(g, 0x1000, Path(0, 0, 0, 0)) == NotPresent;
  }
}
