/** Sparse memory snapshots of a VM: the non-zero 4 KB pages below 16 MB. RAM smaller than
    that makes the source panic; here a precondition excludes it. */
module Snapshot {
  import opened Machine

  const PAGE_SIZE: nat := 4096
  const LOW_MEMORY: nat := 0x100000
  const SNAPSHOT_LIMIT: nat := 0x1000000

  type Pages = map<nat, seq<u8>>

  predicate IsPage(addr: nat) {
    addr % PAGE_SIZE == 0
  }

  function PageAt(ram: seq<u8>, addr: nat): seq<u8>
    requires addr + PAGE_SIZE <= |ram|
  {
    ram[addr..addr + PAGE_SIZE]
  }

  predicate NonZero(data: seq<u8>) {
    exists i :: 0 <= i < |data| && data[i] != 0
  }

  /** The pages of a snapshot of the addresses below `limit`. */
  function PagesBelow(ram: seq<u8>, limit: nat): Pages
    requires limit <= |ram| && IsPage(limit)
  {
    map addr | 0 <= addr < limit && IsPage(addr) && NonZero(PageAt(ram, addr)) :: PageAt(ram, addr)
  }

  function SnapshotOf(ram: seq<u8>): Pages
    requires SNAPSHOT_LIMIT <= |ram|
  {
    PagesBelow(ram, SNAPSHOT_LIMIT)
  }

  /** Extends the snapshot of the addresses below `from` to those below `to`. */
  method SnapshotRange(ram: array<u8>, from: nat, to: nat, below: Pages) returns (pages: Pages)
    requires IsPage(from) && IsPage(to) && from <= to <= ram.Length
    requires below == PagesBelow(ram[..], from)
    ensures pages == PagesBelow(ram[..], to)
  {
    pages := below;
    var page := from;
    while page < to
      invariant from <= page <= to && IsPage(page)
      invariant pages == PagesBelow(ram[..], page)
    {
      var data := ram[page..page + PAGE_SIZE];
      assert data == PageAt(ram[..], page);
      ExtendPages(ram[..], page);
      if NonZero(data) {
        pages := pages[page := data];
      }
      page := page + PAGE_SIZE;
    }
  }

  lemma ExtendPages(ram: seq<u8>, page: nat)
    requires IsPage(page) && page + PAGE_SIZE <= |ram|
    ensures PagesBelow(ram, page + PAGE_SIZE) ==
      if NonZero(PageAt(ram, page)) then PagesBelow(ram, page)[page := PageAt(ram, page)] else PagesBelow(ram, page)
  {
  }

  /** Low memory first, then the kernel region. */
  method SnapshotMemory(ram: array<u8>) returns (pages: Pages)
    requires SNAPSHOT_LIMIT <= ram.Length
    ensures pages == SnapshotOf(ram[..])
  {
    pages := SnapshotRange(ram, 0, LOW_MEMORY, map[]);
    pages := SnapshotRange(ram, LOW_MEMORY, SNAPSHOT_LIMIT, pages);
  }

  // ---- Restoring ----

  /** Whole, aligned pages inside RAM: what a snapshot of the same VM holds. */
  ghost predicate FitsRam(pages: Pages, ramSize: nat) {
    forall addr :: addr in pages ==> IsPage(addr) && |pages[addr]| == PAGE_SIZE && addr + PAGE_SIZE <= ramSize
  }

  function PageOf(i: nat): (addr: nat)
    ensures IsPage(addr) && addr <= i < addr + PAGE_SIZE
  {
    i - i % PAGE_SIZE
  }

  /** RAM with the bytes of some of the pages written back. */
  ghost predicate IsRestored(was: seq<u8>, pages: Pages, done: set<nat>, ram: seq<u8>)
    requires FitsRam(pages, |was|) && done <= pages.Keys
  {
    |ram| == |was| &&
    forall i :: 0 <= i < |ram| ==>
      ram[i] == if PageOf(i) in done then pages[PageOf(i)][i - PageOf(i)] else was[i]
  }

  /** Writes the pages back in whatever order the map yields them. */
  method RestoreMemory(ram: array<u8>, pages: Pages)
    requires FitsRam(pages, ram.Length)
    modifies ram
    ensures IsRestored(old(ram[..]), pages, pages.Keys, ram[..])
  {
    ghost var was := ram[..];
    var todo := pages.Keys;
    while todo != {}
      invariant todo <= pages.Keys
      invariant IsRestored(was, pages, pages.Keys - todo, ram[..])
    {
      var addr :| addr in todo;
      WritePage(ram, addr, pages[addr]);
      todo := todo - {addr};
    }
    assert pages.Keys - {} == pages.Keys;
  }

  method WritePage(ram: array<u8>, addr: nat, data: seq<u8>)
    requires IsPage(addr) && |data| == PAGE_SIZE && addr + PAGE_SIZE <= ram.Length
    modifies ram
    ensures forall i :: 0 <= i < ram.Length ==>
      ram[i] == if PageOf(i) == addr then data[i - addr] else old(ram[i])
  {
    forall k | 0 <= k < |data| {
      ram[addr + k] := data[k];
    }
  }

  // ---- What a snapshot and a later restore achieve ----

  predicate IsLowPage(addr: nat) {
    IsPage(addr) && addr < SNAPSHOT_LIMIT
  }

  lemma ZeroPagesEqual(a: seq<u8>, b: seq<u8>)
    requires |a| == |b| && !NonZero(a)
    ensures a == b <==> !NonZero(b)
  {
    if !NonZero(b) {
      forall i | 0 <= i < |a|
        ensures a[i] == b[i]
      {
        assert a[i] == 0 && b[i] == 0;
      }
    }
  }

  ghost predicate SameLowPages(a: seq<u8>, b: seq<u8>)
    requires SNAPSHOT_LIMIT <= |a| && SNAPSHOT_LIMIT <= |b|
  {
    forall addr: nat :: IsLowPage(addr) ==> PageAt(a, addr) == PageAt(b, addr)
  }

  lemma LowMemoryIsItsPages(a: seq<u8>, b: seq<u8>)
    requires SNAPSHOT_LIMIT <= |a| && SNAPSHOT_LIMIT <= |b|
    ensures a[..SNAPSHOT_LIMIT] == b[..SNAPSHOT_LIMIT] <==> SameLowPages(a, b)
  {
    if a[..SNAPSHOT_LIMIT] == b[..SNAPSHOT_LIMIT] {
      forall addr: nat | IsLowPage(addr)
        ensures PageAt(a, addr) == PageAt(b, addr)
      {
        SliceOfPrefix(a, SNAPSHOT_LIMIT, addr, addr + PAGE_SIZE);
        SliceOfPrefix(b, SNAPSHOT_LIMIT, addr, addr + PAGE_SIZE);
      }
    }
    if SameLowPages(a, b) {
      forall i | 0 <= i < SNAPSHOT_LIMIT
        ensures a[i] == b[i]
      {
        assert IsLowPage(PageOf(i));
        assert a[i] == PageAt(a, PageOf(i))[i - PageOf(i)];
        assert b[i] == PageAt(b, PageOf(i))[i - PageOf(i)];
      }
    }
  }

  /** Leaving out zero pages loses nothing: equal snapshots mean equal low memory. */
  lemma SnapshotDeterminesLowMemory(a: seq<u8>, b: seq<u8>)
    requires SNAPSHOT_LIMIT <= |a| && SNAPSHOT_LIMIT <= |b|
    ensures SnapshotOf(a) == SnapshotOf(b) <==> SameLowPages(a, b)
  {
    if SnapshotOf(a) == SnapshotOf(b) {
      forall addr: nat | IsLowPage(addr)
        ensures PageAt(a, addr) == PageAt(b, addr)
      {
        assert addr in SnapshotOf(a) <==> NonZero(PageAt(a, addr));
        assert addr in SnapshotOf(b) <==> NonZero(PageAt(b, addr));
        if !NonZero(PageAt(a, addr)) {
          ZeroPagesEqual(PageAt(a, addr), PageAt(b, addr));
        } else {
          assert SnapshotOf(a)[addr] == SnapshotOf(b)[addr];
        }
      }
    }
  }

  /** A snapshot can be restored into RAM of the same size. */
  lemma SnapshotFits(ram: seq<u8>)
    requires SNAPSHOT_LIMIT <= |ram|
    ensures FitsRam(SnapshotOf(ram), |ram|)
  {
    forall addr | addr in SnapshotOf(ram)
      ensures IsPage(addr) && |SnapshotOf(ram)[addr]| == PAGE_SIZE && addr + PAGE_SIZE <= |ram|
    {
      assert IsPage(addr) && addr < SNAPSHOT_LIMIT;
    }
  }

  ghost predicate RestoresTo(taken: seq<u8>, later: seq<u8>, after: seq<u8>)
    requires SNAPSHOT_LIMIT <= |taken| == |later|
  {
    var pages := SnapshotOf(taken);
    FitsRam(pages, |later|) && IsRestored(later, pages, pages.Keys, after)
  }

  /** Non-zero pages of the snapshot come back, every other byte stays. */
  lemma RestoredBytes(taken: seq<u8>, later: seq<u8>, after: seq<u8>, i: nat)
    requires SNAPSHOT_LIMIT <= |taken| == |later| && RestoresTo(taken, later, after) && i < |later|
    ensures after[i] ==
      if i < 0x100_0000 && NonZero(PageAt(taken, i / 4096 * 4096)) then taken[i] else later[i]
  {
  }

  lemma SamePage(a: seq<u8>, b: seq<u8>, addr: nat)
    requires addr + PAGE_SIZE <= |a| && addr + PAGE_SIZE <= |b|
    requires forall i :: addr <= i < addr + PAGE_SIZE ==> a[i] == b[i]
    ensures PageAt(a, addr) == PageAt(b, addr)
  {
  }

  lemma RestoredPage(taken: seq<u8>, later: seq<u8>, after: seq<u8>, addr: nat)
    requires SNAPSHOT_LIMIT <= |taken| == |later| && RestoresTo(taken, later, after) && IsLowPage(addr)
    ensures PageAt(after, addr) == if NonZero(PageAt(taken, addr)) then PageAt(taken, addr) else PageAt(later, addr)
  {
    var from := if NonZero(PageAt(taken, addr)) then taken else later;
    forall i | addr <= i < addr + PAGE_SIZE
      ensures after[i] == from[i]
    {
      RestoredBytes(taken, later, after, i);
      assert PageOf(i) == addr;
    }
    SamePage(after, from, addr);
  }

  lemma PageBackIff(taken: seq<u8>, later: seq<u8>, after: seq<u8>, addr: nat)
    requires SNAPSHOT_LIMIT <= |taken| == |later| && RestoresTo(taken, later, after) && IsLowPage(addr)
    ensures PageAt(after, addr) == PageAt(taken, addr) <==>
            (NonZero(PageAt(later, addr)) ==> NonZero(PageAt(taken, addr)))
  {
    RestoredPage(taken, later, after, addr);
    if !NonZero(PageAt(taken, addr)) {
      ZeroPagesEqual(PageAt(taken, addr), PageAt(later, addr));
    }
  }

  /** No page below the limit that was all zero when taken is non-zero later. */
  ghost predicate NoPageFilled(taken: seq<u8>, later: seq<u8>)
    requires SNAPSHOT_LIMIT <= |taken| == |later|
  {
    forall addr: nat :: IsLowPage(addr) && NonZero(PageAt(later, addr)) ==> NonZero(PageAt(taken, addr))
  }

  /** The low 16 MB is back, and a new snapshot holds the same pages, exactly when no page
      that was zero has been filled since. */
  lemma FullyRestoredIff(taken: seq<u8>, later: seq<u8>, after: seq<u8>)
    requires SNAPSHOT_LIMIT <= |taken| == |later| && RestoresTo(taken, later, after)
    ensures after[..SNAPSHOT_LIMIT] == taken[..SNAPSHOT_LIMIT] <==> NoPageFilled(taken, later)
    ensures SnapshotOf(after) == SnapshotOf(taken) <==> NoPageFilled(taken, later)
  {
    LowMemoryIsItsPages(after, taken);
    SnapshotDeterminesLowMemory(after, taken);
    PagesBackIff(taken, later, after);
  }

  lemma BlankPage(ram: seq<u8>, addr: nat)
    requires addr + PAGE_SIZE <= |ram| && forall i :: addr <= i < addr + PAGE_SIZE ==> ram[i] == 0
    ensures !NonZero(PageAt(ram, addr))
  {
  }

  lemma BlankSnapshot(ram: seq<u8>)
    requires SNAPSHOT_LIMIT <= |ram| && forall i :: 0 <= i < SNAPSHOT_LIMIT ==> ram[i] == 0
    ensures SnapshotOf(ram) == map[]
  {
    forall addr: nat | IsLowPage(addr)
      ensures addr !in SnapshotOf(ram)
    {
      BlankPage(ram, addr);
    }
  }

  /** A byte written to a blank page after the snapshot is still there after the restore. */
  lemma FilledPageStays() returns (taken: seq<u8>, later: seq<u8>, after: seq<u8>)
    ensures |taken| == |later| == SNAPSHOT_LIMIT && RestoresTo(taken, later, after)
    ensures taken[0] == 0 && later[0] == 1 && after[0] == 1
    ensures after[..SNAPSHOT_LIMIT] != taken[..SNAPSHOT_LIMIT] && SnapshotOf(after) != SnapshotOf(taken)
  {
    taken := seq(SNAPSHOT_LIMIT, _ => 0);
    later := taken[0 := 1];
    after := later;
    BlankSnapshot(taken);
    BlankPage(taken, 0);
    assert PageAt(later, 0)[0] == 1 && IsLowPage(0);
    FullyRestoredIff(taken, later, after);
  }

  lemma PagesBackIff(taken: seq<u8>, later: seq<u8>, after: seq<u8>)
    requires SNAPSHOT_LIMIT <= |taken| == |later| && RestoresTo(taken, later, after)
    ensures SameLowPages(after, taken) <==> NoPageFilled(taken, later)
  {
    forall addr: nat | IsLowPage(addr)
      ensures PageAt(after, addr) == PageAt(taken, addr) <==>
              (NonZero(PageAt(later, addr)) ==> NonZero(PageAt(taken, addr)))
    {
      PageBackIff(taken, later, after, addr);
    }
  }
}
