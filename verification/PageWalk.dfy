/** Four-level page walks over guest RAM. A walk that reads a table entry outside RAM
    panics in the source and ends `Outside` here. */
module PageWalk {
  import opened Machine

  /** A table entry over words `W`: its bits, and what the walk reads off them. */
  datatype Entry<W> = Entry(bits: W, present: bool, large: bool, base: W)

  /** Reads entry `index` of the table at `table`; None when that lies outside RAM. */
  type Fetch<!W> = (W, W) -> Option<Entry<W>>

  /** The four table indices, as the unrolled walk names them. */
  datatype Path<W> = Path(pml4: W, pdpt: W, pd: W, pt: W)

  type Level = n: nat | 1 <= n <= 4 witness 1

  /** The levels that can have leaves: 1 for 4 KB, 2 for 2 MB and 3 for 1 GB blocks. */
  type LeafLevel = n: Level | n <= 3 witness 1

  /** How a walk ends: at a leaf entry, or not. */
  datatype Found<W> = Leaf(bits: W, level: LeafLevel) | NotPresent | Outside

  /** The walk as the source unrolls it. */
  function Walk<W>(fetch: Fetch<W>, pml4: W, v: Path<W>): Found<W> {
    var pml4e := fetch(pml4, v.pml4);
    if pml4e.None? then Outside
    else if !pml4e.value.present then NotPresent
    else
      var pdpte := fetch(pml4e.value.base, v.pdpt);
      if pdpte.None? then Outside
      else if !pdpte.value.present then NotPresent
      else if pdpte.value.large then Leaf(pdpte.value.bits, 3)
      else
        var pde := fetch(pdpte.value.base, v.pd);
        if pde.None? then Outside
        else if !pde.value.present then NotPresent
        else if pde.value.large then Leaf(pde.value.bits, 2)
        else
          var pte := fetch(pde.value.base, v.pt);
          if pte.None? then Outside
          else if !pte.value.present then NotPresent
          else Leaf(pte.value.bits, 1)
  }

  // ---- The walk as a recursive radix descent ----

  /** The digits of an address: the table index that it has at each level. */
  type Digits<!W> = Level -> W

  /** The descent ends with this entry: it is outside RAM, not present, or a leaf. Leaves
      are at level 1, and at levels 2 and 3 when the large bit is set. */
  predicate Stops<W>(e: Option<Entry<W>>, level: Level) {
    e.None? || !e.value.present || level == 1 || (level <= 3 && e.value.large)
  }

  function Descend<W>(fetch: Fetch<W>, table: W, d: Digits<W>, level: Level): (r: Found<W>)
    ensures r.Leaf? ==> r.level <= level
    decreases level
  {
    var e := fetch(table, d(level));
    if !Stops(e, level) then Descend(fetch, e.value.base, d, level - 1)
    else if e.None? then Outside
    else if !e.value.present then NotPresent
    else Leaf(e.value.bits, level)
  }

  /** The named indices are the digits. */
  ghost predicate Spells<W>(v: Path<W>, d: Digits<W>) {
    v.pml4 == d(4) && v.pdpt == d(3) && v.pd == d(2) && v.pt == d(1)
  }

  lemma UnrolledIsRadix<W>(fetch: Fetch<W>, pml4: W, v: Path<W>, d: Digits<W>)
    requires Spells(v, d)
    ensures Walk(fetch, pml4, v) == Descend(fetch, pml4, d, 4)
  {
    var pml4e := fetch(pml4, d(4));
    if !Stops(pml4e, 4) {
      var pdpte := fetch(pml4e.value.base, d(3));
      assert Descend(fetch, pml4, d, 4) == Descend(fetch, pml4e.value.base, d, 3);
      if !Stops(pdpte, 3) {
        var pde := fetch(pdpte.value.base, d(2));
        assert Descend(fetch, pml4, d, 4) == Descend(fetch, pdpte.value.base, d, 2);
        if !Stops(pde, 2) {
          assert Descend(fetch, pml4, d, 4) == Descend(fetch, pde.value.base, d, 1);
        }
      }
    }
  }

  /** The table at `table` links to the one at `to` by an entry that is no leaf. */
  ghost predicate Leads<W>(fetch: Fetch<W>, table: W, index: W, to: W) {
    var e := fetch(table, index);
    e.Some? && e.value.present && !e.value.large && e.value.base == to
  }

  /** Four linked tables lead to the entry of the last. */
  lemma DescentOfLinks<W>(fetch: Fetch<W>, d: Digits<W>, pml4: W, pdpt: W, pd: W, pt: W, pte: Entry<W>)
    requires Leads(fetch, pml4, d(4), pdpt) && Leads(fetch, pdpt, d(3), pd) && Leads(fetch, pd, d(2), pt)
    requires fetch(pt, d(1)) == Some(pte) && pte.present
    ensures Descend(fetch, pml4, d, 4) == Leaf(pte.bits, 1)
  {
    assert Descend(fetch, pml4, d, 4) == Descend(fetch, pdpt, d, 3);
    assert Descend(fetch, pdpt, d, 3) == Descend(fetch, pd, d, 2);
    assert Descend(fetch, pd, d, 2) == Descend(fetch, pt, d, 1);
  }

  /** Linked tables lead to a large entry of level 3. */
  lemma DescentToLarge3<W>(fetch: Fetch<W>, d: Digits<W>, pml4: W, pdpt: W, pdpte: Entry<W>)
    requires Leads(fetch, pml4, d(4), pdpt)
    requires fetch(pdpt, d(3)) == Some(pdpte) && pdpte.present && pdpte.large
    ensures Descend(fetch, pml4, d, 4) == Leaf(pdpte.bits, 3)
  {
    assert Descend(fetch, pml4, d, 4) == Descend(fetch, pdpt, d, 3);
  }

  /** Linked tables lead to a large entry of level 2. */
  lemma DescentToLarge2<W>(fetch: Fetch<W>, d: Digits<W>, pml4: W, pdpt: W, pd: W, pde: Entry<W>)
    requires Leads(fetch, pml4, d(4), pdpt) && Leads(fetch, pdpt, d(3), pd)
    requires fetch(pd, d(2)) == Some(pde) && pde.present && pde.large
    ensures Descend(fetch, pml4, d, 4) == Leaf(pde.bits, 2)
  {
    assert Descend(fetch, pml4, d, 4) == Descend(fetch, pdpt, d, 3);
    assert Descend(fetch, pdpt, d, 3) == Descend(fetch, pd, d, 2);
  }

  ghost predicate IsAbsent<W>(fetch: Fetch<W>, table: W, index: W) {
    fetch(table, index).Some? && !fetch(table, index).value.present
  }

  lemma DescentToAbsent<W>(fetch: Fetch<W>, d: Digits<W>, table: W, level: Level)
    requires IsAbsent(fetch, table, d(level))
    ensures Descend(fetch, table, d, level) == NotPresent
  {
  }

  lemma DescentOutside<W>(fetch: Fetch<W>, d: Digits<W>, table: W, level: Level)
    requires fetch(table, d(level)).None?
    ensures Descend(fetch, table, d, level) == Outside
  {
  }

  /** The addresses agree on the digits of `level` and above. */
  ghost predicate SameFrom<W>(d: Digits<W>, e: Digits<W>, level: Level) {
    forall n: Level :: level <= n ==> d(n) == e(n)
  }

  ghost predicate SamePathFrom<W>(v: Path<W>, w: Path<W>, level: Level) {
    && v.pml4 == w.pml4 && (level <= 3 ==> v.pdpt == w.pdpt)
    && (level <= 2 ==> v.pd == w.pd) && (level <= 1 ==> v.pt == w.pt)
  }

  lemma SameFromPaths<W>(v: Path<W>, w: Path<W>, d: Digits<W>, e: Digits<W>, level: Level)
    requires Spells(v, d) && Spells(w, e) && SamePathFrom(v, w, level)
    ensures SameFrom(d, e, level)
  {
    forall n: Level | level <= n
      ensures d(n) == e(n)
    {
      assert n == 1 || n == 2 || n == 3 || n == 4;
    }
  }

  /** Addresses that agree down to the leaf share it. */
  lemma {:induction false} SharedLeaf<W>(fetch: Fetch<W>, table: W, d: Digits<W>, e: Digits<W>, level: Level)
    requires Descend(fetch, table, d, level).Leaf?
    requires SameFrom(d, e, Descend(fetch, table, d, level).level)
    ensures Descend(fetch, table, e, level) == Descend(fetch, table, d, level)
    decreases level
  {
    assert d(level) == e(level);
    var entry := fetch(table, d(level));
    if !Stops(entry, level) {
      SharedLeaf(fetch, entry.value.base, d, e, level - 1);
    }
  }

  /** The (table, index) pairs that a descent reads. */
  ghost function Consulted<W>(fetch: Fetch<W>, table: W, d: Digits<W>, level: Level): set<(W, W)>
    decreases level
  {
    var e := fetch(table, d(level));
    {(table, d(level))} +
    if Stops(e, level) then {} else Consulted(fetch, e.value.base, d, level - 1)
  }

  ghost predicate Agree<W>(f: Fetch<W>, g: Fetch<W>, entries: set<(W, W)>) {
    forall e :: e in entries ==> f(e.0, e.1) == g(e.0, e.1)
  }

  /** A walk depends on nothing but the entries it reads. */
  lemma {:induction false} DescendFrame<W>(f: Fetch<W>, g: Fetch<W>, table: W, d: Digits<W>, level: Level)
    requires Agree(f, g, Consulted(f, table, d, level))
    ensures Descend(f, table, d, level) == Descend(g, table, d, level)
    decreases level
  {
    var here := (table, d(level));
    var e := f(here.0, here.1);
    assert here in Consulted(f, table, d, level) && e == g(here.0, here.1);
    if !Stops(e, level) {
      DescendFrame(f, g, e.value.base, d, level - 1);
    }
  }
}
