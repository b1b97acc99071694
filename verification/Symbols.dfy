/** The debugger's symbol table: the name of an address is that of the closest symbol at or
    below it, found by a scan of a hash map in whatever order it yields its entries. */
module Symbols {
  import opened Machine

  type Table = map<nat, string>

  // ---- Labels ----

  function HexDigit(d: nat): char
    requires d < 16
  {
    if d < 10 then '0' + d as char else 'a' + (d - 10) as char
  }

  function Hex(n: nat): (s: string)
    ensures s != []
  {
    if n < 16 then [HexDigit(n)] else Hex(n / 16) + [HexDigit(n % 16)]
  }

  function DigitValue(c: char): int {
    if c <= '9' then c as int - '0' as int else c as int - 'a' as int + 10
  }

  function HexValue(s: string): int {
    if s == [] then 0 else HexValue(s[..|s| - 1]) * 16 + DigitValue(s[|s| - 1])
  }

  lemma {:induction false} HexRoundTrip(n: nat)
    ensures HexValue(Hex(n)) == n
  {
    var s := Hex(n);
    assert DigitValue(s[|s| - 1]) == n % 16;
    if n < 16 {
      assert s[..|s| - 1] == [];
    } else {
      HexRoundTrip(n / 16);
      assert s[..|s| - 1] == Hex(n / 16);
    }
  }

  function Label(name: string, offset: nat): string {
    if offset == 0 then name else name + "+0x" + Hex(offset)
  }

  /** A label is the name, followed unless the offset is 0 by a plus sign and the offset in
      hexadecimal with its prefix. */
  lemma LabelFormat(name: string, offset: nat)
    ensures offset == 0 ==> Label(name, offset) == name
    ensures offset > 0 ==>
      var text := Label(name, offset);
      |text| > |name| + 3 && text[..|name|] == name && text[|name|..|name| + 3] == "+0x" &&
      HexValue(text[|name| + 3..]) == offset
  {
    if offset > 0 {
      HexRoundTrip(offset);
      var text := name + "+0x" + Hex(offset);
      assert text[|name| + 3..] == Hex(offset);
    }
  }

  /** For a known name, the label tells the offset. */
  lemma LabelTellsOffset(name: string, a: nat, b: nat)
    requires Label(name, a) == Label(name, b)
    ensures a == b
  {
    if a != 0 && b != 0 {
      var prefix := name + "+0x";
      assert Hex(a) == Label(name, a)[|prefix|..] && Hex(b) == Label(name, b)[|prefix|..];
      HexRoundTrip(a);
      HexRoundTrip(b);
    } else {
      assert a != 0 ==> |Label(name, a)| > |name|;
      assert b != 0 ==> |Label(name, b)| > |name|;
    }
  }

  // ---- Lookup ----

  /** The closest symbol at or below the address. */
  ghost predicate IsNearest(symbols: Table, address: nat, at: nat) {
    at in symbols && at <= address && forall other :: other in symbols && other <= address ==> other <= at
  }

  /** The answer for an address: the label of the closest symbol, or none if all lie above. */
  ghost predicate Answers(symbols: Table, address: nat, answer: Option<string>) {
    match answer
    case None => forall at :: at in symbols ==> address < at
    case Some(text) => exists at :: IsNearest(symbols, address, at) && text == Label(symbols[at], address - at)
  }

  /** No iteration order can change the answer. */
  lemma AnswerIsUnique(symbols: Table, address: nat, a: Option<string>, b: Option<string>)
    requires Answers(symbols, address, a) && Answers(symbols, address, b)
    ensures a == b
  {
    if a.Some? && b.Some? {
      var i :| IsNearest(symbols, address, i) && a.value == Label(symbols[i], address - i);
      var j :| IsNearest(symbols, address, j) && b.value == Label(symbols[j], address - j);
      assert i == j;
    }
  }

  class SymbolTable {
    var symbols: Table
    var byName: map<string, nat>

    constructor ()
      ensures symbols == map[] && byName == map[]
    {
      symbols, byName := map[], map[];
    }

    method AddSymbol(address: nat, name: string)
      modifies this
      ensures symbols == old(symbols)[address := name] && byName == old(byName)[name := address]
    {
      symbols := symbols[address := name];
      byName := byName[name := address];
    }

    method ResolveSymbol(address: nat) returns (answer: Option<string>)
      ensures Answers(symbols, address, answer)
    {
      if address in symbols {
        assert IsNearest(symbols, address, address);
        return Some(symbols[address]);
      }
      var closest: Option<nat> := None;
      var todo := symbols.Keys;
      while todo != {}
        invariant todo <= symbols.Keys
        invariant closest.Some? ==> closest.value in symbols && closest.value <= address
        invariant forall at :: at in symbols && at !in todo && at <= address ==> closest.Some? && at <= closest.value
      {
        var at :| at in todo;
        todo := todo - {at};
        if at <= address && (closest.None? || at > closest.value) {
          closest := Some(at);
        }
      }
      if closest.None? {
        return None;
      }
      assert IsNearest(symbols, address, closest.value);
      return Some(Label(symbols[closest.value], address - closest.value));
    }
  }

  // ---- After any additions ----

  datatype Symbol = Symbol(address: nat, name: string)

  function AfterAdds(history: seq<Symbol>): Table {
    if history == [] then map[]
    else AfterAdds(history[..|history| - 1])[history[|history| - 1].address := history[|history| - 1].name]
  }

  /** Addition `i` is the last one for its address. */
  ghost predicate IsCurrent(history: seq<Symbol>, i: nat) {
    i < |history| && forall j :: i < j < |history| ==> history[j].address != history[i].address
  }

  /** The table holds, for each address added, the name given last. */
  lemma {:induction false} TableHoldsCurrent(history: seq<Symbol>, address: nat)
    ensures address in AfterAdds(history) <==> exists i: nat :: IsCurrent(history, i) && history[i].address == address
    ensures forall i: nat :: IsCurrent(history, i) && history[i].address == address ==>
      AfterAdds(history)[address] == history[i].name
  {
    if history != [] {
      var init, last := history[..|history| - 1], |history| - 1;
      TableHoldsCurrent(init, address);
      assert IsCurrent(history, last);
      if history[last].address != address {
        forall i: nat | i < last && history[i].address == address
          ensures IsCurrent(history, i) <==> IsCurrent(init, i)
        {
          assert forall j :: i < j < last ==> history[j] == init[j];
          assert forall j :: i < j < last ==> init[j] == history[j];
        }
      }
    }
  }

  /** Addition `i` decides the answer for an address: no other at or below it is closer, and it
      is the last one for its own address. */
  ghost predicate Decides(history: seq<Symbol>, i: nat, address: nat) {
    && IsCurrent(history, i) && history[i].address <= address
    && forall j :: 0 <= j < |history| && history[j].address <= address ==> history[j].address <= history[i].address
  }

  lemma NearestDecides(history: seq<Symbol>, address: nat, at: nat) returns (i: nat)
    requires IsNearest(AfterAdds(history), address, at)
    ensures Decides(history, i, address) && history[i] == Symbol(at, AfterAdds(history)[at])
  {
    TableHoldsCurrent(history, at);
    i :| IsCurrent(history, i) && history[i].address == at;
    forall j | 0 <= j < |history| && history[j].address <= address
      ensures history[j].address <= at
    {
      AddedIsInTable(history, j);
    }
  }

  /** So after any additions, an answer carries the name given last to the closest address added. */
  lemma AnswerAfterAdds(history: seq<Symbol>, address: nat, text: string)
    requires Answers(AfterAdds(history), address, Some(text))
    ensures exists i: nat ::
      Decides(history, i, address) && text == Label(history[i].name, address - history[i].address)
  {
    var table := AfterAdds(history);
    var at :| IsNearest(table, address, at) && text == Label(table[at], address - at);
    var i := NearestDecides(history, address, at);
  }

  lemma {:induction false} AddedIsInTable(history: seq<Symbol>, j: nat)
    requires j < |history|
    ensures history[j].address in AfterAdds(history)
  {
    if j < |history| - 1 {
      AddedIsInTable(history[..|history| - 1], j);
    }
  }
}
