/** From a valid image to the list that nm prints: entries read, linked and sorted. */
module SymbolListing {
  import opened ByteSwap
  import opened CText
  import MachO
  import opened SymbolList
  import opened SymbolOrder
  import opened SymbolSort

  /** The data of the node made from an entry of the symbol table: its address and its name are read where they stand in
      the file. `letters` gives the symbol letter of the entry whose address stands at an offset. */
  function ReadEntry(image: MachO.Image, e: MachO.Symbol, letters: nat -> char): Symbol
  {
    Symbol(e.is64, letters(e.add), if e.is64 then image.long(e.add) as nat else image.word(e.add) as nat, image.text(e.name))
  }

  /** An entry of a 64-bit table that is written out in a file, with its name in the string table, reads back: `index` is
      the place of the name behind `strings`. */
  lemma Entry64ReadsBack(bytes: seq<byte>, at: nat, strings: nat, index: bv32, value: bv64, name: CString,
                         letters: nat -> char)
    requires at + 16 <= |bytes| && bytes[at..at + 4] == MachO.BytesOfWord(index) && bytes[at + 8..at + 16] == MachO.BytesOfLong(value)
    requires MachO.TextStands(bytes, strings + index as nat, name)
    ensures var image := MachO.ImageOf(bytes);
            ReadEntry(image, MachO.Symbol(true, at + 8, strings + MachO.Raw(image, at)), letters)
            == Symbol(true, letters(at + 8), value as nat, name)
  {
    MachO.WordReadsBack(bytes, at, index);
    MachO.LongReadsBack(bytes, at + 8, value);
    MachO.TextReadsBack(bytes, strings + index as nat, name);
  }

  /** The same for a 32-bit table. */
  lemma Entry32ReadsBack(bytes: seq<byte>, at: nat, strings: nat, index: bv32, value: bv32, name: CString,
                         letters: nat -> char)
    requires at + 12 <= |bytes| && bytes[at..at + 4] == MachO.BytesOfWord(index) && bytes[at + 8..at + 12] == MachO.BytesOfWord(value)
    requires MachO.TextStands(bytes, strings + index as nat, name)
    ensures var image := MachO.ImageOf(bytes);
            ReadEntry(image, MachO.Symbol(false, at + 8, strings + MachO.Raw(image, at)), letters)
            == Symbol(false, letters(at + 8), value as nat, name)
  {
    MachO.WordReadsBack(bytes, at, index);
    MachO.WordReadsBack(bytes, at + 8, value);
    MachO.TextReadsBack(bytes, strings + index as nat, name);
  }

  function Listed(image: MachO.Image, entries: seq<MachO.Symbol>, letters: nat -> char): (r: seq<Symbol>)
    ensures |r| == |entries|
  {
    seq(|entries|, i requires 0 <= i < |entries| => ReadEntry(image, entries[i], letters))
  }

  /** The linked list of `entries`, each node put behind the last one. */
  method LinkEntries(image: MachO.Image, entries: seq<MachO.Symbol>, letters: nat -> char)
    returns (list: NmNode?, ghost spine: seq<NmNode>)
    ensures IsList(list, spine) && forall k :: 0 <= k < |spine| ==> fresh(spine[k])
    ensures Payloads(spine) == Listed(image, entries, letters)
  {
    list, spine := LinkAll(Listed(image, entries, letters));
  }

  /** `sort_nm_list`: 'p' leaves the list in table order, 'r' turns the order of the sort. */
  method SortNmList(list: NmNode?, flags: string, ghost spine: seq<NmNode>)
    requires IsList(list, spine)
    modifies spine`is64, spine`typ, spine`add, spine`name
    ensures IsList(list, spine)
    ensures Payloads(spine) == if 'p' in flags then old(Payloads(spine)) else Sort(old(Payloads(spine)), 'r' in flags)
  {
    if 'p' !in flags {
      SortListByName(list, 'r' in flags, spine);
    }
  }

  /** The list that nm prints for an image with the symbol table `found`: one node for every entry of its symbol table, and by name unless 'p' is given. */
  method Nm(image: MachO.Image, base: nat, is64: bool, letters: nat -> char, flags: string)
    returns (list: NmNode?, ghost spine: seq<NmNode>, ghost found: seq<MachO.Symbol>)
    requires MachO.ValidNm(image, base, is64)
    ensures IsList(list, spine) && MachO.SymbolsLie(image, base, is64, found)
    ensures var table := Listed(image, found, letters);
            && multiset(Payloads(spine)) == multiset(table)
            && ('p' in flags ==> Payloads(spine) == table)
            && ('p' !in flags ==> if 'r' in flags then NamesDownwards(Payloads(spine)) else NamesUpwards(Payloads(spine)))
  {
    var entries := MachO.HandleNotFat(image, base, is64);
    found := entries;
    list, spine := LinkEntries(image, entries, letters);
    ghost var table := Payloads(spine);
    SortNmList(list, flags, spine);
    SortConserves(table, 'r' in flags);
    NamesSorted(table);
  }
}
