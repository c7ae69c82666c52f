/** The choice of an architecture in a fat file. */
module Fat {
  import opened Sequences
  import opened ByteSwap
  import opened MachO

  const CPU_TYPE_X86_64: bv32 := 0x0100_0007
  const CPU_TYPE_I386: bv32 := 0x0000_0007
  const MH_MAGIC: bv32 := 0xfeed_face
  const MH_MAGIC_64: bv32 := 0xfeed_facf
  const MH_CIGAM: bv32 := 0xcefa_edfe
  const MH_CIGAM_64: bv32 := 0xcffa_edfe
  const FAT_HEADER_SIZE := 8

  datatype Host = X86_64 | I386 | Other

  function ArchSize(wide: bool): nat { if wide then 32 else 20 }
  function ArchAt(k: nat, wide: bool): nat { FAT_HEADER_SIZE + if wide then k * 32 else k * 20 }

  /** A field of the fat header or table, which `swapped` says is in the other byte order. */
  function Field(image: Image, at: nat, swapped: bool): bv32
    requires at + 4 <= image.size
  {
    if swapped then SwapUint32(image.word(at)) else image.word(at)
  }

  /** A swapped field is the number whose bytes are read backwards. */
  lemma SwappedField(bytes: seq<byte>, at: nat)
    requires at + 4 <= |bytes|
    ensures Field(ImageOf(bytes), at, true) == Word32(Backwards(bytes[at..at + 4]))
  {
    SwapUint32Reverses(bytes[at..at + 4]);
  }

  function HostOf(cpu: bv32): Host
  {
    if cpu == CPU_TYPE_X86_64 then X86_64 else if cpu == CPU_TYPE_I386 then I386 else Other
  }

  /** Where the slice of the entry at `at` starts. */
  function Offset(image: Image, at: nat, swapped: bool, wide: bool): nat
    requires at + ArchSize(wide) <= image.size
  {
    if wide then (if swapped then SwapUint64(image.long(at + 8)) else image.long(at + 8)) as nat
    else Field(image, at + 8, swapped) as nat
  }

  predicate IsMachO(magic: bv32)
  {
    magic == MH_MAGIC || magic == MH_MAGIC_64
  }

  /** A slice of interest lies inside the file and is in the byte order of the machine, or is no Mach-O image at all. */
  predicate ValidArch(image: Image, at: nat, swapped: bool, wide: bool)
  {
    && at + ArchSize(wide) <= image.size
    && (HostOf(Field(image, at, swapped)) != Other ==>
          var offset := Offset(image, at, swapped, wide);
          && offset + 4 <= image.size
          && image.word(offset) != MH_CIGAM && image.word(offset) != MH_CIGAM_64
          && (IsMachO(image.word(offset)) ==> ValidNm(image, offset, image.word(offset) == MH_MAGIC_64)))
  }

  function NfatArch(image: Image, swapped: bool): nat
    requires FAT_HEADER_SIZE <= image.size
  {
    Field(image, 4, swapped) as nat
  }

  predicate ValidFat(image: Image, swapped: bool, wide: bool)
  {
    && FAT_HEADER_SIZE <= image.size
    && forall k :: 0 <= k < NfatArch(image, swapped) ==> ValidArch(image, ArchAt(k, wide), swapped, wide)
  }

  /** The processor of the entry at `at`. */
  function HostAt(image: Image, at: nat, swapped: bool): Host
    requires at + 4 <= image.size
  {
    HostOf(Field(image, at, swapped))
  }

  /** The symbols of the slice that the entry at `at` points to. */
  function SliceSymbols(image: Image, at: nat, swapped: bool, wide: bool): seq<Symbol>
    requires ValidArch(image, at, swapped, wide) && HostAt(image, at, swapped) != Other
  {
    var offset := Offset(image, at, swapped, wide);
    if IsMachO(image.word(offset)) then SymbolsOf(image, offset, image.word(offset) == MH_MAGIC_64) else []
  }

  predicate HasX86(image: Image, swapped: bool, wide: bool)
    requires ValidFat(image, swapped, wide)
  {
    exists k :: 0 <= k < NfatArch(image, swapped) && HostAt(image, ArchAt(k, wide), swapped) == X86_64
  }

  /** x86_64 where the table has it, i386 otherwise. */
  function Preferred(image: Image, swapped: bool, wide: bool): Host
    requires ValidFat(image, swapped, wide)
  {
    if HasX86(image, swapped, wide) then X86_64 else I386
  }

  /** The symbols that entry `k` has to offer: none unless it is of the preferred processor. */
  function Candidate(image: Image, k: nat, swapped: bool, wide: bool): seq<Symbol>
    requires ValidFat(image, swapped, wide) && k < NfatArch(image, swapped)
  {
    if HostAt(image, ArchAt(k, wide), swapped) == Preferred(image, swapped, wide)
    then SliceSymbols(image, ArchAt(k, wide), swapped, wide) else []
  }

  /* ---- the choice said of the words of the file ---- */

  /** The processor word of entry `k`: entries of 20 bytes, or 32 in a 64-bit table, behind a header of 8. */
  function Cpu(image: Image, k: nat, swapped: bool, wide: bool): bv32
  {
    var word := image.word(8 + if wide then k * 32 else k * 20);
    if swapped then SwapUint32(word) else word
  }

  /** The number of entries, in the second word of the file. */
  function Entries(image: Image, swapped: bool): nat
  {
    (if swapped then SwapUint32(image.word(4)) else image.word(4)) as nat
  }

  /** Where the slice of entry `k` starts: the third word of the entry, or the second 64-bit number in a 64-bit table. */
  function SliceAt(image: Image, k: nat, swapped: bool, wide: bool): nat
  {
    if wide then (if swapped then SwapUint64(image.long(8 + k * 32 + 8)) else image.long(8 + k * 32 + 8)) as nat
    else (if swapped then SwapUint32(image.word(8 + k * 20 + 8)) else image.word(8 + k * 20 + 8)) as nat
  }

  /** The processor asked for: x86_64 when some entry is of it, i386 otherwise. */
  ghost function Wanted(image: Image, swapped: bool, wide: bool): bv32
  {
    if exists k :: 0 <= k < Entries(image, swapped) && Cpu(image, k, swapped, wide) == 0x0100_0007 then 0x0100_0007 else 0x0000_0007
  }

  /** `list` is what the slice at `at` has for symbols; one that does not start with a Mach-O magic number has none. */
  ghost predicate SliceLists(image: Image, at: nat, list: seq<Symbol>)
  {
    if image.word(at) == 0xfeed_face then SymbolsLie(image, at, false, list)
    else if image.word(at) == 0xfeed_facf then SymbolsLie(image, at, true, list)
    else list == []
  }

  /** `list` is what entry `k` has to offer. */
  ghost predicate Offers(image: Image, k: nat, swapped: bool, wide: bool, list: seq<Symbol>)
  {
    if Cpu(image, k, swapped, wide) == Wanted(image, swapped, wide) then SliceLists(image, SliceAt(image, k, swapped, wide), list)
    else list == []
  }

  lemma CandidateOffers(image: Image, k: nat, swapped: bool, wide: bool)
    requires ValidFat(image, swapped, wide) && k < NfatArch(image, swapped)
    ensures Offers(image, k, swapped, wide, Candidate(image, k, swapped, wide))
  {
    WantedIsPreferred(image, swapped, wide);
    assert ValidArch(image, ArchAt(k, wide), swapped, wide);
    if HostAt(image, ArchAt(k, wide), swapped) == Preferred(image, swapped, wide) {
      SliceOffers(image, ArchAt(k, wide), swapped, wide);
    }
  }

  lemma SliceOffers(image: Image, at: nat, swapped: bool, wide: bool)
    requires ValidArch(image, at, swapped, wide) && HostAt(image, at, swapped) != Other
    ensures SliceLists(image, Offset(image, at, swapped, wide), SliceSymbols(image, at, swapped, wide))
  {
    var offset := Offset(image, at, swapped, wide);
    if IsMachO(image.word(offset)) {
      SymbolsFound(image, offset, image.word(offset) == MH_MAGIC_64);
    }
  }

  lemma WantedIsPreferred(image: Image, swapped: bool, wide: bool)
    requires ValidFat(image, swapped, wide)
    ensures Wanted(image, swapped, wide) == if Preferred(image, swapped, wide) == X86_64 then 0x0100_0007 else 0x0000_0007
    ensures forall k :: 0 <= k < NfatArch(image, swapped) ==>
      (Cpu(image, k, swapped, wide) == Wanted(image, swapped, wide)
       <==> HostAt(image, ArchAt(k, wide), swapped) == Preferred(image, swapped, wide))
  {
    assert forall k :: 0 <= k < NfatArch(image, swapped) ==>
      ValidArch(image, ArchAt(k, wide), swapped, wide) && HostAt(image, ArchAt(k, wide), swapped) == HostOf(Cpu(image, k, swapped, wide));
  }

  /** The record that `handle_fat` passes on. */
  class TFat {
    var shouldSwap: bool
    var is64: bool
    var found64: bool

    constructor (is64: bool, shouldSwap: bool)
      ensures this.is64 == is64 && this.shouldSwap == shouldSwap && !found64
    {
      this.is64, this.shouldSwap, found64 := is64, shouldSwap, false;
    }
  }

  method IsHostarch(image: Image, at: nat, swapped: bool) returns (r: Host)
    requires at + 4 <= image.size
    ensures r == HostAt(image, at, swapped)
  {
    var cpu := image.word(at);
    if swapped {
      cpu := SwapUint32(cpu);
    }
    if cpu == CPU_TYPE_X86_64 {
      return X86_64;
    }
    if cpu == CPU_TYPE_I386 {
      return I386;
    }
    return Other;
  }

  /** `init_t_fat`: the prescan of the table for an x86_64 entry. */
  method InitTFat(image: Image, wide: bool, swapped: bool) returns (fat: TFat)
    requires ValidFat(image, swapped, wide)
    ensures fresh(fat) && fat.is64 == wide && fat.shouldSwap == swapped
    ensures fat.found64 <==> HasX86(image, swapped, wide)
  {
    fat := new TFat(wide, swapped);
    var nb := NfatArch(image, swapped);
    var i: nat := 0;
    while i < nb
      invariant i <= nb && !fat.found64 && fat.is64 == wide && fat.shouldSwap == swapped
      invariant forall k :: 0 <= k < i ==> HostAt(image, ArchAt(k, wide), swapped) != X86_64
    {
      var host := IsHostarch(image, ArchAt(i, wide), swapped);
      if host == X86_64 {
        fat.found64 := true;
        break;
      }
      i := i + 1;
    }
  }

  /** `handle_each_arch`: the symbols of one entry, or none when its processor is passed over. After the prescan its
      own note of an x86_64 entry changes nothing. */
  method HandleEachArch(image: Image, k: nat, fat: TFat) returns (list: seq<Symbol>)
    requires ValidFat(image, fat.shouldSwap, fat.is64) && k < NfatArch(image, fat.shouldSwap)
    requires fat.found64 <==> HasX86(image, fat.shouldSwap, fat.is64)
    modifies fat`found64
    ensures fat.found64 == old(fat.found64)
    ensures list == Candidate(image, k, fat.shouldSwap, fat.is64)
  {
    var arch := ArchAt(k, fat.is64);
    var host := IsHostarch(image, arch, fat.shouldSwap);
    if host == Other {
      return [];
    }
    if fat.found64 && host == I386 {
      return [];
    }
    var offset := Offset(image, arch, fat.shouldSwap, fat.is64);
    var magic := image.word(offset);
    if magic != MH_CIGAM_64 && magic != MH_CIGAM && magic != MH_MAGIC_64 && magic != MH_MAGIC {
      return [];
    }
    if host == X86_64 {
      fat.found64 := true;
    }
    list := HandleNotFat(image, offset, magic == MH_MAGIC_64);
  }

  /** None of the first `n` entries has anything to offer. */
  ghost predicate NothingOffered(image: Image, swapped: bool, wide: bool, n: nat)
  {
    forall j :: 0 <= j < n ==> Offers(image, j, swapped, wide, [])
  }

  /** `list` is the first list that is not empty among those the entries offer. */
  ghost predicate FirstOffer(image: Image, swapped: bool, wide: bool, list: seq<Symbol>)
  {
    if list == [] then NothingOffered(image, swapped, wide, Entries(image, swapped))
    else exists k :: && 0 <= k < Entries(image, swapped) && Offers(image, k, swapped, wide, list)
                     && NothingOffered(image, swapped, wide, k)
  }

  lemma NoCandidates(image: Image, swapped: bool, wide: bool, n: nat)
    requires ValidFat(image, swapped, wide) && n <= NfatArch(image, swapped)
    requires forall j :: 0 <= j < n ==> Candidate(image, j, swapped, wide) == []
    ensures NothingOffered(image, swapped, wide, n)
  {
    forall j | 0 <= j < n
      ensures Offers(image, j, swapped, wide, [])
    {
      CandidateOffers(image, j, swapped, wide);
    }
  }

  /** `handle_fat`: the symbols of the first entry, in table order, that is of the processor asked for and has any. */
  method HandleFat(image: Image, wide: bool, swapped: bool) returns (list: seq<Symbol>)
    requires ValidFat(image, swapped, wide)
    ensures FirstOffer(image, swapped, wide, list)
  {
    ghost var k;
    list, k := FirstCandidate(image, wide, swapped);
    NoCandidates(image, swapped, wide, k);
    if list != [] {
      CandidateOffers(image, k, swapped, wide);
    }
  }

  /** The loop of `handle_fat`; it ends at entry `k`. */
  method FirstCandidate(image: Image, wide: bool, swapped: bool) returns (list: seq<Symbol>, ghost k: nat)
    requires ValidFat(image, swapped, wide)
    ensures k <= NfatArch(image, swapped) && forall j :: 0 <= j < k ==> Candidate(image, j, swapped, wide) == []
    ensures if list == [] then k == NfatArch(image, swapped)
            else k < NfatArch(image, swapped) && list == Candidate(image, k, swapped, wide)
  {
    var nb := NfatArch(image, swapped);
    list := [];
    var i: nat := 0;
    k := 0;
    var fat := InitTFat(image, wide, swapped);
    while i < nb
      invariant i <= nb && k == i && list == [] && fat.is64 == wide && fat.shouldSwap == swapped
      invariant fat.found64 <==> HasX86(image, swapped, wide)
      invariant forall j :: 0 <= j < i ==> Candidate(image, j, swapped, wide) == []
    {
      list := HandleEachArch(image, i, fat);
      if list != [] {
        return list, i;
      }
      i := i + 1;
      k := i;
    }
  }
}
