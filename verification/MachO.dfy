/** The walk over a Mach-O image: sections by ordinal across segments, and the symbol table. Offsets count from the
    start of the mapped file; `base` is where the Mach-O header stands. Constants are those of the Mach-O headers. */
module MachO {
  import opened ByteSwap
  import opened CText

  const LC_SEGMENT: bv32 := 0x1
  const LC_SYMTAB: bv32 := 0x2
  const LC_SEGMENT_64: bv32 := 0x19

  function HeaderSize(is64: bool): nat { if is64 then 32 else 28 }
  function SegmentSize(is64: bool): nat { if is64 then 72 else 56 }
  function SectionSize(is64: bool): nat { if is64 then 80 else 68 }
  function NsectsAt(is64: bool): nat { if is64 then 64 else 48 }
  function NlistSize(is64: bool): nat { if is64 then 16 else 12 }
  const SYMTAB_SIZE := 24

  /** The bytes that `count` section descriptions take. */
  function SectionBytes(count: nat, is64: bool): nat { if is64 then count * 80 else count * 68 }

  /** A mapped file: its size, and at each offset the 32-bit and 64-bit numbers in the byte order of the machine and
      the NUL-terminated text. */
  datatype Image = Image(size: nat, word: nat -> bv32, long: nat -> bv64, text: nat -> CString)

  /** The mapping of a file that consists of `bytes`. */
  function ImageOf(bytes: seq<byte>): Image
  {
    Image(|bytes|,
          (at: nat) => if at + 4 <= |bytes| then Word32(bytes[at..at + 4]) else 0,
          (at: nat) => if at + 8 <= |bytes| then Word64(bytes[at..at + 8]) else 0,
          (at: nat) => TextAt(bytes, at))
  }

  /** The text that starts at `at`, up to a NUL byte or the end of the file. */
  function TextAt(bytes: seq<byte>, at: nat): CString
    decreases |bytes| - at
  {
    if at >= |bytes| || bytes[at] == 0 then "" else [(bytes[at] as int) as char] + TextAt(bytes, at + 1)
  }

  /* ---- numbers and texts written out as bytes ---- */

  function BytesOfWord(n: bv32): (r: seq<byte>)
    ensures |r| == 4
  {
    [(n & 0xFF) as byte, ((n >> 8) & 0xFF) as byte, ((n >> 16) & 0xFF) as byte, ((n >> 24) & 0xFF) as byte]
  }

  function BytesOfLong(n: bv64): (r: seq<byte>)
    ensures |r| == 8
  {
    [(n & 0xFF) as byte, ((n >> 8) & 0xFF) as byte, ((n >> 16) & 0xFF) as byte, ((n >> 24) & 0xFF) as byte,
     ((n >> 32) & 0xFF) as byte, ((n >> 40) & 0xFF) as byte, ((n >> 48) & 0xFF) as byte, ((n >> 56) & 0xFF) as byte]
  }

  lemma WordOfItsBytes(n: bv32)
    ensures Word32(BytesOfWord(n)) == n
  {
  }

  lemma LongOfItsBytes(n: bv64)
    ensures Word64(BytesOfLong(n)) == n
  {
  }

  lemma WordReadsBack(bytes: seq<byte>, at: nat, n: bv32)
    requires at + 4 <= |bytes| && bytes[at..at + 4] == BytesOfWord(n)
    ensures ImageOf(bytes).word(at) == n
  {
    WordOfItsBytes(n);
  }

  lemma LongReadsBack(bytes: seq<byte>, at: nat, n: bv64)
    requires at + 8 <= |bytes| && bytes[at..at + 8] == BytesOfLong(n)
    ensures ImageOf(bytes).long(at) == n
  {
    LongOfItsBytes(n);
  }

  /** A text stands at `at`, its characters and then a NUL byte. */
  ghost predicate TextStands(bytes: seq<byte>, at: nat, t: CString)
  {
    at + |t| < |bytes| && bytes[at + |t|] == 0 && forall i :: at <= i < at + |t| ==> bytes[i] as int == t[i - at] as int
  }

  lemma {:induction false} TextReadsBack(bytes: seq<byte>, at: nat, t: CString)
    requires TextStands(bytes, at, t)
    ensures TextAt(bytes, at) == t
    decreases |t|
  {
    if t != "" {
      TextReadsBack(bytes, at + 1, t[1..]);
    }
  }

  function Field32(image: Image, at: nat): bv32
    requires at + 4 <= image.size
  {
    image.word(at)
  }

  function Number(image: Image, at: nat): nat
    requires at + 4 <= image.size
  {
    Field32(image, at) as nat
  }

  /* ---- load commands ---- */

  predicate IsSegment(image: Image, at: nat)
    requires at + 4 <= image.size
  {
    Field32(image, at) == LC_SEGMENT || Field32(image, at) == LC_SEGMENT_64
  }

  /** A load command lies inside the image, and a segment command has room for the sections it announces. */
  predicate ValidCommand(image: Image, at: nat, is64: bool)
  {
    && at + 8 <= image.size
    && Number(image, at + 4) >= 8 && at + Number(image, at + 4) <= image.size
    && (IsSegment(image, at) ==>
          && Number(image, at + 4) >= SegmentSize(is64)
          && Number(image, at + 4) >= SegmentSize(is64) + SectionBytes(Number(image, at + NsectsAt(is64)), is64))
  }

  predicate ValidCommands(image: Image, at: nat, n: nat, is64: bool)
    decreases n
  {
    n > 0 ==> ValidCommand(image, at, is64) && ValidCommands(image, at + Number(image, at + 4), n - 1, is64)
  }

  /** The image at `base`: a header, then load commands that all fit. The size of a mapping is a 32-bit number. */
  predicate ValidImage(image: Image, base: nat, is64: bool)
  {
    && image.size < 0x1_0000_0000 && base + HeaderSize(is64) <= image.size
    && ValidCommands(image, base + HeaderSize(is64), Number(image, base + 16), is64)
  }

  /* ---- the commands by number, read at plain offsets ---- */

  function Raw(image: Image, at: nat): nat
  {
    image.word(at) as nat
  }

  /** Where the `j`-th command stands when the first one is at `at`: each tells its size in its second word. */
  function CommandAt(image: Image, at: nat, j: nat): nat
    decreases j
  {
    if j == 0 then at else CommandAt(image, at + Raw(image, at + 4), j - 1)
  }

  /** Where the commands of the image at `base` start. */
  function CommandsAt(base: nat, is64: bool): nat
  {
    base + if is64 then 32 else 28
  }

  /** Command `j` is the first to start with the word `word`. */
  ghost predicate FirstWith(image: Image, at: nat, j: nat, word: bv32)
  {
    && image.word(CommandAt(image, at, j)) == word
    && forall i :: 0 <= i < j ==> image.word(CommandAt(image, at, i)) != word
  }

  /** The sections that command `at` describes: a segment, of either kind, tells their number. */
  function SectionCount(image: Image, at: nat, is64: bool): nat
  {
    if image.word(at) == 0x1 || image.word(at) == 0x19 then Raw(image, at + if is64 then 64 else 48) else 0
  }

  /** How many sections the first `j` commands describe. */
  function CountBefore(image: Image, at: nat, is64: bool, j: nat): nat
    decreases j
  {
    if j == 0 then 0 else SectionCount(image, at, is64) + CountBefore(image, at + Raw(image, at + 4), is64, j - 1)
  }

  /** `all` has the sections of the `n` commands one after the other, and those of a command where they stand behind it. */
  ghost predicate SectionsLie(image: Image, at: nat, is64: bool, n: nat, all: seq<nat>)
  {
    && |all| == CountBefore(image, at, is64, n)
    && forall j: nat, r: nat :: j < n && r < SectionCount(image, CommandAt(image, at, j), is64) ==>
         SectionLies(image, at, is64, all, j, r)
  }

  ghost predicate SectionLies(image: Image, at: nat, is64: bool, all: seq<nat>, j: nat, r: nat)
  {
    && CountBefore(image, at, is64, j) + r < |all|
    && all[CountBefore(image, at, is64, j) + r]
       == CommandAt(image, at, j) + if is64 then 72 + r * 80 else 56 + r * 68
  }

  /* ---- sections ---- */

  /** Where the sections of a segment command at `at` are described. */
  function SegmentSections(at: nat, count: nat, is64: bool): (r: seq<nat>)
    ensures |r| == count
  {
    seq(count, (j: nat) => at + SegmentSize(is64) + SectionBytes(j, is64))
  }

  function SectionsOf(image: Image, at: nat, is64: bool): seq<nat>
    requires ValidCommand(image, at, is64)
  {
    if IsSegment(image, at) then SegmentSections(at, Number(image, at + NsectsAt(is64)), is64) else []
  }

  /** The section descriptions of all segments, one list after the other: the flat table that ordinals count in. */
  function Sections(image: Image, at: nat, n: nat, is64: bool): seq<nat>
    requires ValidCommands(image, at, n, is64)
    decreases n
  {
    if n == 0 then []
    else SectionsOf(image, at, is64) + Sections(image, at + Number(image, at + 4), n - 1, is64)
  }

  function AllSections(image: Image, base: nat, is64: bool): seq<nat>
    requires ValidImage(image, base, is64)
  {
    Sections(image, base + HeaderSize(is64), Number(image, base + 16), is64)
  }

  /** Section descriptions lie in order, apart from each other, and inside the file. */
  ghost predicate Apart(sections: seq<nat>, from: nat, to: nat, is64: bool)
  {
    && (forall k :: 0 <= k < |sections| ==> from <= sections[k] && sections[k] + SectionSize(is64) <= to)
    && (forall k, l :: 0 <= k < l < |sections| ==> sections[k] + SectionSize(is64) <= sections[l])
    && SectionBytes(|sections|, is64) <= to - from
  }

  lemma SegmentApart(at: nat, count: nat, is64: bool)
    ensures Apart(SegmentSections(at, count, is64), at + SegmentSize(is64), at + SegmentSize(is64) + SectionBytes(count, is64), is64)
  {
  }

  lemma ApartAppend(a: seq<nat>, b: seq<nat>, from: nat, mid: nat, to: nat, is64: bool)
    requires from <= mid <= to && Apart(a, from, mid, is64) && Apart(b, mid, to, is64)
    ensures Apart(a + b, from, to, is64)
  {
  }

  lemma ApartWithin(a: seq<nat>, from: nat, to: nat, from': nat, to': nat, is64: bool)
    requires Apart(a, from, to, is64) && from' <= from <= to <= to'
    ensures Apart(a, from', to', is64)
  {
  }

  lemma CommandApart(image: Image, at: nat, is64: bool)
    requires ValidCommand(image, at, is64)
    ensures Apart(SectionsOf(image, at, is64), at, at + Number(image, at + 4), is64)
  {
    if IsSegment(image, at) {
      var count := Number(image, at + NsectsAt(is64));
      SegmentApart(at, count, is64);
      ApartWithin(SegmentSections(at, count, is64), at + SegmentSize(is64),
                  at + SegmentSize(is64) + SectionBytes(count, is64), at, at + Number(image, at + 4), is64);
    }
  }

  lemma {:induction false} SectionsApart(image: Image, at: nat, n: nat, is64: bool)
    requires ValidCommands(image, at, n, is64) && at <= image.size
    ensures Apart(Sections(image, at, n, is64), at, image.size, is64)
    decreases n
  {
    if n > 0 {
      var next := at + Number(image, at + 4);
      SectionsApart(image, next, n - 1, is64);
      CommandApart(image, at, is64);
      ApartAppend(SectionsOf(image, at, is64), Sections(image, next, n - 1, is64), at, next, image.size, is64);
    }
  }

  lemma {:induction false} FlatSectionsLie(image: Image, at: nat, n: nat, is64: bool)
    requires ValidCommands(image, at, n, is64)
    ensures SectionsLie(image, at, is64, n, Sections(image, at, n, is64))
    decreases n
  {
    if n > 0 {
      var next := at + Raw(image, at + 4);
      var here, rest := SectionsOf(image, at, is64), Sections(image, next, n - 1, is64);
      FlatSectionsLie(image, next, n - 1, is64);
      SectionsHere(image, at, is64, here);
      forall j: nat, r: nat | j < n && r < SectionCount(image, CommandAt(image, at, j), is64)
        ensures SectionLies(image, at, is64, here + rest, j, r)
      {
        if j > 0 {
          assert SectionLies(image, next, is64, rest, j - 1, r);
          SectionLiesFurther(image, at, is64, here, rest, j, r, next, CountBefore(image, next, is64, j - 1));
        }
      }
    }
  }

  lemma SectionLiesFurther(image: Image, at: nat, is64: bool, here: seq<nat>, rest: seq<nat>, j: nat, r: nat, next: nat, before: nat)
    requires j > 0 && next == at + Raw(image, at + 4) && |here| == SectionCount(image, at, is64)
    requires before == CountBefore(image, next, is64, j - 1) && SectionLies(image, next, is64, rest, j - 1, r)
    ensures SectionLies(image, at, is64, here + rest, j, r)
  {
    assert (here + rest)[|here| + before + r] == rest[before + r];
  }

  lemma SectionsHere(image: Image, at: nat, is64: bool, here: seq<nat>)
    requires ValidCommand(image, at, is64) && here == SectionsOf(image, at, is64)
    ensures |here| == SectionCount(image, at, is64)
    ensures forall r :: 0 <= r < |here| ==> here[r] == at + if is64 then 72 + r * 80 else 56 + r * 68
  {
  }

  /** The flat table, said of the bytes of the file: the sections of all segment commands, in the order of the commands. */
  lemma AllSectionsLie(image: Image, base: nat, is64: bool)
    requires ValidImage(image, base, is64)
    ensures SectionsLie(image, CommandsAt(base, is64), is64, Raw(image, base + 16), AllSections(image, base, is64))
  {
    FlatSectionsLie(image, CommandsAt(base, is64), Raw(image, base + 16), is64);
  }

  /** Command `j` starts with the word of a segment of either kind. */
  predicate SegmentAt(image: Image, at: nat, j: nat)
  {
    var word := image.word(CommandAt(image, at, j));
    word == 0x1 || word == 0x19
  }

  lemma {:induction false} FirstSegmentAt(image: Image, at: nat, n: nat, is64: bool) returns (j: nat)
    requires ValidCommands(image, at, n, is64)
    ensures j <= n && forall i :: 0 <= i < j ==> !SegmentAt(image, at, i)
    ensures (HasSegment(image, at, n, is64) <==> j < n) && (j < n ==> SegmentAt(image, at, j))
    decreases n
  {
    if n == 0 || IsSegment(image, at) {
      j := 0;
    } else {
      var next := at + Raw(image, at + 4);
      var k := FirstSegmentAt(image, next, n - 1, is64);
      j := k + 1;
      forall i | 0 <= i < j
        ensures !SegmentAt(image, at, i)
      {
        assert i > 0 ==> CommandAt(image, at, i) == CommandAt(image, next, i - 1) && !SegmentAt(image, next, i - 1);
      }
    }
  }

  /** There is a segment just when some command starts with the word of one. */
  lemma HasSegmentMeans(image: Image, at: nat, n: nat, is64: bool)
    requires ValidCommands(image, at, n, is64)
    ensures HasSegment(image, at, n, is64) <==> exists j: nat :: j < n && SegmentAt(image, at, j)
  {
    var j := FirstSegmentAt(image, at, n, is64);
  }

  /** Different ordinals name sections that share no byte, all of them inside the file. */
  lemma OrdinalsApart(image: Image, base: nat, is64: bool, k: nat, l: nat)
    requires ValidImage(image, base, is64) && k < l < |AllSections(image, base, is64)|
    ensures var s := AllSections(image, base, is64);
            base + HeaderSize(is64) <= s[k] && s[k] + SectionSize(is64) <= s[l] && s[l] + SectionSize(is64) <= image.size
  {
    SectionsApart(image, base + HeaderSize(is64), Number(image, base + 16), is64);
  }

  /** A pointer into the mapped image, by its distance from the start. */
  datatype Pointer = NullPointer | At(offset: nat)

  lemma SectionCountFits(image: Image, base: nat, is64: bool)
    requires ValidImage(image, base, is64)
    ensures SectionBytes(|AllSections(image, base, is64)|, is64) <= image.size < 0x1_0000_0000
  {
    SectionsApart(image, base + HeaderSize(is64), Number(image, base + 16), is64);
  }

  /** The walk stands at the command `lc` with `left` commands to come and `count` sections behind it. */
  ghost predicate Walking(image: Image, base: nat, is64: bool, lc: nat, left: nat, count: nat)
    requires ValidImage(image, base, is64)
  {
    var all := AllSections(image, base, is64);
    && base + HeaderSize(is64) <= lc <= image.size && ValidCommands(image, lc, left, is64)
    && count <= |all| && all[count..] == Sections(image, lc, left, is64)
  }

  lemma WalkOn(image: Image, base: nat, is64: bool, lc: nat, left: nat, count: nat, next: nat, left': nat, count': nat)
    requires ValidImage(image, base, is64) && Walking(image, base, is64, lc, left, count) && left > 0
    requires next == lc + Number(image, lc + 4) && left' == left - 1 && count' == count + |SectionsOf(image, lc, is64)|
    ensures Walking(image, base, is64, next, left', count')
  {
    NextSections(AllSections(image, base, is64), count, SectionsOf(image, lc, is64), Sections(image, next, left', is64));
  }

  /** The sections of the command the walk stands at are the next ones of the flat table. */
  lemma WalkHere(image: Image, base: nat, is64: bool, lc: nat, left: nat, count: nat, all: seq<nat>)
    requires ValidImage(image, base, is64) && Walking(image, base, is64, lc, left, count) && left > 0
    requires all == AllSections(image, base, is64)
    ensures ValidCommand(image, lc, is64) && lc >= HeaderSize(is64)
    ensures count + |SectionsOf(image, lc, is64)| <= |all|
    ensures forall j :: 0 <= j < |SectionsOf(image, lc, is64)| ==> all[count + j] == SectionsOf(image, lc, is64)[j]
  {
    NextSections(all, count, SectionsOf(image, lc, is64), Sections(image, lc + Number(image, lc + 4), left - 1, is64));
  }

  /** The address arithmetic of `get_section` for a segment with `add` sections, in 32-bit unsigned numbers. */
  method SectionAddress(lc: nat, is64: bool, i: nat, count: nat, add: nat, ghost size: nat) returns (hit: bool, at: nat)
    requires i < 256 && SectionBytes(count + add, is64) <= size < 0x1_0000_0000 && 28 <= lc
    requires is64 ==> 32 <= lc
    requires count < i || (count == 0 && i == 0)
    ensures hit <==> i <= count + add
    ensures hit && i >= 1 ==> at == lc + SegmentSize(is64) + SectionBytes(i - count - 1, is64)
    ensures hit && i == 0 ==> at >= size
  {
    hit := (count + add) % 0x1_0000_0000 >= i;
    var into := (i - count - 1) % 0x1_0000_0000;
    at := lc + SegmentSize(is64) + SectionBytes(into, is64) % 0x1_0000_0000;
  }

  /** Some of the `n` commands from `at` on is a segment. */
  predicate HasSegment(image: Image, at: nat, n: nat, is64: bool)
    requires ValidCommands(image, at, n, is64)
    decreases n
  {
    n > 0 && (IsSegment(image, at) || HasSegment(image, at + Number(image, at + 4), n - 1, is64))
  }

  /** What `get_section` answers: entry `i - 1` of the flat table, or nothing beyond its end. The ordinal 0, which
      means "no section", is taken for a place outside the file when there is a segment to take it from. */
  ghost predicate IsSectionOf(r: Pointer, image: Image, all: seq<nat>, i: nat)
  {
    if i == 0 then r.At? ==> r.offset >= image.size
    else r == if i <= |all| then At(all[i - 1]) else NullPointer
  }

  /** The segment command at `lc`: it holds the section of ordinal `i`, or `i` lies further on. */
  method VisitSegment(image: Image, ghost all: seq<nat>, is64: bool, i: nat, lc: nat, count: nat) returns (r: Pointer, count': nat)
    requires ValidCommand(image, lc, is64) && IsSegment(image, lc) && i < 256
    requires image.size < 0x1_0000_0000 && lc >= HeaderSize(is64) && SectionBytes(|all|, is64) <= image.size
    requires count + |SectionsOf(image, lc, is64)| <= |all| && (count < i || (count == 0 && i == 0))
    requires forall j :: 0 <= j < |SectionsOf(image, lc, is64)| ==> all[count + j] == SectionsOf(image, lc, is64)[j]
    ensures r.At? ==> IsSectionOf(r, image, all, i)
    ensures r.NullPointer? ==> count' < i
    ensures i == 0 ==> r.At?
    ensures count' == count + |SectionsOf(image, lc, is64)|
  {
    var add := Number(image, lc + NsectsAt(is64));
    SectionBytesMonotone(count + add, |all|, is64);
    var hit, at := SectionAddress(lc, is64, i, count, add, image.size);
    assert hit && i >= 1 ==> all[count + (i - count - 1)] == SectionsOf(image, lc, is64)[i - count - 1];
    r := if hit then At(at) else NullPointer;
    count' := count + add;
  }

  /** One round of the loop of `get_section`: an answer, or one command more behind the walk. */
  method VisitCommand(image: Image, base: nat, is64: bool, i: nat, lc: nat, ghost left: nat, count: nat)
    returns (r: Pointer, next: nat, ghost left': nat, count': nat)
    requires ValidImage(image, base, is64) && i < 256 && left > 0
    requires Walking(image, base, is64, lc, left, count) && (count < i || (count == 0 && i == 0))
    ensures r.At? ==> IsSectionOf(r, image, AllSections(image, base, is64), i)
    ensures r.NullPointer? ==> count' < i || (count' == 0 && i == 0)
    ensures left' == left - 1 && Walking(image, base, is64, next, left', count')
    ensures i == 0 ==> (r.At? || HasSegment(image, next, left', is64) <==> HasSegment(image, lc, left, is64))
  {
    ghost var all := AllSections(image, base, is64);
    SectionCountFits(image, base, is64);
    WalkHere(image, base, is64, lc, left, count, all);
    r, count' := NullPointer, count;
    next, left' := lc + Number(image, lc + 4), left - 1;
    if Field32(image, lc) == LC_SEGMENT || Field32(image, lc) == LC_SEGMENT_64 {
      r, count' := VisitSegment(image, all, is64, i, lc, count);
    }
    WalkOn(image, base, is64, lc, left, count, next, left', count');
  }

  /** `get_section`, on an image whose commands all fit, where its range checks find nothing to object to. */
  method GetSection(image: Image, base: nat, is64: bool, i: nat) returns (r: Pointer)
    requires ValidImage(image, base, is64) && i < 256
    ensures IsSectionOf(r, image, AllSections(image, base, is64), i)
    ensures i == 0 ==> (r.At? <==> HasSegment(image, base + HeaderSize(is64), Number(image, base + 16), is64))
  {
    var number := Number(image, base + 16);
    var k, lc: nat, count: nat := 0, base + HeaderSize(is64), 0;
    ghost var left: nat := number;
    while k < number && lc <= image.size
      invariant k + left == number && Walking(image, base, is64, lc, left, count)
      invariant count < i || (count == 0 && i == 0)
      invariant i == 0 ==> (HasSegment(image, lc, left, is64)
                            <==> HasSegment(image, base + HeaderSize(is64), Number(image, base + 16), is64))
      decreases left
    {
      r, lc, left, count := VisitCommand(image, base, is64, i, lc, left, count);
      if r.At? {
        return r;
      }
      k := k + 1;
    }
    return NullPointer;
  }

  /** The table goes on with the sections of one more command. */
  lemma NextSections(all: seq<nat>, count: nat, here: seq<nat>, rest: seq<nat>)
    requires count <= |all| && all[count..] == here + rest
    ensures count + |here| <= |all| && all[count + |here|..] == rest
    ensures forall j :: 0 <= j < |here| ==> all[count + j] == here[j]
  {
    assert all[count..][|here|..] == all[count + |here|..];
    assert forall j :: 0 <= j < |here| ==> all[count..][j] == all[count + j];
  }

  lemma SectionBytesMonotone(m: nat, n: nat, is64: bool)
    ensures m <= n ==> SectionBytes(m, is64) <= SectionBytes(n, is64)
    ensures m * SectionSize(is64) == SectionBytes(m, is64)
  {
  }

  /* ---- the symbol table ---- */

  /** An entry of the list that `list_symtab` builds: where its address field and its name stand in the file. */
  datatype Symbol = Symbol(is64: bool, add: nat, name: nat)

  function NlistBytes(count: nat, is64: bool): nat { if is64 then count * 16 else count * 12 }

  /** The `k`-th entry of the symbol table that the command at `lc` describes. */
  function NlistAt(image: Image, base: nat, lc: nat, k: nat, is64: bool): nat
    requires lc + SYMTAB_SIZE <= image.size
  {
    base + Number(image, lc + 8) + NlistBytes(k, is64)
  }

  /** Table and names lie inside the file; a name index is not negative as an `int`. */
  predicate ValidSymtab(image: Image, base: nat, lc: nat, is64: bool)
  {
    && lc + SYMTAB_SIZE <= image.size
    && base + Number(image, lc + 16) <= image.size
    && forall k :: 0 <= k < Number(image, lc + 12) ==>
         var n := NlistAt(image, base, lc, k, is64);
         && n + NlistSize(is64) <= image.size
         && Number(image, n) < 0x8000_0000 && base + Number(image, lc + 16) + Number(image, n) <= image.size
  }

  function EntryAt(image: Image, base: nat, lc: nat, k: nat, is64: bool): Symbol
    requires ValidSymtab(image, base, lc, is64) && k < Number(image, lc + 12)
  {
    var n := NlistAt(image, base, lc, k, is64);
    Symbol(is64, n + 8, base + Number(image, lc + 16) + Number(image, n))
  }

  /** The whole table, in table order. */
  function Table(image: Image, base: nat, lc: nat, is64: bool): (r: seq<Symbol>)
    requires ValidSymtab(image, base, lc, is64)
    ensures |r| == Number(image, lc + 12)
  {
    seq(Number(image, lc + 12), k requires 0 <= k < Number(image, lc + 12) => EntryAt(image, base, lc, k, is64))
  }

  predicate IsSymtab(image: Image, at: nat)
    requires at + 4 <= image.size
  {
    Field32(image, at) == LC_SYMTAB
  }

  /** The first LC_SYMTAB among the `n` commands from `at` on. */
  function FirstSymtab(image: Image, at: nat, n: nat, is64: bool): (r: Pointer)
    requires ValidCommands(image, at, n, is64)
    ensures r.At? ==> r.offset + 4 <= image.size && IsSymtab(image, r.offset)
    decreases n
  {
    if n == 0 then NullPointer else if IsSymtab(image, at) then At(at)
    else FirstSymtab(image, at + Number(image, at + 4), n - 1, is64)
  }

  /** The symbol table command that `get_nm_list` stops at. */
  function SymtabOf(image: Image, base: nat, is64: bool): Pointer
    requires ValidImage(image, base, is64)
  {
    FirstSymtab(image, base + HeaderSize(is64), Number(image, base + 16), is64)
  }

  predicate ValidNm(image: Image, base: nat, is64: bool)
  {
    ValidImage(image, base, is64)
    && var lc := SymtabOf(image, base, is64); lc.At? ==> ValidSymtab(image, base, lc.offset, is64)
  }

  /** The table of the first LC_SYMTAB; no symbols when there is none. */
  function SymbolsOf(image: Image, base: nat, is64: bool): seq<Symbol>
    requires ValidNm(image, base, is64)
  {
    var lc := SymtabOf(image, base, is64);
    if lc.At? then Table(image, base, lc.offset, is64) else []
  }

  /** `list_symtab`: one entry after the other, each appended at the tail of the list. */
  method ListSymtab(image: Image, base: nat, lc: nat, is64: bool) returns (list: seq<Symbol>)
    requires ValidSymtab(image, base, lc, is64)
    ensures list == Table(image, base, lc, is64)
  {
    list := [];
    var i: nat := 0;
    var stringTable := base + Number(image, lc + 16);
    var nsyms := Number(image, lc + 12);
    while i < nsyms
      invariant i <= nsyms && list == Table(image, base, lc, is64)[..i]
    {
      var nlist := NlistAt(image, base, lc, i, is64);
      var add := Symbol(is64, nlist + 8, stringTable + Number(image, nlist));
      list := list + [add];
      i := i + 1;
    }
  }

  /** The first LC_SYMTAB is the first command that starts with the word 2, and there is none just when no command does. */
  lemma {:induction false} FirstSymtabAt(image: Image, at: nat, n: nat, is64: bool) returns (j: nat)
    requires ValidCommands(image, at, n, is64)
    ensures j <= n && forall i :: 0 <= i < j ==> image.word(CommandAt(image, at, i)) != 0x2
    ensures FirstSymtab(image, at, n, is64) == if j == n then NullPointer else At(CommandAt(image, at, j))
    ensures j < n ==> image.word(CommandAt(image, at, j)) == 0x2
    decreases n
  {
    if n == 0 || IsSymtab(image, at) {
      j := 0;
    } else {
      var next := at + Raw(image, at + 4);
      var k := FirstSymtabAt(image, next, n - 1, is64);
      j := k + 1;
      forall i | 0 <= i < j
        ensures image.word(CommandAt(image, at, i)) != 0x2
      {
        assert i > 0 ==> CommandAt(image, at, i) == CommandAt(image, next, i - 1);
      }
    }
  }

  /** `list` is the table that the command at `lc` describes, read at plain offsets. */
  ghost predicate ListsTable(image: Image, base: nat, lc: nat, is64: bool, list: seq<Symbol>)
  {
    && |list| == Raw(image, lc + 12)
    && forall k :: 0 <= k < |list| ==>
         var at := base + Raw(image, lc + 8) + if is64 then k * 16 else k * 12;
         list[k] == Symbol(is64, at + 8, base + Raw(image, lc + 16) + Raw(image, at))
  }

  /** `list` is what the image at `base` has for symbols: the table of the first command that starts with the word 2. */
  ghost predicate SymbolsLie(image: Image, base: nat, is64: bool, list: seq<Symbol>)
  {
    var at, n := CommandsAt(base, is64), Raw(image, base + 16);
    if forall j :: 0 <= j < n ==> image.word(CommandAt(image, at, j)) != 0x2 then list == []
    else exists j :: 0 <= j < n && FirstWith(image, at, j, 0x2) && ListsTable(image, base, CommandAt(image, at, j), is64, list)
  }

  lemma TableLies(image: Image, base: nat, lc: nat, is64: bool)
    requires ValidSymtab(image, base, lc, is64)
    ensures ListsTable(image, base, lc, is64, Table(image, base, lc, is64))
  {
  }

  lemma SymbolsFound(image: Image, base: nat, is64: bool)
    requires ValidNm(image, base, is64)
    ensures SymbolsLie(image, base, is64, SymbolsOf(image, base, is64))
  {
    var at, n := CommandsAt(base, is64), Raw(image, base + 16);
    var j := FirstSymtabAt(image, at, n, is64);
    if j < n {
      TableLies(image, base, CommandAt(image, at, j), is64);
      assert FirstWith(image, at, j, 0x2);
    }
  }

  /** `handle_not_fat` on an image in the byte order of the machine. */
  method HandleNotFat(image: Image, base: nat, is64: bool) returns (list: seq<Symbol>)
    requires ValidNm(image, base, is64)
    ensures list == SymbolsOf(image, base, is64) && SymbolsLie(image, base, is64, list)
  {
    list := GetNmList(image, base, is64);
    SymbolsFound(image, base, is64);
  }

  /** `get_nm_list`. */
  method GetNmList(image: Image, base: nat, is64: bool) returns (list: seq<Symbol>)
    requires ValidNm(image, base, is64)
    ensures list == SymbolsOf(image, base, is64)
  {
    var number := Number(image, base + 16);
    var i: nat, lc: nat := 0, base + HeaderSize(is64);
    ghost var left: nat := number;
    while i < number
      invariant i + left == number && ValidCommands(image, lc, left, is64)
      invariant FirstSymtab(image, lc, left, is64) == SymtabOf(image, base, is64)
      decreases left
    {
      if Field32(image, lc) == LC_SYMTAB {
        list := ListSymtab(image, base, lc, is64);
        return list;
      }
      lc := lc + Number(image, lc + 4);
      left := left - 1;
      i := i + 1;
    }
    return [];
  }
}
