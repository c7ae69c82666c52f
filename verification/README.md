# Verified model of ft_nm, ft_otool and their libft

This project models five parts of the repository and proves what they do, for all inputs:

- the `ft_printf` engine: parsing a directive, converting the number, laying out the field, counting the bytes
  (`Directives`, `Conversions`, `Decimals`, `FieldWriter`, `Printf`), measured against section 7.21.6.1 of
  ISO/IEC 9899:2011 (`IsoFormat`, `Conformance`) and against a reader of single characters (`Reading`, `FieldReading`);
- `get_next_line` over several descriptors: the linked list in place (`LineReader`), refining a transition system
  whose whole runs are studied (`LineRuns`, `Lines`);
- the symbol list and its sort in place (`SymbolList`, `SymbolSort`), with the comparison (`SymbolOrder`), and the way
  from an image to the sorted list (`SymbolListing`);
- the Mach-O walk (`MachO`), the choice of a fat slice (`Fat`), the hexadecimal dumps (`HexDump`,
  `SectionRows`);
- the two splitters (`Splitters`) and byte swapping (`ByteSwap`).

Code that changes state is a class or a method over arrays (`Data` is `t_data` with the output stream, `VaList` the
argument list, `Reader` and `Node` the static list of `get_next_line`, `NmNode` a node of the symbol list, `TFat` the
record of a fat file). Each such method is proved against a function or a step relation, and the theorems are lemmas
about that function or relation. Output is the growing text `Data.out`. `read` is a nondeterministic step that returns
between one and fifteen bytes, or none at end of file. `dafny verify dfyconfig.toml` checks everything.

Main results:

1. `Printf.FtPrintf`: for every format of literals and directives d i u o x X c s p %, and every argument list, the
   output is the text the format denotes, and the value returned is the number of bytes written.
   `Conformance.DirectiveConforms` says on exactly which inputs an integer directive is the standard's text, and
   `FieldReading.SignedFieldPieces` and `FieldReading.UnsignedFieldPieces` pin that text character by character.
2. `LineRuns.Conservation` and `LineRuns.ReadToEnd`: in every interleaving and every way of cutting the input into
   reads, lines delivered, stock and unread rest are the file byte for byte exactly when no call drops a stock that
   holds text.
3. `SymbolSort.ReverseMirrors`, `SymbolSort.AddressesSorted`, `SymbolSort.SortsAllIff`: names always come out in order,
   'r' is the exact mirror, and the addresses of a name come out in order exactly when they are pairwise comparable.
   `SymbolListing.Nm` joins this to the symbol table of an image.
4. `MachO.GetSection`, `Fat.HandleFat`, `HexDump.DumpSection` with `HexDump.DumpReadsBack`: each agrees with a flat
   definition.

## Where the code and its documentation part

The model follows the code. The disagreements found are stated as exact conditions:

- `%d` of zero with precision zero drops the sign at width zero, and writes '+' in front of the padding of a
  right-aligned field (`IsoFormat.SignedFieldConforms`).
- Unsigned zero under both '-' and '0' fills a wide field with zeros, and `%#.0o` of zero prints blanks when there is a
  width (`IsoFormat.UnsignedFieldConforms`).
- hh and h do not narrow unsigned conversions, and a negative '*' width does not left-align
  (`Conformance.DirectiveConforms`).
- `get_next_line` leaves its static pointer at the current node when it answers 0, so the nodes in front are lost
  (`LineRuns.StockCanBeDropped` is such a run; `LineRuns.HeadEndsAreSafe` rules it out).
- The truncated difference in `compare_add` is not an order on all addresses (`SymbolSort.CompareAddSound`).
- `get_section` answers the ordinal 0, which means "no section", with a place outside the file instead of NULL,
  exactly when the image has a segment command (`MachO.GetSection`, with `MachO.HasSegment`).
- The decimal digit count does not size a buffer for bases below ten (`Numerals.DecimalSizeSuffices`).

## Model

| member | source | states |
|---|---|---|
| Printf.FtPrintf | libft/ft_printf/srcs/ft_printf.c:39-66 | for every well-typed format and argument list the output grows by exactly the text the format denotes, and the return value is the number of bytes written |
| Printf.PrintItem | libft/ft_printf/srcs/ft_printf.c:49-63 | one round of the driver: the text of one item is written and counted, its arguments are consumed, the cursor stands behind it |
| Printf.ScanDirective | libft/ft_printf/srcs/ft_printf.c:17-22 | the scan stops exactly at the conversion character of the directive, also for '%' itself |
| Printf.Convert | libft/ft_printf/srcs/ft_printf.c:56-59 | the call through the table writes the directive's text, sets `len` to its length and takes exactly the arguments of the directive, stars first |
| Directives.ScanRoundTrip | libft/ft_printf/srcs/ini_set.c:16-21 | no character between '%' and the conversion character stops the scan, and the conversion character does |
| Printf.SetFlags | libft/ft_printf/srcs/set_castflag.c:91-117 | the loop computes the recursive parse for any format, well formed or not, and leaves the record otherwise as `init` made it |
| Directives.ParseRoundTrip | libft/ft_printf/srcs/set_castflag.c:91-117 | parsing a written directive gives back its flag set, width and precision and the arguments its stars take; at most five distinct flags are stored |
| Directives.AddFlagsSet | libft/ft_printf/srcs/set_castflag.c:59-69 | repeated flags are dropped and nothing else: the stored flags are distinct and are the set that was written |
| Directives.SkippedCharacter | libft/ft_printf/srcs/set_castflag.c:54-58 | the one character skipped behind a precision is a length letter or the conversion, never a flag, a digit or a star |
| Directives.FlagListFits | libft/ft_printf/srcs/set_castflag.c:99-106 | distinct flags are at most five, so the limit of ten is never met |
| Printf.SetZeroFlag | libft/ft_printf/srcs/set_castflag.c:52-71 | a precision is read and one character more skipped; any other flag is added once |
| Printf.FlagsStar | libft/ft_printf/srcs/set_castflag.c:73-89 | a width argument counts by its magnitude, a negative precision argument counts as none |
| Directives.CastRoundTrip | libft/ft_printf/srcs/set_castflag.c:28-50 | the length modifier that was written is the one recognised, double letters included |
| Printf.SetCast | libft/ft_printf/srcs/set_castflag.c:28-50 | the modifier found by the bounded searches is the one the specification function finds |
| Printf.FtStrnchr | libft/ft_printf/srcs/put.c:19-30 | found if and only if the character is among the first `size + 1` characters |
| Printf.FtStrnchrDouble | libft/ft_printf/srcs/put.c:32-52 | true if and only if the first run of the character within the bound has even length |
| Printf.CastNuD | libft/ft_printf/srcs/con_d.c:19-36 | the digits held are the signed decimal text of the argument narrowed as the modifier says |
| FieldWriter.Data.SetPrintD | libft/ft_printf/srcs/set_print_d.c:100-123 | for all flags, widths, precisions and numbers the bytes appended are the signed field, and `len` is their count |
| FieldWriter.Data.SetDLen | libft/ft_printf/srcs/set_print_d.c:16-39 | the length fixed in advance is the length of the field |
| FieldWriter.Data.PrintDigitsD | libft/ft_printf/srcs/set_print_d.c:72-98 | sign, zeros, digits and blanks are emitted in the order of the standard layout on every flag combination |
| FieldWriter.Data.ZeroNoZe | libft/ft_printf/srcs/con_d.c:38-50 | zero under precision zero prints its sign and blanks, or nothing |
| IsoFormat.SignedFieldConforms | libft/ft_printf/srcs/set_print_d.c:100-123 | the signed field is the standard one if and only if it is not zero under precision zero with a sign in the two named shapes |
| FieldReading.SignedFieldPieces | libft/ft_printf/srcs/set_print_d.c:59-123 | the characters of the standard signed field, one by one: '-' exactly for a negative number, else '+' or a blank as the flags ask; zeros up to the precision; the number written out in decimal; padding to the width and no further, behind under '-', with zeros under '0' without a precision, in front otherwise |
| FieldReading.SignedFieldReadsBack | libft/ft_printf/srcs/set_print_d.c:59-70 | under any flags, width and precision a standard signed field shows the magnitude, has a '-' if and only if the number is negative and a '+' only otherwise, and nothing but blanks stands before a sign |
| FieldReading.PrintedSignedReadsBack | libft/ft_printf/srcs/set_print_d.c:100-123 | the same of the field the library writes, its slips included |
| FieldWriter.Data.SetPrintOxuHash | libft/ft_printf/srcs/set_print_oux.c:64-88 | for all flags, widths, precisions, radices and numbers the bytes appended are the unsigned field, and `len` is their count |
| FieldWriter.Data.SetOxu | libft/ft_printf/srcs/set_print_oux.c:34-52 | the rewritten precision, length and blank count, zero and non-zero numbers apart |
| FieldWriter.Data.ForSetOux | libft/ft_printf/srcs/set_print_oux.c:16-32 | with '#' the length and the blanks account for the prefix, which an octal precision may already supply |
| FieldWriter.Data.ForPrintOux | libft/ft_printf/srcs/set_print_oux.c:54-62 | the left-aligned pieces: prefix, zeros, digits, blanks |
| FieldWriter.Data.ForRightOux | libft/ft_printf/srcs/for_print_oux.c:16-29 | the right-aligned pieces: blanks, prefix, zeros, digits |
| FieldWriter.Data.GoRightOux | libft/ft_printf/srcs/for_print_oux.c:31-49 | zero padding goes between prefix and digits when no precision is given, blanks in front otherwise |
| FieldWriter.Data.PutNoPre | libft/ft_printf/srcs/for_print_oux.c:51-63 | zero under a precision is that many zeros, padded on the side the flags ask for |
| FieldWriter.Data.PutZeroOux | libft/ft_printf/srcs/for_print_oux.c:65-87 | zero without a precision is one zero or a field of zeros |
| IsoFormat.UnsignedFieldConforms | libft/ft_printf/srcs/set_print_oux.c:64-88 | the unsigned field is the standard one if and only if it is not a zero of the two named families; non-zero numbers always conform |
| FieldReading.UnsignedFieldPieces | libft/ft_printf/srcs/set_print_oux.c:16-88 | the characters of the standard unsigned field, one by one: its prefix, the zeros of the precision and of '#' in octal, the number written out in base eight, ten or sixteen with letters of the right case, and the padding |
| FieldReading.UnsignedFieldReadsBack | libft/ft_printf/srcs/set_print_oux.c:64-88 | under any flags, width and precision the standard field shows the number, read without the printing alphabets |
| FieldReading.PrintedUnsignedReadsBack | libft/ft_printf/srcs/set_print_oux.c:64-88 | the same of the field the library writes, its slips included |
| Conformance.SignedConforms | libft/ft_printf/srcs/set_castflag.c:73-83 | exact condition for a signed field to be the standard one when '-' may come from a negative '*' |
| Conformance.UnsignedConforms | libft/ft_printf/srcs/con_u.c:19-40 | exact condition for an unsigned field to be the standard one when the argument may have been narrowed differently and '-' may come from a negative '*' |
| Conformance.SignedArgConforms | libft/ft_printf/srcs/con_d.c:19-36 | for every length modifier the argument of a signed conversion is the two's complement number of the type the standard names |
| Conformance.RequestConforms | libft/ft_printf/srcs/set_castflag.c:73-89 | width and precision, with the arguments their stars take, are what the standard asks for, apart from the '-' of a negative width |
| Conformance.DirectiveConforms | libft/ft_printf/srcs/ft_printf.c:56-59 | a d, i, u, o, x or X directive prints what section 7.21.6.1 asks for if and only if its inputs are not one of the listed slips |
| Conformance.FormatConforms | libft/ft_printf/srcs/ft_printf.c:39-66 | a whole format none of whose directives slips denotes the text the standard asks for, each directive with its own arguments |
| Printf.ConX | libft/ft_printf/srcs/con_x.c:49-55 | `%x` writes the lower-case field of its narrowed argument and takes one argument |
| Printf.ConO | libft/ft_printf/srcs/con_o.c:21-37 | `%o` writes the octal field of its narrowed argument, its digits taken as a sequence |
| Printf.SetPrintS | libft/ft_printf/srcs/con_s.c:19-41 | a string is cut to its precision, padded to its width, and `len` counts what is written |
| FieldReading.StringFieldPieces | libft/ft_printf/srcs/con_s.c:19-41 | a string field is a prefix of the string, as long as the precision lets through, between blanks on the side the flags ask for |
| Printf.SetPrintC | libft/ft_printf/srcs/con_cp.c:19-41 | one character padded to the width, with zeros under '0', and `len` counts what is written |
| FieldReading.CharFieldPieces | libft/ft_printf/srcs/con_cp.c:19-41 | a character field is the character padded to the width, with zeros in front under '0' |
| Printf.ConP | libft/ft_printf/srcs/con_cp.c:58-81 | a pointer is a `%#x` field, the null pointer is 0x0, and `len` counts what is written |
| FieldReading.PointerFieldPieces | libft/ft_printf/srcs/con_cp.c:58-81 | a pointer other than null is "0x" and its digits in lower-case base sixteen, with the zeros of a precision, padded |
| FieldReading.NullFieldPieces | libft/ft_printf/srcs/con_cp.c:68-76 | the null pointer is "0x0" padded with blanks |
| Printf.ConPer | libft/ft_printf/srcs/con_cp.c:83-103 | `%%` is laid out as a character field and takes no argument |
| Conversions.NbDgInBase | libft/ft_printf/srcs/convert_base.c:18-29 | the counting loop gives the number of digits in the base |
| Conversions.ConvertBase | libft/ft_printf/srcs/convert_base.c:77-104 | whenever the digits in the target base are no more than the decimal digits the buffer is sized for, the result holds exactly those digits without a leading zero |
| Conversions.SkipZeros | libft/ft_printf/srcs/convert_base.c:54-75 | on a numeral the zero-stripping loop leaves the start where it is |
| Conversions.ItoaHex | libft/ft_printf/srcs/itoa_hexbase.c:69-82 | for every 64-bit number the text consists of the digits 0 to 9 and letters a to f, in the case asked for, has no leading zero, and reads as the number |
| Numerals.DecimalSizeSuffices | libft/ft_printf/srcs/convert_base.c:88-93 | a buffer sized by the decimal digit count holds every number in exactly the bases from ten up |
| Numerals.ValueOfNumeral | libft/ft_printf/srcs/convert_base.c:41-52 | reading a numeral back gives the number, in every alphabet of distinct digits |
| Reading.NumeralsWrite | libft/ft_printf/srcs/itoa_hexbase.c:69-82 | the numerals of all conversions read as their numbers in base eight, ten and sixteen by a reader that knows no alphabet, in the right case and without a leading zero |
| Reading.SignedNumeralWrites | libft/ft_printf/srcs/itoa_max.c:87-112 | the signed text is '-' exactly for a negative number, then its magnitude in decimal |
| Reading.DecimalValueReads | libft/ft_printf/srcs/set_castflag.c:107-111 | a digit string in a directive stands for the number its digits make |
| Numerals.NumeralHead | libft/ft_printf/srcs/convert_base.c:54-75 | a numeral starts with the zero digit only for the number zero |
| Conversions.ItoaUnmax | libft/ft_printf/srcs/itoa_hexbase.c:19-36 | the buffer holds the decimal numeral and a terminator, every cell written |
| Conversions.NbDg | libft/ft_printf/srcs/itoa_max.c:66-85 | the length counted beforehand is the length of the signed text, the most negative value included |
| Conversions.Itoa | libft/ft_printf/srcs/itoa_max.c:87-112 | for every width the buffer holds the signed decimal text, the digit count and the fill loop agreeing on every cell |
| Conversions.NegationIsMagnitude | libft/ft_itoa.c:37-62 | unsigned negation gives the magnitude over the whole signed range |
| Decimals.FtAtoi | libft/ft_atoi.c:15-41 | the loops compute the specification of `ft_atoi` on every text, blanks, signs and overflow included |
| Decimals.AtoiOfSignedNumeral | libft/ft_itoa.c:37-62 | `ft_atoi` of the text of `n` is `n`, for every `int` |
| Decimals.AtoiOfDigits | libft/ft_atoi.c:15-41 | a digit string that fits `int` is read exactly, whatever follows it |
| Decimals.AtoiReads | libft/ft_atoi.c:15-41 | white space, an optional sign and digits, followed by anything else, read as the signed number |
| Decimals.NbDigit | libft/ft_printf/srcs/cacul.c:18-29 | the count is the length of the run of digits at the front |
| LineReader.Reader.GetNextLine | libft/ft_get_next_line.c:78-105 | -1 exactly for a descriptor that is not open; otherwise 1 exactly when there is text left, with its first line, and 0 exactly when there is none; and the call is one step of the transition system, whatever the reads returned, on a chain of distinct nodes with distinct descriptors |
| LineReader.Reader.Find | libft/ft_get_next_line.c:53-76 | the node of the descriptor, with a stock that has a newline or is the whole rest of the file; stock and unread rest together are unchanged, other nodes too |
| LineReader.Reader.Refill | libft/ft_get_next_line.c:66-74 | the read loop moves bytes from the file to the stock and ends with a newline in the stock or at end of file |
| LineReader.Reader.Add | libft/ft_get_next_line.c:34-51 | a node with an empty stock is linked behind the last one |
| LineReader.StrCDup | libft/ft_get_next_line.c:17-32 | the copy is the text up to the character |
| LineRuns.CallEffect | libft/ft_get_next_line.c:78-105 | what one call does to every descriptor's undelivered text: its first line leaves it, other texts stay, unless a stock is dropped |
| LineRuns.Conservation | libft/ft_get_next_line.c:78-105 | in every state a run over any descriptors comes to, the delivered lines with their newlines, then the stock, then the unread rest are the file byte for byte (a last line without a newline counting as delivered with one) if and only if no call dropped a stock of it that held text |
| LineRuns.LinesConserved | libft/ft_get_next_line.c:78-105 | the same for lines: delivered lines and the lines of what is left are the lines of the file if and only if no stock was dropped |
| LineRuns.ReadToEnd | libft/ft_get_next_line.c:78-105 | a descriptor read to its end has delivered exactly the lines of its file, however the reads were cut, if and only if no stock of it was dropped |
| LineRuns.HeadEndsAreSafe | libft/ft_get_next_line.c:89-90 | when 0 is only ever answered for the head of the list nothing is dropped |
| LineRuns.StockCanBeDropped | libft/ft_get_next_line.c:89-90 | a concrete run with two files in which a line that was read is never delivered |
| LineRuns.RunWellFormed | libft/ft_get_next_line.c:34-51 | every state of a run keeps the descriptors of the list distinct and open |
| LineRuns.EndMeansEmpty | libft/ft_get_next_line.c:89-90 | after an answer of 0 nothing of the descriptor is left, in the stock or in the file |
| Lines.JoinSplit | libft/ft_get_next_line.c:91-102 | joining the lines of a text with newlines gives the text back, up to a newline missing at its end |
| SymbolSort.SortListByName | src/ft_nm/sort_list_by_name.c:73-95 | the nodes and their links stay, the payloads along the chain become the sorted sequence |
| SymbolList.AddList | src/ft_nm/helper_2.c:26-39 | a node is linked behind the last one of the chain, and no data changes |
| SymbolList.LinkAll | src/ft_nm/handle_not_fat.c:44-54 | the chain of all entries, each linked behind the others |
| SymbolSort.CompareExchange | src/ft_nm/sort_list_by_name.c:23-71 | the four fields change places together exactly when the comparison asks for it, in either direction |
| SymbolOrder.SortConserves | src/ft_nm/sort_list_by_name.c:73-95 | no payload is dropped or doubled |
| SymbolSort.NamesSorted | src/ft_nm/sort_list_by_name.c:73-95 | for every list, whatever its addresses, no name stands behind one that it precedes in the order of dictionaries; with 'r' the other way round |
| SymbolSort.ReverseMirrors | src/ft_nm/sort_list_by_name.c:48-71 | the names under 'r' are exactly the reverse of the names without it, for every input order |
| SymbolSort.CompareAddSound | src/ft_nm/sort_list_by_name.c:15-21 | the tests of both exchange functions order two addresses correctly both ways if and only if their distance modulo 2^32 is between 0 and 2^31 or they are equal |
| SymbolSort.AddressesSorted | src/ft_nm/sort_list_by_name.c:73-95 | the entries of a name come out in address order, with 'r' in reverse, when the addresses of that name are pairwise comparable, whatever the entries of other names are |
| SymbolSort.ListSorted | src/ft_nm/sort_list_by_name.c:73-95 | when that holds of every name, the whole list is in dictionary order of names, and in address order within a name, with 'r' in reverse |
| SymbolSort.SortsAllIff | src/ft_nm/sort_list_by_name.c:73-95 | a set of addresses of one name is sorted correctly from every list, with 'r' or without, if and only if the addresses are pairwise comparable |
| SymbolOrder.FtStrcmp | libft/ft_strcmp.c:15-28 | the loop computes the difference at the first place where the texts part |
| SymbolOrder.StrcmpPrecedes | libft/ft_strcmp.c:15-28 | the comparison is negative if and only if the texts agree up to a place where the first has the smaller character, the end counting as smallest |
| SymbolOrder.StrcmpOrder | libft/ft_strcmp.c:15-28 | zero if and only if equal, and antisymmetric |
| SymbolOrder.StrcmpTransitive | libft/ft_strcmp.c:15-28 | the order is transitive |
| MachO.GetSection | src/ft_nm/get_symbol_letter.c:15-42 | ordinal `i >= 1` gives the address of the i-th section of the concatenation over all segments, and NULL exactly beyond its end; ordinal 0 gives a place outside the file if and only if there is a segment command, and NULL otherwise |
| MachO.AllSectionsLie | src/ft_nm/get_symbol_letter.c:15-42 | the flat table, said of the words of the file: the commands that start with 1 or 25 describe as many sections as their count says, each where it stands behind the command, in the order of the commands |
| MachO.HasSegmentMeans | src/ft_nm/get_symbol_letter.c:27-37 | there is a segment if and only if some command starts with 1 or 25 |
| MachO.OrdinalsApart | src/ft_nm/get_symbol_letter.c:15-42 | different ordinals name disjoint section descriptions, in order, inside the file |
| MachO.ListSymtab | src/ft_nm/handle_not_fat.c:29-56 | the list has one entry per table entry, in table order |
| MachO.HandleNotFat | src/ft_nm/handle_not_fat.c:58-88 | no symbols if no command starts with the word 2; otherwise the table that the first such command describes, every entry read where it stands in the file |
| MachO.FirstSymtabAt | src/ft_nm/handle_not_fat.c:64-76 | the symbol table command is the first one that starts with the word 2, and there is none exactly when no command does |
| MachO.TextReadsBack | src/ft_nm/helper_2.c:15-24 | a name written out in the file with a NUL byte behind it is the text read at its place |
| SymbolListing.LinkEntries | src/ft_nm/handle_not_fat.c:29-56 | the linked list of the entries, in table order, with addresses and names read where they stand in the file |
| SymbolListing.Entry64ReadsBack | src/ft_nm/handle_not_fat.c:46-52 | a 64-bit entry written out as bytes, with its name in the string table, reads back as its address and its name |
| SymbolListing.Entry32ReadsBack | src/ft_nm/handle_not_fat.c:46-52 | the same for a 32-bit entry |
| SymbolListing.SortNmList | src/ft_nm/nm.c:15-22 | 'p' leaves the list in table order, otherwise it is sorted, with 'r' in reverse |
| SymbolListing.Nm | src/ft_nm/nm.c:64-65 | from a valid image: one node for every entry of the table of its first symbol table command, in table order under 'p', otherwise with names in dictionary order, with 'r' in reverse |
| Fat.InitTFat | src/ft_nm/handle_nm.c:15-38 | the prescan notes an x86_64 entry if and only if the table has one |
| Fat.HandleEachArch | src/ft_nm/handle_each_arch.c:27-49 | an entry of the preferred processor gives its slice's symbols, any other none, and `found_64` does not change |
| Fat.HandleFat | src/ft_nm/handle_nm.c:40-65 | said of the words of the file: the first non-empty list, in table order, among the slices of the entries whose processor word is 0x01000007, or 7 when no entry has that one; empty only when none of those slices has symbols |
| Fat.CandidateOffers | src/ft_nm/handle_each_arch.c:27-49 | what an entry offers: the symbols of the slice it points to, read by the magic number there, when its processor word is the one asked for |
| Fat.SwappedField | src/ft_nm/swap_bytes.c:24-28 | a swapped field is the number whose bytes are read backwards |
| HexDump.HexdumpAddress | src/ft_nm/dump.c:15-28 | eight or sixteen hexadecimal digits, the high byte first, printed through `ft_printf` |
| HexDump.AddressReadsBack | src/ft_nm/dump.c:15-28 | those characters are lower-case hexadecimal digits that read as the little-endian value, by a reader that knows no alphabet |
| HexDump.LittleEndianOfEight | src/ft_nm/dump.c:15-28 | the little-endian value of eight bytes is its low half plus 2^32 times its high half |
| HexDump.LittleEndianOfFour | src/ft_nm/dump.c:15-28 | the little-endian value of four bytes, byte by byte |
| HexDump.TwoDigitsText | libft/ft_printf/srcs/con_x.c:49-55 | the format `%.2x` of a byte denotes its two digits, zero included |
| HexDump.HexdumpData | src/ft_otool/dump.c:29-47 | the bytes of one row, sixteen or what is left, each in two digits and a blank |
| HexDump.RowReadsBack | src/ft_otool/dump.c:29-47 | the two digits printed for byte `k` of a row read back as that byte, and a blank follows |
| HexDump.DumpSection | src/ft_otool/dump.c:55-79 | for a section apart from its own address field the output is its rows with labels counting up by sixteen in the width of an address, and the field alone is changed |
| SectionRows.RowsCover | src/ft_otool/dump.c:55-79 | the rows are as many as sixteens begun and hold every byte once and in order |
| HexDump.RowEnds | src/ft_otool/dump.c:55-79 | every row of the dump ends in a newline behind its last byte |
| HexDump.WordSizes | src/ft_otool/dump.c:73-76 | labels count modulo 2^32 or 2^64 |
| HexDump.LabelReadsBack | src/ft_otool/dump.c:55-79 | in the dump of a section the text at the place of row `k` is a label that reads back as address + 16k modulo the word size, then a tab |
| HexDump.DumpReadsBack | src/ft_otool/dump.c:55-79 | every byte of the section reads back from the two digits at its own place in the output, with a blank behind them |
| HexDump.DumpSplits | src/ft_otool/dump.c:55-79 | a dump is the rows before row `k`, row `k` under the label address + 16k, and the dump of the rows behind it |
| Splitters.Wc | libft/ft_strsplit.c:49-66 | the counting pass counts the words |
| Splitters.FtStrsplit | libft/ft_strsplit.c:68-94 | every cell is written: the words in order, then the null pointer |
| Splitters.FtSplit | libft/ft_split.c:44-71 | the same array as `ft_strsplit` for a set of one separator, and the words for any set |
| Splitters.NumberWord | libft/ft_split.c:27-42 | the counting pass counts the words |
| Splitters.WordsAreWords | libft/ft_strsplit.c:68-94 | every word is non-empty and free of separators |
| Splitters.ConcatIsStrip | libft/ft_strsplit.c:68-94 | the words one after the other are the text without its separators |
| Splitters.MaximalRun | libft/ft_strsplit.c:68-94 | a run bounded by separators or the ends of the text is one word, whatever stands around it |
| Splitters.WordsOfJoin | libft/ft_split.c:44-71 | splitting undoes joining |
| ByteSwap.SwapUint32Reverses | src/ft_nm/swap_bytes.c:24-28 | shift and mask swapping of 32 bits is reversal of the bytes |
| ByteSwap.SwapUint64Reverses | src/ft_nm/swap_bytes.c:15-22 | shift and mask swapping of 64 bits is reversal of the bytes |
| ByteSwap.SwapTwice | src/ft_nm/swap_bytes.c:15-28 | shift and mask swapping undoes itself on 32 and on 64 bits |
| ByteSwap.SwapEndiane | src/ft_nm/swap_bytes.c:30-44 | any number of bytes is reversed in place and no other byte changes |
| ByteSwap.TurnedRoundTwice | src/ft_nm/swap_bytes.c:30-44 | reversing the same bytes again undoes it |
| ByteSwap.SwapNb32 | src/ft_nm/swap_elements.c:15-22 | the loop turns the words one after the other in place |
| ByteSwap.WordsTurnedIn | src/ft_nm/swap_elements.c:15-22 | each byte of each word comes from its mirror place in the same word |
| ByteSwap.WordsTurnedOut | src/ft_nm/swap_elements.c:15-22 | no byte outside the words changes |
| ByteSwap.WordsTurnedTwice | src/ft_nm/swap_elements.c:15-22 | swapping the same words again undoes it |

## Left out

- Wide characters (`%C`, `%S`, `%lc`, `%ls`): the count is of characters rather than bytes.
- The conversions D, O, U and b: repeats of l-modified conversions, and base two, whose buffer is too short.
- A format that ends in a lone '%' or in an unfinished directive: the source steps past the terminator.
- Precisions written with a sign, which `ft_atoi` accepts and `nb_digit` does not.
- Numbers of more than 31 bits written as a width or precision, and sums of widths near the largest `int`: lengths are unbounded here.
- A '*' width of the most negative `int`, and arguments that are missing or of the wrong kind: undefined in C, excluded by `Printf.Typed`.
- Printf.ConO: the octal digits are taken as a plain sequence, because the buffer of `itoa_base` is sized for decimal digits and would be overrun, see `Numerals.DecimalSizeSuffices`.
- Printf.Convert: the parse with which every `con_*` function opens is one method, `Printf.ReadDirective`, called before the table look-up.
- Conversions.Itoa: one method with the width as a parameter stands for `ft_itoa`, `ft_itoa_max`, `ft_itoa_short` and `ft_itoa_signchar`.
- Conformance.DirectiveConforms: the integer conversions only; s is the standard's layout by definition of `IsoFormat.StringField`, and c, p and % under flags are left to the implementation or undefined there.
- Conformance.FormatConforms: one way; two directives that slip could in principle make up for each other.
- LineReader.Reader.GetNextLine: a descriptor is usable when it is a key of `files`, which stands for the check on `fd` and the empty `read`; errors in the middle of a file and NUL bytes in files are not modelled.
- malloc failure, freeing, and the memory leaked with dropped nodes.
- SymbolSort.SortListByName: `add` is the number that the address pointer of a node leads to.
- MachO.ListSymtab: the entries are collected as a sequence of places in the file and linked into nodes afterwards, in `SymbolListing.LinkEntries`; the table lies inside the file.
- MachO.HandleNotFat: the image is in the byte order of the machine, and its commands and its first symbol table lie inside the file.
- SymbolListing.Nm: the symbol letters are a parameter, and so is the byte order of the machine through `Image`.
- Fat.HandleEachArch: as `Fat.HandleFat`.
- Conversions.ConvertBase: numbers whose digits outgrow the buffer, which occur in bases below ten only, see `Numerals.DecimalSizeSuffices`.
- MachO.GetSection: words of the file are read through `Image`, native byte order, every load command inside the file; the range checks then never object.
- Fat.HandleFat: slices of interest are in the byte order of the machine; swapping whole structures of other files uses offsets that do not match their fields.
- HexDump.DumpSection: the section lies inside the file and apart from its own address field, so `is_safe` never stops it.
- Symbol letters, flags of nm other than 'p' and 'r', and the printing of the list.
- System calls, `main`, usage and error messages, range checks on malformed files.
- One-loop helpers of libft, the old top-level `nm.c`, the otool copies of the nm files: easy members only.
