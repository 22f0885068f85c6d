/**
  The smallest file of each format, byte by byte, and what the reading functions
  make of bytes (src/machine/installed-scheduler-command.ts; System V ABI, chapters
  4 and 5; the Mach-O and PE/COFF file formats).

  The checks of `executable_header.dfy` accept these files, and accept none of them
  for another processor or when the file ends before what the header names.
 */
module HeaderExamples {
  import opened Options
  import opened Binary
  import opened ExecutableHeader

  // ----- reading numbers -----

  function At(h: Buffer, i: int): int
    requires 0 <= i < |h|
  {
    h[i]
  }

  /** Four bytes, the first counting least. */
  function Least(h: Buffer, at: int): int
    requires Fits(h, at, 4)
  {
    At(h, at) + 0x100 * At(h, at + 1) + 0x1_0000 * At(h, at + 2) + 0x100_0000 * At(h, at + 3)
  }

  /** Four bytes, the first counting most. */
  function Most(h: Buffer, at: int): int
    requires Fits(h, at, 4)
  {
    0x100_0000 * At(h, at) + 0x1_0000 * At(h, at + 1) + 0x100 * At(h, at + 2) + At(h, at + 3)
  }

  lemma LittleEndian(h: Buffer, at: int)
    requires Fits(h, at, 8)
    ensures U16(h, at, true) == At(h, at) + 0x100 * At(h, at + 1)
    ensures U32(h, at, true) == Least(h, at)
    ensures U64(h, at, true) == Least(h, at) + 0x1_0000_0000 * Least(h, at + 4)
  {
  }

  lemma BigEndian(h: Buffer, at: int)
    requires Fits(h, at, 8)
    ensures U16(h, at, false) == 0x100 * At(h, at) + At(h, at + 1)
    ensures U32(h, at, false) == Most(h, at)
    ensures U64(h, at, false) == 0x1_0000_0000 * Most(h, at) + Most(h, at + 4)
  {
  }

  /** A number of at most four bytes, stored in eight. */
  lemma SmallWord(h: Buffer, at: int, v: nat)
    requires Fits(h, at, 8) && Least(h, at) == v && Least(h, at + 4) == 0
    ensures U64(h, at, true) == v
  {
    LittleEndian(h, at);
  }

  // ----- a 64-bit ELF file: the header, one segment, one byte of code -----

  function ElfByte(i: int): Byte {
    if i == 0 then 0x7F else if i == 1 then 0x45 else if i == 2 then 0x4C else if i == 3 then 0x46
    else if i == 4 then 2 else if i == 5 then 1 else if i == 6 then 1      // 64-bit, little-endian, version 1
    else if i == 16 then 2 else if i == 18 then 62 else if i == 20 then 1  // executable, x86-64, version 1
    else if i == 24 then 0x78 else if i == 26 then 0x40                    // entry 0x400078
    else if i == 32 then 64                                                // table behind the header
    else if i == 52 then 64 else if i == 54 then 56 else if i == 56 then 1 // header, entry size, count
    else if i == 64 then 1 else if i == 68 then 5                          // loadable, readable and executable
    else if i == 82 then 0x40                                              // address 0x400000
    else if i == 96 then 121 else if i == 104 then 121                     // bytes in the file and in memory
    else 0
  }

  const ELF: Buffer := seq(120, i => ElfByte(i))

  lemma ElfHead()
    ensures |ELF| == 120 && ElfHeaderOf(ELF, true, true) == ElfHeader(2, 62, 1, 0x40_0078, 64, 64, 56, 1)
  {
    SmallWord(ELF, 24, 0x40_0078);
    SmallWord(ELF, 32, 64);
    assert U16(ELF, 16, true) == 2 && U16(ELF, 18, true) == 62 && U32(ELF, 20, true) == 1;
    assert U16(ELF, 52, true) == 64 && U16(ELF, 54, true) == 56 && U16(ELF, 56, true) == 1;
  }

  lemma ElfAddress()
    ensures U64(ELF, 72, true) == 0 && U64(ELF, 80, true) == 0x40_0000
  {
    SmallWord(ELF, 72, 0);
    SmallWord(ELF, 80, 0x40_0000);
  }

  lemma ElfSizes()
    ensures U64(ELF, 96, true) == 121 && U64(ELF, 104, true) == 121
  {
    SmallWord(ELF, 96, 121);
    SmallWord(ELF, 104, 121);
  }

  lemma ElfSegment()
    ensures |ELF| == 120 && SegmentAt(ELF, 64, true, true) == Segment(1, 0, 0x40_0000, 121, 121, 5)
  {
    ElfAddress();
    ElfSizes();
    assert U32(ELF, 64, true) == 1 && U32(ELF, 68, true) == 5;
  }

  lemma ElfIdent(width: nat, little: bool)
    ensures ElfIdentified(ELF, width, little) <==> width == 2 && little
  {
  }

  lemma OnlyX64Is62(architecture: string)
    ensures ElfTarget(architecture) == Some((62, 2)) <==> architecture == "x64"
    ensures ElfTarget(architecture).Some? && ElfTarget(architecture).value.0 == 62 ==> architecture == "x64"
  {
  }

  lemma OtherElfIsRefused(size: nat, architecture: string, little: bool)
    requires ElfTarget(architecture).Some? && !(ElfTarget(architecture).value.1 == 2 && little)
    ensures !IsNativeElf(ELF, size, architecture, little)
  {
    ElfIdent(ElfTarget(architecture).value.1, little);
  }

  /** A table of one loadable segment is judged by that segment. */
  lemma OneSegmentDecides(h: Buffer, size: nat, architecture: string, machine: nat)
    requires ElfTarget(architecture) == Some((machine, 2)) && ElfIdentified(h, 2, true) && 64 <= |h|
    requires var e := ElfHeaderOf(h, true, true);
             e.count == 1 && e.entrySize == 56 && e.table + 56 <= |h| && SegmentOf(h, e, 0, true, true).kind == 1
    ensures var e := ElfHeaderOf(h, true, true);
            var s := SegmentOf(h, e, 0, true, true);
            IsNativeElf(h, size, architecture, true)
            <==> ElfTableInRange(h, size, e, machine, true) && InFile(s, size) && HoldsEntry(s, e.entry)
  {
  }

  lemma WideElf(size: nat, architecture: string, machine: nat)
    requires ElfTarget(architecture) == Some((machine, 2))
    ensures IsNativeElf(ELF, size, architecture, true) <==> size >= 121 && machine == 62
  {
    ElfIdent(2, true);
    ElfIsWhole(size, machine);
    OneSegmentDecides(ELF, size, architecture, machine);
  }

  /** Accepted exactly for its own processor and byte order, and when the file is all there. */
  lemma ElfIsAccepted(size: nat, architecture: string, little: bool)
    ensures IsNativeElf(ELF, size, architecture, little) <==> size >= 121 && architecture == "x64" && little
  {
    OnlyX64Is62(architecture);
    var target := ElfTarget(architecture);
    if target.Some? && target.value.1 == 2 && little {
      WideElf(size, architecture, target.value.0);
    } else if target.Some? {
      OtherElfIsRefused(size, architecture, little);
    }
  }

  lemma ElfIsWhole(size: nat, machine: nat)
    ensures |ELF| == 120
    ensures var e := ElfHeaderOf(ELF, true, true);
            && (ElfTableInRange(ELF, size, e, machine, true) <==> size >= 120 && machine == 62)
            && e.count == 1 && e.entrySize == 56 && e.table == 64
            && var s := SegmentOf(ELF, e, 0, true, true);
               s.kind == 1 && (InFile(s, size) <==> size >= 121) && HoldsEntry(s, e.entry)
  {
    ElfHead();
    ElfSegment();
    assert HasBit(5, 1);
  }

  // ----- a thin 64-bit Mach-O file: the header, one segment, one entry command -----

  function MachoByte(i: int): Byte {
    if i == 0 then 0xCF else if i == 1 then 0xFA else if i == 2 then 0xED else if i == 3 then 0xFE
    else if i == 4 then 7 else if i == 7 then 1                            // x86-64
    else if i == 12 then 2 else if i == 16 then 2 else if i == 20 then 96  // executable, two commands
    else if i == 32 then 0x19 else if i == 36 then 72                      // LC_SEGMENT_64
    else if i == 64 then 200 else if i == 80 then 200 else if i == 92 then 5 // bytes in memory and file, executable
    else if i == 104 then 0x28 else if i == 107 then 0x80 else if i == 108 then 24 // LC_MAIN
    else if i == 112 then 128                                              // entry behind the commands
    else 0
  }

  const MACHO: Buffer := seq(128, i => MachoByte(i))

  lemma MachoFields()
    ensures |MACHO| == 128 && U32(MACHO, 0, true) == 0xFEEDFACF && U32(MACHO, 4, true) == 0x01000007
    ensures U32(MACHO, 12, true) == 2 && U32(MACHO, 16, true) == 2 && U32(MACHO, 20, true) == 96
  {
  }

  const SEGMENT: LoadCommand := LoadCommand(LC_SEGMENT_64, 72, 0, Slice(0, 200), 200, true, 0)
  const MAIN: LoadCommand := LoadCommand(LC_MAIN, 24, 128, Slice(0, 0), 0, false, 0)

  lemma MachoSegmentBytes()
    ensures |MACHO| == 128 && U64(MACHO, 64, true) == 200 && U64(MACHO, 72, true) == 0 && U64(MACHO, 80, true) == 200
  {
    SmallWord(MACHO, 64, 200);
    SmallWord(MACHO, 72, 0);
    SmallWord(MACHO, 80, 200);
  }

  lemma MachoSegment()
    ensures |MACHO| == 128 && CommandFits(MACHO, 32, 128) && CommandAt(MACHO, 32, 128) == SEGMENT
  {
    MachoSegmentBytes();
    assert U32(MACHO, 32, true) == 0x19 && U32(MACHO, 36, true) == 72;
    assert U32(MACHO, 92, true) == 5 && U32(MACHO, 96, true) == 0 && HasBit(5, 4);
  }

  lemma MachoMain()
    ensures |MACHO| == 128 && CommandFits(MACHO, 104, 128) && CommandAt(MACHO, 104, 128) == MAIN
  {
    SmallWord(MACHO, 112, 128);
    assert U32(MACHO, 104, true) == 0x8000_0028 && U32(MACHO, 108, true) == 24;
  }

  lemma MachoCommands()
    ensures |MACHO| == 128 && ReadCommands(MACHO, 32, 128, 2) == Some(([SEGMENT, MAIN], 128))
  {
    MachoSegment();
    MachoMain();
    assert ReadCommands(MACHO, 128, 128, 0) == Some(([], 128));
    assert [MAIN] + [] == [MAIN];
    assert ReadCommands(MACHO, 104, 128, 1) == Some(([MAIN], 128));
    assert [SEGMENT] + [MAIN] == [SEGMENT, MAIN];
  }

  lemma TwoCommandsAdmissible(size: nat)
    ensures CommandsAdmissible([SEGMENT, MAIN], size) <==> size >= 200
    ensures EntryIsExecutable([SEGMENT, MAIN], 128)
  {
    var cs := [SEGMENT, MAIN];
    assert cs[0] == SEGMENT && cs[1] == MAIN && SEGMENT in cs && MAIN in cs;
    assert forall c :: c in cs ==> c == SEGMENT || c == MAIN;
    assert HoldsOffset(SEGMENT, MAIN.entry);
    assert CommandAdmissible(SEGMENT, size) <==> size >= 200;
  }

  lemma MachoIsAccepted(size: nat, architecture: string)
    ensures IsNativeMacho(MACHO, size, architecture) <==> size >= 200 && architecture == "x64"
  {
    MachoFields();
    MachoCommands();
    TwoCommandsAdmissible(size);
  }

  // ----- a PE32+ file: the headers and one section -----

  function PeByte(i: int): Byte {
    if i == 0 then 0x4D else if i == 1 then 0x5A else if i == 60 then 64   // header at 64
    else if i == 64 then 0x50 else if i == 65 then 0x45                    // signature
    else if i == 68 then 0x64 else if i == 69 then 0x86                    // x86-64
    else if i == 70 then 1 else if i == 84 then 112 else if i == 86 then 2 // sections, optional header, executable
    else if i == 88 then 0x0B else if i == 89 then 2                       // PE32+
    else if i == 105 then 0x10 else if i == 145 then 0x20                  // entry 0x1000, image 0x2000
    else if i == 208 then 16 else if i == 213 then 0x10                    // mapped bytes, address 0x1000
    else if i == 216 then 16 else if i == 220 then 240 else if i == 239 then 0x20 // file bytes, offset, executable
    else 0
  }

  const PE: Buffer := seq(240, i => PeByte(i))

  lemma PeFields()
    ensures |PE| == 240 && U32(PE, 60, true) == 64 && U32(PE, 64, true) == 0x4550 && U16(PE, 68, true) == 0x8664
    ensures U16(PE, 70, true) == 1 && U16(PE, 84, true) == 112 && U16(PE, 86, true) == 2 && U16(PE, 88, true) == 0x20B
    ensures U32(PE, 104, true) == 0x1000 && U32(PE, 144, true) == 0x2000
    ensures SectionAt(PE, 200) == Section(16, 0x1000, 16, 240, 0x2000_0000)
  {
  }

  lemma PeIsKnown(architecture: string)
    ensures PeIdentified(PE, architecture) <==> architecture == "x64"
  {
    PeFields();
    assert HasBit(2, 2) && !HasBit(2, 0x2000);
  }

  lemma PeIsAccepted(size: nat, architecture: string)
    ensures IsNativePe(PE, size, architecture) <==> size >= 256 && architecture == "x64"
  {
    PeFields();
    PeIsKnown(architecture);
    if architecture == "x64" && PeTableInRange(PE, size, architecture) {
      PeSectionHoldsEntry(size);
    }
  }

  lemma PeSectionHoldsEntry(size: nat)
    requires PeIdentified(PE, "x64") && PeTableInRange(PE, size, "x64")
    ensures var p := PeHeaderOf(PE, size, "x64");
            && p == PeHeader(64, 1, 200, 0x1000, 0x2000) && |PE| == 240
            && SectionHoldsEntry(SectionOf(PE, p, 0), p.entry)
            && SectionOf(PE, p, 0).rawOffset + SectionOf(PE, p, 0).rawSize == 256
  {
    PeFields();
    assert HasBit(0x2000_0000, 0x2000_0000);
  }

  // ----- each on its own platform -----

  lemma NoUniversal(h: Buffer, size: nat, architecture: string)
    requires |h| >= 8 && U32(h, 0, false) != 0xCAFEBABE && U32(h, 0, false) != 0xCAFEBABF
    ensures IsNativeDarwin(h, size, architecture) <==> IsNativeMacho(h, size, architecture)
  {
    NoSliceDecides(h, size, architecture);
    assert forall slice :: !SelectsSlice(h, size, architecture, slice);
  }

  /** Each platform takes its own format and no other, and an unknown one takes none. */
  lemma EachOnItsOwnPlatform(size: nat, platform: Platform)
    requires size >= 256
    ensures IsNative(ELF, size, platform, "x64", true) <==> platform == Linux
    ensures IsNative(MACHO, size, platform, "x64", true) <==> platform == Darwin
    ensures IsNative(PE, size, platform, "x64", true) <==> platform == Win32
  {
    ElfIsAccepted(size, "x64", true);
    MachoIsAccepted(size, "x64");
    PeIsAccepted(size, "x64");
    FirstBytes();
    NoUniversal(ELF, size, "x64");
    NoUniversal(MACHO, size, "x64");
    NoUniversal(PE, size, "x64");
  }

  lemma FirstBytes()
    ensures |ELF| >= 8 && |MACHO| >= 8 && |PE| >= 8
    ensures ELF[0] == 0x7F && MACHO[0] == 0xCF && PE[0] == 0x4D
    ensures U32(ELF, 0, false) == 0x7F45_4C46 && U32(MACHO, 0, false) == 0xCFFA_EDFE && U32(PE, 0, false) == 0x4D5A_0000
    ensures U32(ELF, 0, true) != 0xFEEDFACF && U32(PE, 0, true) != 0xFEEDFACF
  {
  }
}
