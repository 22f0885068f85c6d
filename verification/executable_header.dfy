/**
  The native executable checks of src/machine/installed-scheduler-command.ts:
  ELF, Mach-O (universal and thin) and PE. Each check is proved equal to a
  declarative predicate over the header's tables; that every read stays inside
  the buffer is the precondition of the reading functions.
 */
module ExecutableHeader {
  import opened Options
  import opened Binary

  type Buffer = seq<Byte>

  // ----- reading -----

  predicate Fits(h: Buffer, at: int, width: int) {
    0 <= at && at + width <= |h|
  }

  function U16(h: Buffer, at: int, little: bool): (v: nat)
    requires Fits(h, at, 2)
    ensures v < 0x1_0000
  {
    var a: int, b: int := h[at], h[at + 1];
    if little then a + 0x100 * b else 0x100 * a + b
  }

  function U32(h: Buffer, at: int, little: bool): (v: nat)
    requires Fits(h, at, 4)
    ensures v < 0x1_0000_0000
  {
    var low, high := U16(h, if little then at else at + 2, little), U16(h, if little then at + 2 else at, little);
    low + 0x1_0000 * high
  }

  function U64(h: Buffer, at: int, little: bool): (v: nat)
    requires Fits(h, at, 8)
  {
    var low, high := U32(h, if little then at else at + 4, little), U32(h, if little then at + 4 else at, little);
    low + 0x1_0000_0000 * high
  }

  /** Bit `weight` (a power of two) of a field. */
  predicate HasBit(v: nat, weight: nat)
    requires weight > 0
  {
    v / weight % 2 == 1
  }

  // ----- ELF: System V ABI, chapters 4 and 5 -----

  /** The machine number and class of each supported architecture. */
  function ElfTarget(architecture: string): Option<(nat, nat)> {
    if architecture == "ia32" then Some((3, 1))
    else if architecture == "x64" then Some((62, 2))
    else if architecture == "arm" then Some((40, 1))
    else if architecture == "arm64" then Some((183, 2))
    else if architecture == "ppc64" then Some((21, 2))
    else if architecture == "s390x" then Some((22, 2))
    else if architecture == "riscv64" then Some((243, 2))
    else if architecture == "loong64" then Some((258, 2))
    else if architecture == "mips" then Some((8, 1))
    else if architecture == "mipsel" then Some((8, 1))
    else if architecture == "mips64el" then Some((8, 2))
    else None
  }

  /** One entry of the program header table. */
  datatype Segment = Segment(kind: nat, offset: nat, address: nat, fileSize: nat, memorySize: nat, flags: nat)

  function Word(h: Buffer, at: int, wide: bool, little: bool): nat
    requires Fits(h, at, if wide then 8 else 4)
  {
    if wide then U64(h, at, little) else U32(h, at, little)
  }

  function EntrySize(wide: bool): nat { if wide then 56 else 32 }
  function HeaderSize(wide: bool): nat { if wide then 64 else 52 }

  function SegmentAt(h: Buffer, at: int, wide: bool, little: bool): Segment
    requires Fits(h, at, EntrySize(wide))
  {
    if wide then
      Segment(U32(h, at, little), U64(h, at + 8, little), U64(h, at + 16, little), U64(h, at + 32, little),
          U64(h, at + 40, little), U32(h, at + 4, little))
    else
      Segment(U32(h, at, little), U32(h, at + 4, little), U32(h, at + 8, little), U32(h, at + 16, little),
          U32(h, at + 20, little), U32(h, at + 24, little))
  }

  /** The fields of the ELF header the check uses. */
  datatype ElfHeader = ElfHeader(kind: nat, machine: nat, version: nat, entry: nat, table: nat, headerSize: nat,
      entrySize: nat, count: nat)

  function ElfHeaderOf(h: Buffer, wide: bool, little: bool): ElfHeader
    requires HeaderSize(wide) <= |h|
  {
    ElfHeader(U16(h, 16, little), U16(h, 18, little), U32(h, 20, little), Word(h, 24, wide, little),
              Word(h, if wide then 32 else 28, wide, little), U16(h, if wide then 52 else 40, little),
              U16(h, if wide then 54 else 42, little), U16(h, if wide then 56 else 44, little))
  }

  /** The identification bytes name this class, byte order and version. */
  predicate ElfIdentified(h: Buffer, width: nat, little: bool) {
    && |h| >= 52 && h[0] == 0x7F && h[1] == 0x45 && h[2] == 0x4C && h[3] == 0x46
    && h[4] == width && h[5] == (if little then 1 else 2) && h[6] == 1
  }

  /** The header describes an executable whose whole table lies in the file and in the buffer. */
  predicate ElfTableInRange(h: Buffer, size: nat, e: ElfHeader, machine: nat, wide: bool) {
    && (e.kind == 2 || e.kind == 3) && e.machine == machine && e.version == 1 && e.entry != 0
    && e.headerSize == HeaderSize(wide) && e.entrySize == EntrySize(wide) && e.count != 0
    && e.table >= HeaderSize(wide) && e.table + e.entrySize * e.count <= size && e.table + e.entrySize * e.count <= |h|
  }

  ghost predicate InFile(s: Segment, size: nat) {
    s.offset + s.fileSize <= size && s.fileSize <= s.memorySize
  }

  ghost predicate HoldsEntry(s: Segment, entry: nat) {
    HasBit(s.flags, 1) && s.address <= entry < s.address + s.fileSize
  }

  function SegmentOf(h: Buffer, e: ElfHeader, i: nat, wide: bool, little: bool): Segment
    requires i < e.count && e.entrySize == EntrySize(wide) && e.table + e.entrySize * e.count <= |h|
  {
    EntryInTable(e.table, e.entrySize, e.count, i);
    SegmentAt(h, e.table + i * e.entrySize, wide, little)
  }

  lemma EntryInTable(table: nat, entrySize: nat, count: nat, i: nat)
    requires i < count
    ensures 0 <= i * entrySize && table + i * entrySize + entrySize <= table + entrySize * count
  {
    assert entrySize * (count - i - 1) >= 0;
    assert entrySize * count == i * entrySize + entrySize + entrySize * (count - i - 1);
  }

  /** The declarative meaning of the ELF check. */
  ghost predicate IsNativeElf(h: Buffer, size: nat, architecture: string, little: bool) {
    && ElfTarget(architecture).Some?
    && var (machine, width) := ElfTarget(architecture).value;
       var wide := width == 2;
       ElfIdentified(h, width, little) && HeaderSize(wide) <= |h|
       && var e := ElfHeaderOf(h, wide, little);
          ElfTableInRange(h, size, e, machine, wide)
          && (forall i :: 0 <= i < e.count && SegmentOf(h, e, i, wide, little).kind == 1 ==>
              InFile(SegmentOf(h, e, i, wide, little), size))
          && exists i :: 0 <= i < e.count && SegmentOf(h, e, i, wide, little).kind == 1
                         && HoldsEntry(SegmentOf(h, e, i, wide, little), e.entry)
  }

  method LinuxExecutableHeader(h: Buffer, size: nat, architecture: string, little: bool) returns (accepts: bool)
    ensures accepts <==> IsNativeElf(h, size, architecture, little)
  {
    var target := ElfTarget(architecture);
    if target.None? || !ElfIdentified(h, target.value.1, little) {
      return false;
    }
    var wide := target.value.1 == 2;
    if |h| < HeaderSize(wide) {
      return false;
    }
    var e := ElfHeaderOf(h, wide, little);
    if !ElfTableInRange(h, size, e, target.value.0, wide) {
      return false;
    }
    accepts := false;
    for i := 0 to e.count
      invariant forall k :: 0 <= k < i && SegmentOf(h, e, k, wide, little).kind == 1 ==>
                  InFile(SegmentOf(h, e, k, wide, little), size)
      invariant accepts <==>
                  exists k :: 0 <= k < i && SegmentOf(h, e, k, wide, little).kind == 1
                              && HoldsEntry(SegmentOf(h, e, k, wide, little), e.entry)
    {
      var s := SegmentOf(h, e, i, wide, little);
      if s.kind == 1 {
        if s.offset + s.fileSize > size || s.fileSize > s.memorySize {
          return false;
        }
        if HasBit(s.flags, 1) && e.entry >= s.address && e.entry < s.address + s.fileSize {
          accepts := true;
        }
      }
    }
  }

  /** An accepted ELF image's entry point is a byte of the file, inside an
      executable loadable segment of its own table. */
  lemma ElfEntryIsInFile(h: Buffer, size: nat, architecture: string, little: bool) returns (i: nat, at: nat)
    requires IsNativeElf(h, size, architecture, little)
    ensures var wide := ElfTarget(architecture).value.1 == 2;
            var e := ElfHeaderOf(h, wide, little);
            i < e.count
            && var s := SegmentOf(h, e, i, wide, little);
               s.kind == 1 && HasBit(s.flags, 1) && s.offset <= at < s.offset + s.fileSize <= size
               && at - s.offset == e.entry - s.address
  {
    var (machine, width) := ElfTarget(architecture).value;
    var wide := width == 2;
    var e := ElfHeaderOf(h, wide, little);
    i :| 0 <= i < e.count && SegmentOf(h, e, i, wide, little).kind == 1
        && HoldsEntry(SegmentOf(h, e, i, wide, little), e.entry);
    var s := SegmentOf(h, e, i, wide, little);
    at := s.offset + (e.entry - s.address);
  }

  // ----- Mach-O -----

  function MachoCpu(architecture: string): Option<nat> {
    if architecture == "x64" then Some(0x01000007) else if architecture == "arm64" then Some(0x0100000C) else None
  }

  datatype Slice = Slice(offset: nat, size: nat)

  /** One architecture of a universal table: its CPU and its slice. */
  function ArchitectureAt(h: Buffer, at: int, stride: nat): (nat, Slice)
    requires (stride == 20 || stride == 32) && Fits(h, at, stride)
  {
    if stride == 20 then (U32(h, at, false), Slice(U32(h, at + 8, false), U32(h, at + 12, false)))
    else (U32(h, at, false), Slice(U64(h, at + 8, false), U64(h, at + 16, false)))
  }

  function Stride(h: Buffer): nat
    requires |h| >= 8
  {
    if U32(h, 0, false) == 0xCAFEBABE then 20 else 32
  }

  predicate IsUniversal(h: Buffer) {
    && |h| >= 8 && (U32(h, 0, false) == 0xCAFEBABE || U32(h, 0, false) == 0xCAFEBABF)
    && 0 < U32(h, 4, false) <= 32 && 8 + U32(h, 4, false) * Stride(h) <= |h|
  }

  function ArchitectureOf(h: Buffer, i: nat): (nat, Slice)
    requires IsUniversal(h) && i < U32(h, 4, false)
  {
    EntryInTable(8, Stride(h), U32(h, 4, false), i);
    ArchitectureAt(h, 8 + i * Stride(h), Stride(h))
  }

  predicate SliceFits(h: Buffer, size: nat, s: Slice)
    requires IsUniversal(h)
  {
    32 <= s.size && 8 + U32(h, 4, false) * Stride(h) <= s.offset && s.offset + s.size <= size
  }

  /** Every slice of the table lies in the file, behind the table. */
  ghost predicate AllSlicesFit(h: Buffer, size: nat)
    requires IsUniversal(h)
  {
    forall i :: 0 <= i < U32(h, 4, false) ==> SliceFits(h, size, ArchitectureOf(h, i).1)
  }

  /** The universal table of a file names a slice for this architecture. */
  ghost predicate SelectsSlice(h: Buffer, size: nat, architecture: string, slice: Slice) {
    && MachoCpu(architecture).Some? && IsUniversal(h) && AllSlicesFit(h, size)
    && exists i :: 0 <= i < U32(h, 4, false) && ArchitectureOf(h, i) == (MachoCpu(architecture).value, slice)
         && forall k :: 0 <= k < i ==> ArchitectureOf(h, k).0 != MachoCpu(architecture).value
  }

  /** The first slice for this CPU; none unless the whole table is in range. */
  method MachoUniversalSlice(h: Buffer, size: nat, architecture: string) returns (selected: Option<Slice>)
    ensures selected.Some? ==> SelectsSlice(h, size, architecture, selected.value)
    ensures selected.None? ==> forall slice :: !SelectsSlice(h, size, architecture, slice)
    ensures selected.Some? ==> selected.value.offset + selected.value.size <= size
  {
    var cpu := MachoCpu(architecture);
    if |h| < 8 || cpu.None? || !IsUniversal(h) {
      return None;
    }
    selected := None;
    for i := 0 to U32(h, 4, false)
      invariant forall k :: 0 <= k < i ==> SliceFits(h, size, ArchitectureOf(h, k).1)
      invariant selected.None? ==> forall k :: 0 <= k < i ==> ArchitectureOf(h, k).0 != cpu.value
      invariant selected.Some? ==>
                  exists k :: 0 <= k < i && ArchitectureOf(h, k) == (cpu.value, selected.value)
                              && forall j :: 0 <= j < k ==> ArchitectureOf(h, j).0 != cpu.value
    {
      var (kind, slice) := ArchitectureOf(h, i);
      if !SliceFits(h, size, slice) {
        return None;
      }
      if kind == cpu.value && selected.None? {
        selected := Some(slice);
      }
    }
  }

  const LC_MAIN: nat := 0x8000_0028
  const LC_SEGMENT_64: nat := 0x19

  predicate MachoIdentified(h: Buffer, size: nat, cpu: nat) {
    && |h| >= 32 && U32(h, 0, true) == 0xFEEDFACF && U32(h, 4, true) == cpu && U32(h, 12, true) == 2
    && U32(h, 16, true) != 0 && 8 * U32(h, 16, true) <= U32(h, 20, true)
    && 32 + U32(h, 20, true) <= |h| && 32 + U32(h, 20, true) <= size
  }

  function CommandsEnd(h: Buffer): nat
    requires |h| >= 32
  {
    32 + U32(h, 20, true)
  }

  /** A load command at `at` is whole and well formed. */
  predicate CommandFits(h: Buffer, at: int, end: nat)
    requires end <= |h|
  {
    && 0 <= at && at + 8 <= end
    && U32(h, at + 4, true) >= 8 && U32(h, at + 4, true) % 8 == 0 && at + U32(h, at + 4, true) <= end
  }

  /** One load command. Only an entry command of the right size has an entry
      offset, and only a segment command long enough has segment fields. */
  datatype LoadCommand = LoadCommand(kind: nat, length: nat, entry: nat, segment: Slice, memorySize: nat,
      executable: bool, sections: nat)

  function CommandAt(h: Buffer, at: int, end: nat): LoadCommand
    requires end <= |h| && CommandFits(h, at, end)
  {
    var kind, length := U32(h, at, true), U32(h, at + 4, true);
    if kind == LC_MAIN && length == 24 then LoadCommand(kind, length, U64(h, at + 8, true), Slice(0, 0), 0, false, 0)
    else if kind == LC_SEGMENT_64 && length >= 72 then
      LoadCommand(kind, length, 0, Slice(U64(h, at + 40, true), U64(h, at + 48, true)), U64(h, at + 32, true),
                  HasBit(U32(h, at + 60, true), 4), U32(h, at + 64, true))
    else LoadCommand(kind, length, 0, Slice(0, 0), 0, false, 0)
  }

  /** The next `n` load commands from `at` and where they end, if all are whole. */
  function ReadCommands(h: Buffer, at: nat, end: nat, n: nat): Option<(seq<LoadCommand>, nat)>
    requires end <= |h|
    decreases n
  {
    if n == 0 then Some(([], at))
    else if !CommandFits(h, at, end) then None
    else
      var first := CommandAt(h, at, end);
      var rest := ReadCommands(h, at + first.length, end, n - 1);
      if rest.None? then None else Some(([first] + rest.value.0, rest.value.1))
  }

  /** An entry command has its one size; a segment holds its sections, and its
      bytes lie in the file. */
  predicate CommandAdmissible(c: LoadCommand, size: nat) {
    && (c.kind == LC_MAIN ==> c.length == 24)
    && (c.kind == LC_SEGMENT_64 ==>
          c.length >= 72 && 72 + c.sections * 80 <= c.length
          && c.segment.offset + c.segment.size <= size && c.segment.size <= c.memorySize)
  }

  ghost predicate CommandsAdmissible(cs: seq<LoadCommand>, size: nat) {
    && (forall c :: c in cs ==> CommandAdmissible(c, size))
    && forall i, j :: 0 <= i < j < |cs| ==> !(cs[i].kind == LC_MAIN && cs[j].kind == LC_MAIN)
  }

  predicate HoldsOffset(c: LoadCommand, offset: nat) {
    c.kind == LC_SEGMENT_64 && c.executable && c.segment.offset <= offset < c.segment.offset + c.segment.size
  }

  /** Some command names an entry offset behind the commands, and an executable
      segment's file bytes hold it. */
  ghost predicate EntryIsExecutable(cs: seq<LoadCommand>, end: nat) {
    exists m, c :: m in cs && c in cs && m.kind == LC_MAIN && end <= m.entry && HoldsOffset(c, m.entry)
  }

  /** The declarative meaning of the thin Mach-O check: the load commands fill
      their area exactly, each is admissible, and the entry is executable. */
  ghost predicate IsNativeMacho(h: Buffer, size: nat, architecture: string) {
    && MachoCpu(architecture).Some? && MachoIdentified(h, size, MachoCpu(architecture).value)
    && var commands := ReadCommands(h, 32, CommandsEnd(h), U32(h, 16, true));
       commands.Some? && commands.value.1 == CommandsEnd(h)
       && CommandsAdmissible(commands.value.0, size) && EntryIsExecutable(commands.value.0, CommandsEnd(h))
  }

  /** What the loop keeps of the commands read: the entry they name and the
      executable file ranges they declare. */
  ghost predicate Collected(cs: seq<LoadCommand>, entry: Option<nat>, ranges: seq<Slice>) {
    && (entry.None? ==> forall m :: m in cs ==> m.kind != LC_MAIN)
    && (entry.Some? ==> exists m :: m in cs && m.kind == LC_MAIN && m.entry == entry.value)
    && (forall r :: r in ranges <==> exists c :: c in cs && c.kind == LC_SEGMENT_64 && c.executable && c.segment == r)
  }

  lemma CollectedOneMore(cs: seq<LoadCommand>, c: LoadCommand, size: nat, entry: Option<nat>, ranges: seq<Slice>)
    requires CommandsAdmissible(cs, size) && Collected(cs, entry, ranges)
    requires CommandAdmissible(c, size) && (c.kind == LC_MAIN ==> entry.None?)
    ensures CommandsAdmissible(cs + [c], size)
    ensures Collected(cs + [c], if c.kind == LC_MAIN then Some(c.entry) else entry,
                      if c.kind == LC_SEGMENT_64 && c.executable then ranges + [c.segment] else ranges)
  {
    var more := cs + [c];
    assert forall m :: m in more <==> m in cs || m == c;
    assert forall i :: 0 <= i < |cs| ==> cs[i] in cs && more[i] == cs[i];
  }

  /** A program state that fails a check leaves no admissible continuation. */
  lemma InadmissibleStops(
      cs: seq<LoadCommand>, c: LoadCommand, rest: seq<LoadCommand>, size: nat, entry: Option<nat>, ranges: seq<Slice>)
    requires Collected(cs, entry, ranges)
    requires !CommandAdmissible(c, size) || (c.kind == LC_MAIN && entry.Some?)
    ensures !CommandsAdmissible(cs + ([c] + rest), size)
  {
    var all := cs + ([c] + rest);
    assert all[|cs|] == c && c in all;
    if entry.Some? {
      var m :| m in cs && m.kind == LC_MAIN && m.entry == entry.value;
      var i :| 0 <= i < |cs| && cs[i] == m;
      assert all[i] == m;
    }
  }

  lemma CollectedDecides(cs: seq<LoadCommand>, end: nat, size: nat, entry: Option<nat>, ranges: seq<Slice>)
    requires CommandsAdmissible(cs, size) && Collected(cs, entry, ranges)
    ensures EntryIsExecutable(cs, end)
      <==> entry.Some? && entry.value >= end && exists r :: r in ranges && r.offset <= entry.value < r.offset + r.size
  {
    if EntryIsExecutable(cs, end) {
      var m, c :| m in cs && c in cs && m.kind == LC_MAIN && end <= m.entry && HoldsOffset(c, m.entry);
      var n :| n in cs && n.kind == LC_MAIN && n.entry == entry.value;
      var i :| 0 <= i < |cs| && cs[i] == m;
      var j :| 0 <= j < |cs| && cs[j] == n;
      assert i == j;
      assert c.segment in ranges;
    }
    if entry.Some? && entry.value >= end && exists r :: r in ranges && r.offset <= entry.value < r.offset + r.size {
      var r :| r in ranges && r.offset <= entry.value < r.offset + r.size;
      var c :| c in cs && c.kind == LC_SEGMENT_64 && c.executable && c.segment == r;
      assert HoldsOffset(c, entry.value);
    }
  }

  /** The program's loop over the load commands. */
  method CollectCommands(h: Buffer, end: nat, count: nat, size: nat)
      returns (ok: bool, at: nat, entry: Option<nat>, ranges: seq<Slice>, ghost cs: seq<LoadCommand>)
    requires end <= |h|
    ensures ok ==> ReadCommands(h, 32, end, count) == Some((cs, at))
    ensures ok ==> CommandsAdmissible(cs, size) && Collected(cs, entry, ranges)
    ensures !ok && ReadCommands(h, 32, end, count).Some? ==>
              !CommandsAdmissible(ReadCommands(h, 32, end, count).value.0, size)
  {
    at, entry, ranges, cs := 32, None, [], [];
    for k := 0 to count
      invariant ReadCommands(h, 32, end, count) == Continue(cs, ReadCommands(h, at, end, count - k))
      invariant CommandsAdmissible(cs, size) && Collected(cs, entry, ranges)
    {
      if !CommandFits(h, at, end) {
        return false, at, entry, ranges, cs;
      }
      var c := CommandAt(h, at, end);
      ghost var rest := ReadCommands(h, at + c.length, end, count - k - 1);
      ContinueOne(cs, c, rest);
      ok, entry, ranges := CollectCommand(c, size, entry, ranges, cs);
      if !ok {
        return;
      }
      cs := cs + [c];
      at := at + c.length;
    }
    assert cs + [] == cs;
    ok := true;
  }

  /** One turn of the loop: the command is refused for good, or collected. */
  method CollectCommand(c: LoadCommand, size: nat, before: Option<nat>, found: seq<Slice>, ghost cs: seq<LoadCommand>)
      returns (ok: bool, entry: Option<nat>, ranges: seq<Slice>)
    requires CommandsAdmissible(cs, size) && Collected(cs, before, found)
    ensures ok ==> CommandsAdmissible(cs + [c], size) && Collected(cs + [c], entry, ranges)
    ensures !ok ==> forall rest :: !CommandsAdmissible(cs + ([c] + rest), size)
  {
    entry, ranges := before, found;
    if !CommandAdmissible(c, size) || (c.kind == LC_MAIN && entry.Some?) {
      forall rest
        ensures !CommandsAdmissible(cs + ([c] + rest), size)
      {
        InadmissibleStops(cs, c, rest, size, entry, ranges);
      }
      ok := false;
      return;
    }
    CollectedOneMore(cs, c, size, entry, ranges);
    if c.kind == LC_MAIN {
      entry := Some(c.entry);
    }
    if c.kind == LC_SEGMENT_64 && c.executable {
      ranges := ranges + [c.segment];
    }
    ok := true;
  }

  method MachoThinExecutableHeader(h: Buffer, size: nat, architecture: string) returns (accepts: bool)
    ensures accepts <==> IsNativeMacho(h, size, architecture)
  {
    var cpu := MachoCpu(architecture);
    if cpu.None? || !MachoIdentified(h, size, cpu.value) {
      return false;
    }
    var end := CommandsEnd(h);
    var ok, at, entry, ranges, cs := CollectCommands(h, end, U32(h, 16, true), size);
    if !ok {
      return false;
    }
    CollectedDecides(cs, end, size, entry, ranges);
    accepts := at == end && entry.Some? && entry.value >= end
      && exists r | r in ranges :: entry.value >= r.offset && entry.value < r.offset + r.size;
  }

  ghost function Continue(
      cs: seq<LoadCommand>, rest: Option<(seq<LoadCommand>, nat)>): Option<(seq<LoadCommand>, nat)> {
    if rest.None? then None else if cs == [] then rest else Some((cs + rest.value.0, rest.value.1))
  }

  lemma ContinueOne(cs: seq<LoadCommand>, c: LoadCommand, rest: Option<(seq<LoadCommand>, nat)>)
    ensures rest.Some? ==> Continue(cs, Some(([c] + rest.value.0, rest.value.1))) == Continue(cs + [c], rest)
    ensures rest.Some? ==> Continue(cs, Some(([c] + rest.value.0, rest.value.1))).value.0 == cs + ([c] + rest.value.0)
  {
    assert cs + [c] != [];
    if rest.Some? {
      assert cs == [] ==> cs + [c] == [c];
      assert cs + ([c] + rest.value.0) == cs + [c] + rest.value.0;
    }
  }

  /** The commands of an accepted image name one entry offset. It is a byte of the
      file, behind the load commands and inside an executable segment they declare. */
  lemma MachoEntryIsInFile(h: Buffer, size: nat, architecture: string) returns (m: LoadCommand, c: LoadCommand)
    requires IsNativeMacho(h, size, architecture)
    ensures var cs := ReadCommands(h, 32, CommandsEnd(h), U32(h, 16, true)).value.0;
            m in cs && c in cs && m.kind == LC_MAIN && c.kind == LC_SEGMENT_64 && c.executable
            && forall n :: n in cs && n.kind == LC_MAIN ==> n == m
    ensures CommandsEnd(h) <= m.entry && c.segment.offset <= m.entry < c.segment.offset + c.segment.size <= size
  {
    var cs := ReadCommands(h, 32, CommandsEnd(h), U32(h, 16, true)).value.0;
    m, c :| m in cs && c in cs && m.kind == LC_MAIN && CommandsEnd(h) <= m.entry && HoldsOffset(c, m.entry);
    OneEntryCommand(cs, size, m);
  }

  lemma OneEntryCommand(cs: seq<LoadCommand>, size: nat, m: LoadCommand)
    requires CommandsAdmissible(cs, size) && m in cs && m.kind == LC_MAIN
    ensures forall n :: n in cs && n.kind == LC_MAIN ==> n == m
  {
    var i :| 0 <= i < |cs| && cs[i] == m;
    forall n | n in cs && n.kind == LC_MAIN
      ensures n == m
    {
      var j :| 0 <= j < |cs| && cs[j] == n;
      assert i == j;
    }
  }

  // ----- PE -----

  function PeMachine(architecture: string): Option<nat> {
    if architecture == "x64" then Some(0x8664)
    else if architecture == "arm64" then Some(0xAA64)
    else if architecture == "ia32" then Some(0x14C)
    else None
  }

  /** One section of the table. */
  datatype Section = Section(virtualSize: nat, address: nat, rawSize: nat, rawOffset: nat, flags: nat)

  function SectionAt(h: Buffer, at: int): Section
    requires Fits(h, at, 40)
  {
    Section(U32(h, at + 8, true), U32(h, at + 12, true), U32(h, at + 16, true), U32(h, at + 20, true),
        U32(h, at + 36, true))
  }

  /** The fields of the PE headers the check uses. */
  datatype PeHeader = PeHeader(offset: nat, count: nat, table: nat, entry: nat, imageSize: nat)

  predicate PeIdentified(h: Buffer, architecture: string) {
    && PeMachine(architecture).Some? && |h| >= 64 && h[0] == 0x4D && h[1] == 0x5A
    && var offset := U32(h, 60, true);
       64 <= offset && offset + 26 <= |h| && U32(h, offset, true) == 0x0000_4550
       && U16(h, offset + 4, true) == PeMachine(architecture).value
       && HasBit(U16(h, offset + 22, true), 0x0002) && !HasBit(U16(h, offset + 22, true), 0x2000)
       && U16(h, offset + 24, true) == (if architecture == "ia32" then 0x10B else 0x20B)
  }

  /** The optional header is long enough and the section table lies in the file and the buffer. */
  predicate PeTableInRange(h: Buffer, size: nat, architecture: string)
    requires PeIdentified(h, architecture)
  {
    var offset := U32(h, 60, true);
    var optionalSize, count := U16(h, offset + 20, true), U16(h, offset + 6, true);
    var end := offset + 24 + optionalSize + count * 40;
    optionalSize >= (if architecture == "ia32" then 96 else 112) && count != 0 && end <= size && end <= |h|
  }

  function PeHeaderOf(h: Buffer, size: nat, architecture: string): PeHeader
    requires PeIdentified(h, architecture) && PeTableInRange(h, size, architecture)
  {
    var offset := U32(h, 60, true);
    PeHeader(offset, U16(h, offset + 6, true), offset + 24 + U16(h, offset + 20, true), U32(h, offset + 40, true),
        U32(h, offset + 80, true))
  }

  function SectionOf(h: Buffer, p: PeHeader, i: nat): Section
    requires i < p.count && p.table + p.count * 40 <= |h|
  {
    SectionAt(h, p.table + i * 40)
  }

  function Smaller(a: nat, b: nat): nat { if a <= b then a else b }

  /** The bytes of a section that are both in the file and mapped. */
  function MappedSize(s: Section): nat {
    Smaller(s.rawSize, if s.virtualSize != 0 then s.virtualSize else s.rawSize)
  }

  predicate SectionHoldsEntry(s: Section, entry: nat) {
    HasBit(s.flags, 0x2000_0000) && s.address <= entry < s.address + MappedSize(s)
  }

  /** The declarative meaning of the PE check. */
  ghost predicate IsNativePe(h: Buffer, size: nat, architecture: string) {
    && PeIdentified(h, architecture) && PeTableInRange(h, size, architecture)
    && var p := PeHeaderOf(h, size, architecture);
       p.entry != 0 && p.entry < p.imageSize
       && (forall i :: 0 <= i < p.count ==> SectionOf(h, p, i).rawOffset + SectionOf(h, p, i).rawSize <= size)
       && exists i :: 0 <= i < p.count && SectionHoldsEntry(SectionOf(h, p, i), p.entry)
  }

  method WindowsExecutableHeader(h: Buffer, size: nat, architecture: string) returns (accepts: bool)
    ensures accepts <==> IsNativePe(h, size, architecture)
  {
    if !PeIdentified(h, architecture) || !PeTableInRange(h, size, architecture) {
      return false;
    }
    var p := PeHeaderOf(h, size, architecture);
    if p.entry == 0 || p.entry >= p.imageSize {
      return false;
    }
    accepts := false;
    for i := 0 to p.count
      invariant forall k :: 0 <= k < i ==> SectionOf(h, p, k).rawOffset + SectionOf(h, p, k).rawSize <= size
      invariant accepts <==> exists k :: 0 <= k < i && SectionHoldsEntry(SectionOf(h, p, k), p.entry)
    {
      var s := SectionOf(h, p, i);
      if s.rawOffset + s.rawSize > size {
        return false;
      }
      if SectionHoldsEntry(s, p.entry) {
        accepts := true;
      }
    }
  }

  /** An accepted PE image's entry point is a byte of the file, inside the mapped
      bytes of an executable section of its own table. */
  lemma PeEntryIsInFile(h: Buffer, size: nat, architecture: string) returns (i: nat, at: nat)
    requires IsNativePe(h, size, architecture)
    ensures var p := PeHeaderOf(h, size, architecture);
            i < p.count
            && var s := SectionOf(h, p, i);
               HasBit(s.flags, 0x2000_0000) && s.rawOffset <= at < s.rawOffset + MappedSize(s)
               && s.rawOffset + s.rawSize <= size && at - s.rawOffset == p.entry - s.address
  {
    var p := PeHeaderOf(h, size, architecture);
    i :| 0 <= i < p.count && SectionHoldsEntry(SectionOf(h, p, i), p.entry);
    var s := SectionOf(h, p, i);
    at := s.rawOffset + (p.entry - s.address);
  }

  // ----- the platform check -----

  datatype Platform = Linux | Darwin | Win32 | OtherPlatform

  /** `Buffer.subarray`, clamped to the buffer. */
  function Subarray(h: Buffer, from: nat, to: nat): Buffer
    requires from <= to
  {
    h[Smaller(from, |h|)..Smaller(to, |h|)]
  }

  ghost predicate SliceIsNative(h: Buffer, architecture: string, slice: Slice) {
    IsNativeMacho(Subarray(h, slice.offset, slice.offset + slice.size), slice.size, architecture)
  }

  /** On macOS a universal file is judged by its first slice for the
      architecture, and any other file as a thin image. */
  ghost predicate IsNativeDarwin(h: Buffer, size: nat, architecture: string) {
    if exists slice :: SelectsSlice(h, size, architecture, slice)
    then exists slice :: SelectsSlice(h, size, architecture, slice) && SliceIsNative(h, architecture, slice)
    else IsNativeMacho(h, size, architecture)
  }

  ghost predicate IsNative(h: Buffer, size: nat, platform: Platform, architecture: string, little: bool) {
    match platform
    case Linux => IsNativeElf(h, size, architecture, little)
    case Darwin => IsNativeDarwin(h, size, architecture)
    case Win32 => IsNativePe(h, size, architecture)
    case OtherPlatform => false
  }

  method DarwinExecutableHeader(h: Buffer, size: nat, architecture: string) returns (accepts: bool)
    ensures accepts <==> IsNativeDarwin(h, size, architecture)
  {
    var slice := MachoUniversalSlice(h, size, architecture);
    NoSliceDecides(h, size, architecture);
    if slice.None? {
      accepts := MachoThinExecutableHeader(h, size, architecture);
    } else {
      accepts := MachoSliceExecutableHeader(h, slice.value, architecture);
      SelectedSliceDecides(h, size, architecture, slice.value);
    }
  }

  method MachoSliceExecutableHeader(h: Buffer, slice: Slice, architecture: string) returns (accepts: bool)
    ensures accepts <==> SliceIsNative(h, architecture, slice)
  {
    accepts := MachoThinExecutableHeader(Subarray(h, slice.offset, slice.offset + slice.size), slice.size,
        architecture);
  }

  lemma NoSliceDecides(h: Buffer, size: nat, architecture: string)
    ensures (forall slice :: !SelectsSlice(h, size, architecture, slice)) ==>
              (IsNativeDarwin(h, size, architecture) <==> IsNativeMacho(h, size, architecture))
  {
  }

  lemma SelectedSliceDecides(h: Buffer, size: nat, architecture: string, slice: Slice)
    requires SelectsSlice(h, size, architecture, slice)
    ensures IsNativeDarwin(h, size, architecture) <==> SliceIsNative(h, architecture, slice)
  {
    OneSliceSelected(h, size, architecture);
  }

  method NativeExecutableHeader(
      h: Buffer, size: nat, platform: Platform, architecture: string, little: bool) returns (accepts: bool)
    ensures accepts <==> IsNative(h, size, platform, architecture, little)
  {
    match platform
    case Linux => accepts := LinuxExecutableHeader(h, size, architecture, little);
    case Darwin => accepts := DarwinExecutableHeader(h, size, architecture);
    case Win32 => accepts := WindowsExecutableHeader(h, size, architecture);
    case OtherPlatform => accepts := false;
  }

  lemma OneSliceSelected(h: Buffer, size: nat, architecture: string)
    ensures forall a, b :: SelectsSlice(h, size, architecture, a) && SelectsSlice(h, size, architecture, b) ==> a == b
  {
    forall a, b | SelectsSlice(h, size, architecture, a) && SelectsSlice(h, size, architecture, b)
      ensures a == b
    {
      var cpu := MachoCpu(architecture).value;
      var i :| 0 <= i < U32(h, 4, false) && ArchitectureOf(h, i) == (cpu, a)
               && forall k :: 0 <= k < i ==> ArchitectureOf(h, k).0 != cpu;
      var j :| 0 <= j < U32(h, 4, false) && ArchitectureOf(h, j) == (cpu, b)
               && forall k :: 0 <= k < j ==> ArchitectureOf(h, k).0 != cpu;
      assert ArchitectureOf(h, i).0 == cpu && ArchitectureOf(h, j).0 == cpu;
      assert !(i < j) && !(j < i);
    }
  }
}
