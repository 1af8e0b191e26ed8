/** A minimal ELF reader: the identification bytes, the ELF header fields
    located by prefix sums of their widths, and the section-header table with
    names resolved through the section-name string table. The bit width that
    the reader keeps in process-wide variables is a `bits` parameter here:
    32 selects the 32-bit layouts, any other value the 64-bit ones. */
module ElfReader {
  import opened Bytes

  // ---------------------------------------------------------------------
  // ELF header layout

  /** Byte widths of the fourteen ELF header fields, e_ident first. */
  const Elf32Widths: seq<nat> := [16, 2, 2, 4, 4, 4, 4, 4, 2, 2, 2, 2, 2, 2]
  const Elf64Widths: seq<nat> := [16, 2, 2, 4, 8, 8, 8, 4, 2, 2, 2, 2, 2, 2]

  datatype HeaderField =
    | EIdent | EType | EMachine | EVersion | EEntry | EPhoff | EShoff
    | EFlags | EEhsize | EPhentsize | EPhnum | EShentsize | EShnum | EShstrndx

  /** Position of a field in the width lists. */
  function FieldIndex(f: HeaderField): (i: nat)
    ensures i < 14
  {
    match f
    case EIdent => 0
    case EType => 1
    case EMachine => 2
    case EVersion => 3
    case EEntry => 4
    case EPhoff => 5
    case EShoff => 6
    case EFlags => 7
    case EEhsize => 8
    case EPhentsize => 9
    case EPhnum => 10
    case EShentsize => 11
    case EShnum => 12
    case EShstrndx => 13
  }

  /** Byte widths of the ten section-header entry fields, sh_name first. */
  const Sh32Widths: seq<nat> := [4, 4, 4, 4, 4, 4, 4, 4, 4, 4]
  const Sh64Widths: seq<nat> := [4, 4, 8, 8, 8, 8, 4, 4, 8, 8]

  const ShNameField: nat := 0
  const ShOffsetField: nat := 4
  const ShSizeField: nat := 5

  function HeaderLayout(bits: int): (ws: seq<nat>)
    ensures |ws| == 14
  {
    if bits == 32 then Elf32Widths else Elf64Widths
  }

  function ShLayout(bits: int): (ws: seq<nat>)
    ensures |ws| == 10
  {
    if bits == 32 then Sh32Widths else Sh64Widths
  }

  /** Sum of the first n widths: the offset of field n in its layout. */
  function PrefixSum(ws: seq<nat>, n: nat): nat
    requires n <= |ws|
  {
    if n == 0 then 0 else PrefixSum(ws, n - 1) + ws[n - 1]
  }

  function Sum(ws: seq<nat>): nat
  {
    PrefixSum(ws, |ws|)
  }

  /** A field never reaches past the end of the layout it belongs to. */
  lemma {:induction false} FieldWithinLayout(ws: seq<nat>, i: nat, n: nat)
    requires i < n <= |ws|
    ensures PrefixSum(ws, i) + ws[i] <= PrefixSum(ws, n)
  {
    if i + 1 < n {
      FieldWithinLayout(ws, i, n - 1);
    }
  }

  /** Offset of a header field: the sum of the widths before it. */
  function HeaderOffset(bits: int, f: HeaderField): nat
  {
    PrefixSum(HeaderLayout(bits), FieldIndex(f))
  }

  function HeaderWidth(bits: int, f: HeaderField): nat
  {
    HeaderLayout(bits)[FieldIndex(f)]
  }

  /** `sums` lists the running totals of `ws`, so it gives every prefix sum. */
  lemma {:induction false} PrefixSumsFromTable(ws: seq<nat>, sums: seq<nat>, n: nat)
    requires |sums| == |ws| + 1 && sums[0] == 0
    requires forall i :: 0 <= i < |ws| ==> sums[i + 1] == sums[i] + ws[i]
    requires n <= |ws|
    ensures PrefixSum(ws, n) == sums[n]
  {
    if n > 0 { PrefixSumsFromTable(ws, sums, n - 1); }
  }

  /** The field offsets of all four layouts. */
  lemma LayoutOffsets()
    ensures forall n :: 0 <= n <= 14 ==>
      PrefixSum(Elf32Widths, n) == [0, 16, 18, 20, 24, 28, 32, 36, 40, 42, 44, 46, 48, 50, 52][n]
    ensures forall n :: 0 <= n <= 14 ==>
      PrefixSum(Elf64Widths, n) == [0, 16, 18, 20, 24, 32, 40, 48, 52, 54, 56, 58, 60, 62, 64][n]
    ensures forall n :: 0 <= n <= 10 ==>
      PrefixSum(Sh32Widths, n) == [0, 4, 8, 12, 16, 20, 24, 28, 32, 36, 40][n]
    ensures forall n :: 0 <= n <= 10 ==>
      PrefixSum(Sh64Widths, n) == [0, 4, 8, 16, 24, 32, 40, 44, 48, 56, 64][n]
  {
    forall n | 0 <= n <= 14 ensures
      PrefixSum(Elf32Widths, n) == [0, 16, 18, 20, 24, 28, 32, 36, 40, 42, 44, 46, 48, 50, 52][n] {
      PrefixSumsFromTable(Elf32Widths, [0, 16, 18, 20, 24, 28, 32, 36, 40, 42, 44, 46, 48, 50, 52], n);
    }
    forall n | 0 <= n <= 14 ensures
      PrefixSum(Elf64Widths, n) == [0, 16, 18, 20, 24, 32, 40, 48, 52, 54, 56, 58, 60, 62, 64][n] {
      PrefixSumsFromTable(Elf64Widths, [0, 16, 18, 20, 24, 32, 40, 48, 52, 54, 56, 58, 60, 62, 64], n);
    }
    forall n | 0 <= n <= 10 ensures
      PrefixSum(Sh32Widths, n) == [0, 4, 8, 12, 16, 20, 24, 28, 32, 36, 40][n] {
      PrefixSumsFromTable(Sh32Widths, [0, 4, 8, 12, 16, 20, 24, 28, 32, 36, 40], n);
    }
    forall n | 0 <= n <= 10 ensures
      PrefixSum(Sh64Widths, n) == [0, 4, 8, 16, 24, 32, 40, 44, 48, 56, 64][n] {
      PrefixSumsFromTable(Sh64Widths, [0, 4, 8, 16, 24, 32, 40, 44, 48, 56, 64], n);
    }
  }

  /** Both width lists add up to the ELF header size of their class. */
  lemma LayoutSizes()
    ensures Sum(Elf32Widths) == 52 && Sum(Elf64Widths) == 64
    ensures Sum(Sh32Widths) == 40 && Sum(Sh64Widths) == 64
  {
    LayoutOffsets();
  }

  /** The section-header fields of the header sit where the ELF object file
      format puts them, in either class. */
  lemma HeaderFieldOffsets()
    ensures HeaderOffset(64, EShoff) == 40 && HeaderOffset(64, EShentsize) == 58
    ensures HeaderOffset(64, EShnum) == 60 && HeaderOffset(64, EShstrndx) == 62
    ensures HeaderOffset(32, EShoff) == 32 && HeaderOffset(32, EShentsize) == 46
    ensures HeaderOffset(32, EShnum) == 48 && HeaderOffset(32, EShstrndx) == 50
    ensures HeaderWidth(64, EShoff) == 8 && HeaderWidth(32, EShoff) == 4
  {
    LayoutOffsets();
  }

  /** Every header field lies inside the header, and each one starts where
      the one before it ends. */
  lemma FieldsTileHeader(bits: int, f: HeaderField)
    ensures HeaderOffset(bits, f) + HeaderWidth(bits, f) <= Sum(HeaderLayout(bits))
    ensures FieldIndex(f) > 0 ==>
      HeaderOffset(bits, f) == PrefixSum(HeaderLayout(bits), FieldIndex(f) - 1) + HeaderLayout(bits)[FieldIndex(f) - 1]
  {
    FieldWithinLayout(HeaderLayout(bits), FieldIndex(f), 14);
  }

  /** `get_field_offset`: accumulate the widths of the fields before `f`. */
  method FieldOffset(bits: int, f: HeaderField) returns (offset: nat)
    ensures offset == HeaderOffset(bits, f)
  {
    var layout := HeaderLayout(bits);
    var n := FieldIndex(f);
    offset := 0;
    var i := 0;
    while i < n
      invariant 0 <= i <= n
      invariant offset == PrefixSum(layout, i)
    {
      offset := offset + layout[i];
      i := i + 1;
    }
  }

  /** The value `read_field` produces: the field's bytes, little-endian. */
  function FieldValue(buf: seq<uint8>, bits: int, f: HeaderField): nat
  {
    var off := HeaderOffset(bits, f);
    LittleEndian(Slice(buf, off, off + HeaderWidth(bits, f)))
  }

  /** `read_field`: exactly the field's width in bytes at the field's offset,
      decoded little-endian whatever the image's own byte order is. */
  method ReadField(buf: seq<uint8>, bits: int, f: HeaderField) returns (v: nat)
    ensures v == FieldValue(buf, bits, f)
    ensures v < Pow256(HeaderWidth(bits, f))
  {
    var off := FieldOffset(bits, f);
    var size := HeaderLayout(bits)[FieldIndex(f)];
    v := LittleEndian(Slice(buf, off, off + size));
    FieldValueBound(buf, bits, f);
  }

  /** A field's value fits in its width. */
  lemma FieldValueBound(buf: seq<uint8>, bits: int, f: HeaderField)
    ensures FieldValue(buf, bits, f) < Pow256(HeaderWidth(bits, f))
  {
    var off := HeaderOffset(bits, f);
    var field := Slice(buf, off, off + HeaderWidth(bits, f));
    LittleEndianBound(field);
    Pow256Monotone(|field|, HeaderWidth(bits, f));
  }

  /** A header field depends on the bytes of that field alone. */
  lemma FieldValueLocal(b1: seq<uint8>, b2: seq<uint8>, bits: int, f: HeaderField)
    requires var off := HeaderOffset(bits, f);
      Slice(b1, off, off + HeaderWidth(bits, f)) == Slice(b2, off, off + HeaderWidth(bits, f))
    ensures FieldValue(b1, bits, f) == FieldValue(b2, bits, f)
  {
  }

  // ---------------------------------------------------------------------
  // Identification

  const EiClass: nat := 4
  const EiData: nat := 5

  /** The class and data encoding of an image; `bits` is 0 and `order`
      is `NoOrder` for bytes the reader does not recognise. */
  datatype Ident = Ident(bits: int, order: ByteOrder)

  /** `read_ident`: EI_CLASS 1 means 32-bit and 2 means 64-bit, EI_DATA 1
      means little-endian and 2 big-endian. A buffer too short to hold a byte
      reads it as 0, which is neither. */
  function ReadIdent(buf: seq<uint8>): (id: Ident)
    ensures id.bits == 32 <==> |buf| > EiClass && buf[EiClass] == 1
    ensures id.bits == 64 <==> |buf| > EiClass && buf[EiClass] == 2
    ensures id.bits == 32 || id.bits == 64 || id.bits == 0
    ensures id.order == Little <==> |buf| > EiData && buf[EiData] == 1
    ensures id.order == Big <==> |buf| > EiData && buf[EiData] == 2
  {
    var eiClass := LittleEndian(Slice(buf, EiClass, EiClass + 1));
    var eiData := LittleEndian(Slice(buf, EiData, EiData + 1));
    SingleByteEitherOrder(Slice(buf, EiClass, EiClass + 1));
    SingleByteEitherOrder(Slice(buf, EiData, EiData + 1));
    var bits := if eiClass == 1 then 32 else if eiClass == 2 then 64 else 0;
    var order := if eiData == 1 then Little else if eiData == 2 then Big else NoOrder;
    Ident(bits, order)
  }

  /** The identification plus the two layouts the reader selects from it. */
  datatype Arch = Arch(ident: Ident, fields: seq<nat>, shEntry: seq<nat>)

  /** `make_arch_adjustments`: the 32-bit layouts for class 1, the 64-bit
      ones for every other class byte, so the selected ELF header is 52 bytes
      long exactly for class 1 and 64 bytes long otherwise. */
  function MakeArchAdjustments(buf: seq<uint8>): (a: Arch)
    ensures a.ident == ReadIdent(buf)
    ensures |a.fields| == 14 && |a.shEntry| == 10
    ensures Sum(a.fields) == (if |buf| > EiClass && buf[EiClass] == 1 then 52 else 64)
    ensures Sum(a.shEntry) == (if |buf| > EiClass && buf[EiClass] == 1 then 40 else 64)
    ensures a.fields == HeaderLayout(a.ident.bits) && a.shEntry == ShLayout(a.ident.bits)
  {
    var id := ReadIdent(buf);
    LayoutSizes();
    Arch(id, HeaderLayout(id.bits), ShLayout(id.bits))
  }

  // ---------------------------------------------------------------------
  // Section-header entries

  const Uint32Size: nat := 4
  const Uint64Size: nat := 8

  /** A cursor over the section-header table; every step moves it forward
      by a fixed amount and reports the new position. */
  class ShTableNav {
    var startIndex: int
    const shEntrySize: int

    constructor (start: int, shEntrySize: int)
      ensures startIndex == start && this.shEntrySize == shEntrySize
    {
      startIndex := start;
      this.shEntrySize := shEntrySize;
    }

    function CurrentPos(): (pos: int)
      reads this
      ensures pos == startIndex
    {
      startIndex
    }

    method NextUint32() returns (pos: int)
      modifies this
      ensures startIndex == old(startIndex) + Uint32Size && pos == startIndex
    {
      startIndex := startIndex + Uint32Size;
      pos := startIndex;
    }

    method NextUint64() returns (pos: int)
      modifies this
      ensures startIndex == old(startIndex) + Uint64Size && pos == startIndex
    {
      startIndex := startIndex + Uint64Size;
      pos := startIndex;
    }

    method NextShEntry() returns (pos: int)
      modifies this
      ensures startIndex == old(startIndex) + shEntrySize && pos == startIndex
    {
      startIndex := startIndex + shEntrySize;
      pos := startIndex;
    }
  }

  /** A section-header entry; `name` stays `None` until the string table
      has been consulted. */
  datatype ShTableEntry = ShTableEntry(name: Option<seq<uint8>>, nameIndex: nat, off: nat, size: nat)

  /** Field `idx` of the entry at `start`, read where the prefix sums of the
      section-header widths put it. */
  function ShField(buf: seq<uint8>, start: nat, bits: int, idx: nat, order: KnownOrder): nat
    requires idx < 10
  {
    var off := start + PrefixSum(ShLayout(bits), idx);
    Uint(Slice(buf, off, off + ShLayout(bits)[idx]), order)
  }

  /** The entry at `start` as the section-header layout describes it. */
  function DecodeShEntry(buf: seq<uint8>, start: nat, bits: int, order: KnownOrder): ShTableEntry
  {
    ShTableEntry(None, ShField(buf, start, bits, ShNameField, order),
                 ShField(buf, start, bits, ShOffsetField, order),
                 ShField(buf, start, bits, ShSizeField, order))
  }

  lemma ShLayoutOffsets(bits: int)
    ensures PrefixSum(ShLayout(bits), ShNameField) == 0 && ShLayout(bits)[ShNameField] == 4
    ensures PrefixSum(ShLayout(bits), ShOffsetField) == (if bits == 32 then 16 else 24)
    ensures PrefixSum(ShLayout(bits), ShSizeField) == (if bits == 32 then 20 else 32)
    ensures ShLayout(bits)[ShOffsetField] == ShLayout(bits)[ShSizeField] == (if bits == 32 then 4 else 8)
  {
    LayoutOffsets();
  }

  /** sh_name is the four bytes at the start of the entry; sh_offset and
      sh_size are four bytes each at +16 and +20 in a 32-bit image and eight
      bytes each at +24 and +32 otherwise. */
  lemma ShEntryFieldsAt(buf: seq<uint8>, start: nat, bits: int, order: KnownOrder)
    ensures var e := DecodeShEntry(buf, start, bits, order);
      var w := if bits == 32 then 4 else 8;
      var o := if bits == 32 then 16 else 24;
      e.name == None &&
      e.nameIndex == Uint(Slice(buf, start, start + 4), order) &&
      e.off == Uint(Slice(buf, start + o, start + o + w), order) &&
      e.size == Uint(Slice(buf, start + o + w, start + o + 2 * w), order)
  {
    ShLayoutOffsets(bits);
  }

  /** Size of a section-header entry as the layout describes it: the sum of
      its widths. */
  function ShEntryBytes(bits: int): (n: nat)
    ensures n == Sum(ShLayout(bits))
  {
    LayoutSizes();
    if bits == 32 then 40 else 64
  }

  lemma ShFieldInsideEntry(bits: int, idx: nat)
    requires idx < 10
    ensures PrefixSum(ShLayout(bits), idx) + ShLayout(bits)[idx] <= ShEntryBytes(bits)
  {
    FieldWithinLayout(ShLayout(bits), idx, 10);
    LayoutSizes();
  }

  /** A field of an entry lies inside the entry, so it reads no byte
      outside it. */
  lemma ShFieldLocal(b1: seq<uint8>, b2: seq<uint8>, start: nat, bits: int, idx: nat, order: KnownOrder)
    requires idx < 10
    requires Slice(b1, start, start + ShEntryBytes(bits)) == Slice(b2, start, start + ShEntryBytes(bits))
    ensures ShField(b1, start, bits, idx, order) == ShField(b2, start, bits, idx, order)
  {
    var ws := ShLayout(bits);
    var x, w := PrefixSum(ws, idx), ws[idx];
    ShFieldInsideEntry(bits, idx);
    UintWindowEqual(b1, b2, start, ShEntryBytes(bits), x, x + w, order);
  }

  /** Decoding an entry looks at no byte outside the entry. */
  lemma ShEntryReadsOnlyEntry(b1: seq<uint8>, b2: seq<uint8>, start: nat, bits: int, order: KnownOrder)
    requires Slice(b1, start, start + ShEntryBytes(bits)) == Slice(b2, start, start + ShEntryBytes(bits))
    ensures DecodeShEntry(b1, start, bits, order) == DecodeShEntry(b2, start, bits, order)
  {
    ShFieldLocal(b1, b2, start, bits, ShNameField, order);
    ShFieldLocal(b1, b2, start, bits, ShOffsetField, order);
    ShFieldLocal(b1, b2, start, bits, ShSizeField, order);
  }

  /** `get_sh_entry`: a cursor reads sh_name, steps over sh_type, sh_flags
      and sh_addr, then reads sh_offset and sh_size, with word widths chosen
      by `bits`. The result is the entry the layout describes; an unknown
      byte order makes the first read fail. */
  method GetShEntry(buf: seq<uint8>, start: nat, shEntSize: nat, bits: int, order: ByteOrder)
    returns (r: Result<ShTableEntry>)
    ensures order == NoOrder ==> r == Err(InvalidByteOrder)
    ensures order != NoOrder ==> r == Ok(DecodeShEntry(buf, start, bits, order))
  {
    var nav := new ShTableNav(start, shEntSize);
    var s := nav.CurrentPos();
    var e := nav.NextUint32();
    var nameIndex := ReadBytesAsInt(buf, s, e, order);
    if nameIndex.Err? {
      return Err(nameIndex.error);
    }
    var off, size;
    if bits == 32 {
      var _ := nav.NextUint32();  // sh_type
      var _ := nav.NextUint32();  // sh_flags
      var _ := nav.NextUint32();  // sh_addr
      s := nav.CurrentPos();
      e := nav.NextUint32();
      off := ReadBytesAsInt(buf, s, e, order);
      s := nav.CurrentPos();
      e := nav.NextUint32();
      size := ReadBytesAsInt(buf, s, e, order);
    } else {
      var _ := nav.NextUint32();  // sh_type
      var _ := nav.NextUint64();  // sh_flags
      var _ := nav.NextUint64();  // sh_addr
      s := nav.CurrentPos();
      e := nav.NextUint64();
      off := ReadBytesAsInt(buf, s, e, order);
      s := nav.CurrentPos();
      e := nav.NextUint64();
      size := ReadBytesAsInt(buf, s, e, order);
    }
    ShEntryFieldsAt(buf, start, bits, order);
    r := Ok(ShTableEntry(None, nameIndex.value, off.value, size.value));
  }

  // ---------------------------------------------------------------------
  // Names

  /** `name` is the NUL-terminated string that starts at `start` in `s`. */
  ghost predicate NameAt(s: seq<uint8>, start: nat, name: seq<uint8>)
  {
    start + |name| < |s| && s[start + |name|] == 0 &&
    s[start..start + |name|] == name &&
    forall k :: 0 <= k < |name| ==> name[k] != 0
  }

  /** A position names at most one string. */
  lemma NameAtUnique(s: seq<uint8>, start: nat, n1: seq<uint8>, n2: seq<uint8>)
    requires NameAt(s, start, n1) && NameAt(s, start, n2)
    ensures n1 == n2
  {
  }

  /** The string at `start` up to the next NUL, or `None` when no NUL
      follows before the end of `s`. */
  function CStringAt(s: seq<uint8>, start: nat): (r: Option<seq<uint8>>)
    decreases |s| - start
    ensures r.Some? ==> NameAt(s, start, r.value)
    ensures r.None? <==> forall k :: start <= k < |s| ==> s[k] != 0
  {
    if start >= |s| then None
    else if s[start] == 0 then Some([])
    else
      match CStringAt(s, start + 1)
      case None => None
      case Some(t) =>
        assert s[start..start + 1 + |t|] == [s[start]] + s[start + 1..start + 1 + |t|];
        Some([s[start]] + t)
  }

  /** `read_sh_entry_name`: scan from `start` to the next NUL. Running off
      the end of `s` is an index error. */
  method ReadShEntryName(s: seq<uint8>, start: nat) returns (r: Result<seq<uint8>>)
    ensures r.Ok? ==> NameAt(s, start, r.value)
    ensures r.Err? <==> forall k :: start <= k < |s| ==> s[k] != 0
    ensures r.Err? ==> r.error == IndexOutOfRange
  {
    if start >= |s| {
      return Err(IndexOutOfRange);
    }
    var nullPtr := start;
    while s[nullPtr] != 0
      invariant start <= nullPtr < |s|
      invariant forall k :: start <= k < nullPtr ==> s[k] != 0
      decreases |s| - nullPtr
    {
      nullPtr := nullPtr + 1;
      if nullPtr == |s| {
        return Err(IndexOutOfRange);
      }
    }
    r := Ok(s[start..nullPtr]);
  }

  // ---------------------------------------------------------------------
  // The section-header table

  /** The four header fields that locate the section-header table. */
  datatype ShHeader = ShHeader(shoff: nat, shentsize: nat, shnum: nat, shstrndx: nat)

  function HeaderOf(buf: seq<uint8>, bits: int): ShHeader
  {
    ShHeader(FieldValue(buf, bits, EShoff), FieldValue(buf, bits, EShentsize),
             FieldValue(buf, bits, EShnum), FieldValue(buf, bits, EShstrndx))
  }

  /** Decodes entry i of the table the header locates. */
  function EntryDecoder(buf: seq<uint8>, bits: int, order: KnownOrder, h: ShHeader): nat -> ShTableEntry
  {
    (i: nat) => DecodeShEntry(buf, RecordStart(h.shoff, i, h.shentsize), bits, order)
  }

  /** All `shnum` entries, entry i at `shoff + i * shentsize`. */
  function RawEntries(buf: seq<uint8>, bits: int, order: KnownOrder, h: ShHeader): seq<ShTableEntry>
  {
    Records(EntryDecoder(buf, bits, order, h), h.shnum)
  }

  /** The bytes of a section, clamped to the buffer. */
  function SectionBytes(buf: seq<uint8>, e: ShTableEntry): seq<uint8>
  {
    Slice(buf, e.off, e.off + e.size)
  }

  /** Every entry with its name looked up in `strtab`; one unterminated
      name fails the lot. */
  function ResolveNames(es: seq<ShTableEntry>, strtab: seq<uint8>): Result<seq<ShTableEntry>>
  {
    if forall i :: 0 <= i < |es| ==> CStringAt(strtab, es[i].nameIndex).Some? then
      Ok(seq(|es|, i requires 0 <= i < |es| => es[i].(name := CStringAt(strtab, es[i].nameIndex))))
    else
      Err(IndexOutOfRange)
  }

  lemma ResolveNamesOk(es: seq<ShTableEntry>, strtab: seq<uint8>, named: seq<ShTableEntry>)
    requires |named| == |es|
    requires forall j :: 0 <= j < |es| ==>
      CStringAt(strtab, es[j].nameIndex).Some? && named[j] == es[j].(name := CStringAt(strtab, es[j].nameIndex))
    ensures ResolveNames(es, strtab) == Ok(named)
  {
    var want := seq(|es|, i requires 0 <= i < |es| => es[i].(name := CStringAt(strtab, es[i].nameIndex)));
    assert named == want;
  }

  /** What `get_sh_table_entries` computes. Reading the entries fails first
      when there are any and the byte order is unknown; then an e_shstrndx
      that is not an entry index is an index error; then every name must be
      terminated inside the string-table section. */
  function SectionTable(buf: seq<uint8>, bits: int, order: ByteOrder): Result<seq<ShTableEntry>>
  {
    TableFromHeader(buf, bits, order, HeaderOf(buf, bits))
  }

  function TableFromHeader(buf: seq<uint8>, bits: int, order: ByteOrder, h: ShHeader): Result<seq<ShTableEntry>>
  {
    match RawTable(buf, bits, order, h)
    case Err(e) => Err(e)
    case Ok(es) => NameTable(buf, h.shstrndx, es)
  }

  /** The entries the first loop collects: none when there are none to
      read, an error when there are some and the byte order is unknown. */
  function RawTable(buf: seq<uint8>, bits: int, order: ByteOrder, h: ShHeader): Result<seq<ShTableEntry>>
  {
    if order == NoOrder then (if h.shnum > 0 then Err(InvalidByteOrder) else Ok([]))
    else Ok(RawEntries(buf, bits, order, h))
  }

  /** Pick the string-table entry at `shstrndx`, then name every entry. */
  function NameTable(buf: seq<uint8>, shstrndx: nat, es: seq<ShTableEntry>): Result<seq<ShTableEntry>>
  {
    if shstrndx >= |es| then Err(IndexOutOfRange)
    else ResolveNames(es, SectionBytes(buf, es[shstrndx]))
  }

  /** A named table keeps every entry as it was except for its name, which
      is the string its sh_name index points at in the string table. */
  lemma NameTableOk(buf: seq<uint8>, shstrndx: nat, es: seq<ShTableEntry>)
    requires NameTable(buf, shstrndx, es).Ok?
    ensures var t := NameTable(buf, shstrndx, es).value;
      shstrndx < |es| == |t| &&
      forall i :: 0 <= i < |t| ==>
        t[i] == es[i].(name := t[i].name) && t[i].name.Some? &&
        NameAt(SectionBytes(buf, t[shstrndx]), t[i].nameIndex, t[i].name.value)
  {
    var t := NameTable(buf, shstrndx, es).value;
    assert SectionBytes(buf, t[shstrndx]) == SectionBytes(buf, es[shstrndx]);
  }

  /** Naming succeeds exactly when the string-table index is in range and
      every sh_name index is followed by a NUL inside the string table. */
  lemma NameTableOkIff(buf: seq<uint8>, shstrndx: nat, es: seq<ShTableEntry>)
    ensures NameTable(buf, shstrndx, es).Ok? <==>
      shstrndx < |es| &&
      forall i :: 0 <= i < |es| ==>
        exists k :: es[i].nameIndex <= k < |SectionBytes(buf, es[shstrndx])| &&
                    SectionBytes(buf, es[shstrndx])[k] == 0
  {
    if shstrndx < |es| {
      var strtab := SectionBytes(buf, es[shstrndx]);
      forall i | 0 <= i < |es|
        ensures CStringAt(strtab, es[i].nameIndex).Some? <==>
          exists k :: es[i].nameIndex <= k < |strtab| && strtab[k] == 0
      {
        if CStringAt(strtab, es[i].nameIndex).Some? {
          var name := CStringAt(strtab, es[i].nameIndex).value;
          assert strtab[es[i].nameIndex + |name|] == 0;
        }
      }
    }
  }

  /** Entry i of the raw table is the one decoded where record i starts,
      e_shoff + i * e_shentsize. */
  lemma RawEntriesAt(buf: seq<uint8>, bits: int, order: KnownOrder, h: ShHeader, i: nat)
    requires i < h.shnum
    ensures RawEntries(buf, bits, order, h)[i] == DecodeShEntry(buf, h.shoff + i * h.shentsize, bits, order)
  {
    RecordsAt(EntryDecoder(buf, bits, order, h), h.shnum, i);
  }

  /** On success the byte order is known and the table holds exactly
      e_shnum entries in table order: raw entry i (RawEntriesAt), named by
      the NUL-terminated string at its sh_name in the string-table section. */
  lemma SectionTableEntries(buf: seq<uint8>, bits: int, order: ByteOrder)
    requires SectionTable(buf, bits, order).Ok?
    ensures var h := HeaderOf(buf, bits);
      var t := SectionTable(buf, bits, order).value;
      order != NoOrder && h.shstrndx < |t| == h.shnum &&
      forall i :: 0 <= i < |t| ==>
        t[i] == RawEntries(buf, bits, order, h)[i].(name := t[i].name) &&
        t[i].name.Some? &&
        NameAt(SectionBytes(buf, t[h.shstrndx]), t[i].nameIndex, t[i].name.value)
  {
    var h := HeaderOf(buf, bits);
    TableFromHeaderEntries(buf, bits, order, h);
    NameTableOk(buf, h.shstrndx, RawEntries(buf, bits, order, h));
  }

  /** A decoded table is the raw entries named through the string table. */
  lemma TableFromHeaderEntries(buf: seq<uint8>, bits: int, order: ByteOrder, h: ShHeader)
    requires TableFromHeader(buf, bits, order, h).Ok?
    ensures order != NoOrder
    ensures TableFromHeader(buf, bits, order, h) == NameTable(buf, h.shstrndx, RawEntries(buf, bits, order, h))
  {
  }

  /** The table is decoded exactly when the byte order is known, e_shstrndx
      indexes an entry, and every name is NUL-terminated inside the
      string-table section. */
  lemma SectionTableOkIff(buf: seq<uint8>, bits: int, order: ByteOrder)
    ensures var h := HeaderOf(buf, bits);
      SectionTable(buf, bits, order).Ok? <==>
        order != NoOrder && h.shstrndx < h.shnum &&
        var es := RawEntries(buf, bits, order, h);
        forall i :: 0 <= i < h.shnum ==>
          exists k :: es[i].nameIndex <= k < |SectionBytes(buf, es[h.shstrndx])| &&
                      SectionBytes(buf, es[h.shstrndx])[k] == 0
    ensures HeaderOf(buf, bits).shstrndx >= HeaderOf(buf, bits).shnum ==> SectionTable(buf, bits, order).Err?
  {
    var h := HeaderOf(buf, bits);
    assert SectionTable(buf, bits, order) == TableFromHeader(buf, bits, order, h);
    if order != NoOrder {
      NameTableOkIff(buf, h.shstrndx, RawEntries(buf, bits, order, h));
    }
  }

  /** `get_sh_table_entries`: read the four header fields, collect the
      entries one by one, pick the string table and name every entry. */
  method GetShTableEntries(buf: seq<uint8>, bits: int, order: ByteOrder)
    returns (r: Result<seq<ShTableEntry>>)
    ensures r == SectionTable(buf, bits, order)
  {
    var h := ReadShHeader(buf, bits);
    var raw := ReadRawEntries(buf, bits, order, h);
    if raw.Err? {
      return Err(raw.error);
    }
    r := NameByStringTable(buf, h.shstrndx, raw.value);
  }

  /** The second half of `get_sh_table_entries`: look up the string-table
      entry, then name every entry from it. */
  method NameByStringTable(buf: seq<uint8>, shstrndx: nat, entries: seq<ShTableEntry>)
    returns (r: Result<seq<ShTableEntry>>)
    ensures r == NameTable(buf, shstrndx, entries)
  {
    if shstrndx >= |entries| {
      return Err(IndexOutOfRange);
    }
    var strEntry := entries[shstrndx];
    var strtab := Slice(buf, strEntry.off, strEntry.off + strEntry.size);
    r := NameEntries(entries, strtab);
  }

  /** The four header fields `get_sh_table_entries` starts from. */
  method ReadShHeader(buf: seq<uint8>, bits: int) returns (h: ShHeader)
    ensures h == HeaderOf(buf, bits)
  {
    var shoff := ReadField(buf, bits, EShoff);
    var shentsize := ReadField(buf, bits, EShentsize);
    var shnum := ReadField(buf, bits, EShnum);
    var shstrndx := ReadField(buf, bits, EShstrndx);
    h := ShHeader(shoff, shentsize, shnum, shstrndx);
  }

  /** The first loop of `get_sh_table_entries`: one `get_sh_entry` per
      entry, each `shentsize` bytes after the one before. With an unknown
      byte order the first read fails; with no entries nothing is read. */
  method ReadRawEntries(buf: seq<uint8>, bits: int, order: ByteOrder, h: ShHeader)
    returns (r: Result<seq<ShTableEntry>>)
    ensures r == RawTable(buf, bits, order, h)
  {
    var entries: seq<ShTableEntry> := [];
    var i := 0;
    while i < h.shnum
      invariant 0 <= i <= h.shnum && |entries| == i
      invariant i > 0 ==> order != NoOrder
      invariant order != NoOrder ==> entries == Records(EntryDecoder(buf, bits, order, h), i)
    {
      var e := GetShEntry(buf, h.shoff + i * h.shentsize, h.shentsize, bits, order);
      if e.Err? {
        return Err(e.error);
      }
      RawEntriesStep(buf, bits, order, h, i, entries, e.value);
      entries := entries + [e.value];
      i := i + 1;
    }
    r := Ok(entries);
  }

  /** Reading entry i after the first i extends them by one record. */
  lemma RawEntriesStep(buf: seq<uint8>, bits: int, order: KnownOrder, h: ShHeader, i: nat,
                       entries: seq<ShTableEntry>, e: ShTableEntry)
    requires entries == Records(EntryDecoder(buf, bits, order, h), i)
    requires e == DecodeShEntry(buf, h.shoff + i * h.shentsize, bits, order)
    ensures entries + [e] == Records(EntryDecoder(buf, bits, order, h), i + 1)
  {
    assert EntryDecoder(buf, bits, order, h)(i) == e;
    RecordsSnoc(EntryDecoder(buf, bits, order, h), i);
  }

  /** The second loop of `get_sh_table_entries`: give every entry the name
      its sh_name index points at in the string table, in table order. */
  method NameEntries(raw: seq<ShTableEntry>, strtab: seq<uint8>) returns (r: Result<seq<ShTableEntry>>)
    ensures r == ResolveNames(raw, strtab)
  {
    var entries := raw;
    var i := 0;
    while i < |raw|
      invariant 0 <= i <= |raw| && |entries| == |raw|
      invariant forall j :: 0 <= j < i ==>
        CStringAt(strtab, raw[j].nameIndex).Some? &&
        entries[j] == raw[j].(name := CStringAt(strtab, raw[j].nameIndex))
      invariant forall j :: i <= j < |raw| ==> entries[j] == raw[j]
    {
      var name := ReadShEntryName(strtab, entries[i].nameIndex);
      if name.Err? {
        assert CStringAt(strtab, raw[i].nameIndex).None?;
        return Err(name.error);
      }
      NameAtUnique(strtab, raw[i].nameIndex, name.value, CStringAt(strtab, raw[i].nameIndex).value);
      entries := entries[i := entries[i].(name := Some(name.value))];
      i := i + 1;
    }
    ResolveNamesOk(raw, strtab, entries);
    r := Ok(entries);
  }

  // ---------------------------------------------------------------------
  // Lookup

  /** The name ".rodata" as bytes. */
  const Rodata: seq<uint8> := [0x2e, 0x72, 0x6f, 0x64, 0x61, 0x74, 0x61]

  /** Entry i is named `name` and no entry before it is. */
  ghost predicate IsFirstNamed(es: seq<ShTableEntry>, name: seq<uint8>, i: int)
  {
    0 <= i < |es| && es[i].name == Some(name) &&
    forall j :: 0 <= j < i ==> es[j].name != Some(name)
  }

  /** The first entry named `name`, scanning in table order. */
  function FirstNamed(es: seq<ShTableEntry>, name: seq<uint8>): (r: Option<ShTableEntry>)
    ensures r.None? <==> forall i :: 0 <= i < |es| ==> es[i].name != Some(name)
    ensures r.Some? ==> r.value.name == Some(name)
    ensures r.Some? ==> exists i :: IsFirstNamed(es, name, i) && es[i] == r.value
  {
    if es == [] then None
    else if es[0].name == Some(name) then Some(es[0])
    else
      var r := FirstNamed(es[1..], name);
      assert r.Some? ==> exists i :: IsFirstNamed(es, name, i) && es[i] == r.value by {
        if r.Some? {
          var i :| IsFirstNamed(es[1..], name, i) && es[1..][i] == r.value;
          assert es[i + 1] == r.value;
          forall j | 0 <= j < i + 1 ensures es[j].name != Some(name) {
            if j > 0 { assert es[j] == es[1..][j - 1]; }
          }
          assert IsFirstNamed(es, name, i + 1);
        }
      }
      assert r.None? ==> forall i :: 0 <= i < |es| ==> es[i].name != Some(name) by {
        if r.None? {
          forall i | 0 <= i < |es| ensures es[i].name != Some(name) {
            if i > 0 { assert es[i] == es[1..][i - 1]; }
          }
        }
      }
      r
  }

  /** `get_rodata_section`: the first section named ".rodata", or `None`
      exactly when no section has that name; decoding errors pass through. */
  method GetRodataSection(buf: seq<uint8>, bits: int, order: ByteOrder)
    returns (r: Result<Option<ShTableEntry>>)
    ensures r.Err? <==> SectionTable(buf, bits, order).Err?
    ensures r.Err? ==> r.error == SectionTable(buf, bits, order).error
    ensures r.Ok? ==>
      var t := SectionTable(buf, bits, order).value;
      (r.value.None? <==> forall i :: 0 <= i < |t| ==> t[i].name != Some(Rodata)) &&
      (r.value.Some? ==> exists i :: IsFirstNamed(t, Rodata, i) && t[i] == r.value.value)
  {
    var entries := GetShTableEntries(buf, bits, order);
    if entries.Err? {
      return Err(entries.error);
    }
    r := Ok(FirstNamed(entries.value, Rodata));
  }
}
