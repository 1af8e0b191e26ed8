/** The embedded-file table of a Go binary: a header of three half-words
    (pointer to the first entry, number of entries, the number again)
    followed by fixed-size entries, each naming a file (pointer and length),
    its contents (pointer and length) and a hash. Pointers are virtual
    addresses; subtracting the image base turns them into file offsets. */
module Gembe {
  import opened Bytes
  import ElfReader

  const Elf64BaseAddr: nat := 0x400000
  const Elf32BaseAddr: nat := 0x08048000

  /** The image base the reader assumes: the 32-bit one for class 32, the
      64-bit one for everything else. */
  function BaseAddress(bits: int): nat
  {
    if bits == 32 then Elf32BaseAddr else Elf64BaseAddr
  }

  /** Width of a pointer or length field. */
  function HalfWord(bits: int): nat
  {
    if bits == 32 then 4 else 8
  }

  /** Width of the hash the reader takes. */
  function Word(bits: int): nat
  {
    if bits == 32 then 8 else 16
  }

  /** Distance from one entry to the next: eight half-words in a 32-bit
      image and six otherwise. */
  function RecordSize(bits: int): nat
  {
    if bits == 32 then 8 * HalfWord(bits) else 6 * HalfWord(bits)
  }

  /** The four pointer and length fields fit in an entry with the hash after
      them. In a 64-bit image they fill it exactly; in a 32-bit image the
      hash taken is 8 bytes and 8 more bytes of the entry are never read. */
  lemma EntryLayout(bits: int)
    ensures 4 * HalfWord(bits) + Word(bits) <= RecordSize(bits)
    ensures 4 * HalfWord(bits) + Word(bits) == RecordSize(bits) <==> bits != 32
    ensures RecordSize(bits) == (if bits == 32 then 32 else 48)
    ensures bits == 32 ==> RecordSize(bits) - (4 * HalfWord(bits) + Word(bits)) == 8
  {
  }

  /** A cursor over the embed structure; every step moves it forward by a
      fixed width and reports the new position. */
  class EmbedEntryNav {
    var startIndex: int
    const hword: nat
    const word: nat
    const entrySize: nat

    constructor (start: int, bits: int)
      ensures startIndex == start
      ensures hword == HalfWord(bits) && word == Word(bits) && entrySize == RecordSize(bits)
    {
      startIndex := start;
      if bits == 32 {
        hword := 4;
        word := 8;
        entrySize := 4 * 8;
      } else {
        hword := 8;
        word := 16;
        entrySize := 8 * 6;
      }
    }

    function CurrentPos(): (pos: int)
      reads this
      ensures pos == startIndex
    {
      startIndex
    }

    method NextHword() returns (pos: int)
      modifies this
      ensures startIndex == old(startIndex) + hword && pos == startIndex
    {
      startIndex := startIndex + hword;
      pos := startIndex;
    }

    method NextWord() returns (pos: int)
      modifies this
      ensures startIndex == old(startIndex) + word && pos == startIndex
    {
      startIndex := startIndex + word;
      pos := startIndex;
    }

    method NextEmbedEntry() returns (pos: int)
      modifies this
      ensures startIndex == old(startIndex) + entrySize && pos == startIndex
    {
      startIndex := startIndex + entrySize;
      pos := startIndex;
    }
  }

  /** `read_bytes_as_int` of the embed reader: Python slice semantics for the
      bounds, so a negative bound counts from the end of the buffer. */
  function ReadIntAt(buf: seq<uint8>, s: int, e: int, order: ByteOrder): (r: Result<nat>)
    ensures r.Err? <==> order == NoOrder
  {
    FromBytes(PySlice(buf, s, e), order)
  }

  /** With bounds that are not negative this is the ELF reader's
      `read_bytes_as_int`. */
  lemma ReadIntAtNonNegative(buf: seq<uint8>, s: int, e: int, order: ByteOrder)
    requires s >= 0 && e >= 0
    ensures ReadIntAt(buf, s, e, order) == ReadBytesAsInt(buf, s, e, order)
  {
  }

  /** The unsigned field of `width` bytes at `at`. */
  function UintAt(buf: seq<uint8>, at: int, width: nat, order: KnownOrder): nat
  {
    Uint(PySlice(buf, at, at + width), order)
  }

  /** One file or directory of the table. `namePtr` is a file offset and may
      be negative when the stored address lies below the image base;
      `contentPtr` is clamped to 0 in that case. */
  datatype FileEntry = FileEntry(namePtr: int, nameLen: nat, contentPtr: nat, contentLen: nat,
                                 contentHash: string, isDirectory: bool)

  /** `getFileName`: the name bytes, or nothing for an empty name. */
  function FileName(e: FileEntry, buf: seq<uint8>): (r: seq<uint8>)
    ensures e.nameLen == 0 ==> r == []
    ensures |r| <= e.nameLen
    ensures 0 <= e.namePtr && e.namePtr + e.nameLen <= |buf| ==> r == buf[e.namePtr..e.namePtr + e.nameLen]
  {
    if e.nameLen > 0 then PySlice(buf, e.namePtr, e.namePtr + e.nameLen) else []
  }

  /** `getFileContent`: the content bytes, or nothing for a directory. */
  function FileContent(e: FileEntry, buf: seq<uint8>): (r: seq<uint8>)
    ensures e.contentLen == 0 ==> r == []
    ensures |r| <= e.contentLen
    ensures e.contentPtr + e.contentLen <= |buf| ==> r == buf[e.contentPtr..e.contentPtr + e.contentLen]
  {
    if e.contentLen > 0 then PySlice(buf, e.contentPtr, e.contentPtr + e.contentLen) else []
  }

  /** A name pointer below zero reads bytes counted back from the end of the
      buffer, as Python slicing does. */
  lemma FileNameFromEnd(e: FileEntry, buf: seq<uint8>)
    requires e.nameLen > 0 && -|buf| <= e.namePtr && e.namePtr + e.nameLen < 0
    ensures FileName(e, buf) == buf[e.namePtr + |buf|..e.namePtr + e.nameLen + |buf|]
  {
    PySliceFromEnd(buf, e.namePtr, e.namePtr + e.nameLen);
  }

  /** The entry assembled from the stored field values: both pointers less
      the base, the content pointer clamped to 0 when that is not positive,
      the hash as hex, and a directory exactly when there is no content. */
  function EntryOf(rawNamePtr: nat, nameLen: nat, rawContentPtr: nat, contentLen: nat,
                   hashBytes: seq<uint8>, base: int): FileEntry
  {
    var contentPtr := rawContentPtr - base;
    FileEntry(rawNamePtr - base, nameLen, if contentPtr > 0 then contentPtr else 0, contentLen,
              Hex(hashBytes), contentLen == 0)
  }

  /** The entry that starts at `start`, as the embed layout describes it:
      four half-words one after the other, then the hash. */
  function EntryAt(buf: seq<uint8>, start: int, bits: int, base: int, order: KnownOrder): FileEntry
  {
    var h := HalfWord(bits);
    var nameLenAt := start + h;
    var contentPtrAt := nameLenAt + h;
    var contentLenAt := contentPtrAt + h;
    var hashAt := contentLenAt + h;
    EntryOf(UintAt(buf, start, h, order), UintAt(buf, nameLenAt, h, order),
            UintAt(buf, contentPtrAt, h, order), UintAt(buf, contentLenAt, h, order),
            PySlice(buf, hashAt, hashAt + Word(bits)), base)
  }

  /** `get_entry`: a cursor reads the name pointer and length, the content
      pointer and length, one half-word each, then the hash. An unknown
      byte order makes the first read fail. */
  method GetEntry(buf: seq<uint8>, start: int, bits: int, base: int, order: ByteOrder)
    returns (r: Result<FileEntry>)
    ensures order == NoOrder ==> r == Err(InvalidByteOrder)
    ensures order != NoOrder ==> r == Ok(EntryAt(buf, start, bits, base, order))
  {
    var nav := new EmbedEntryNav(start, bits);
    var s := nav.CurrentPos();
    var e := nav.NextHword();
    var namePtr := ReadIntAt(buf, s, e, order);
    if namePtr.Err? {
      return Err(namePtr.error);
    }
    s := nav.CurrentPos();
    e := nav.NextHword();
    var nameLen := ReadIntAt(buf, s, e, order);
    s := nav.CurrentPos();
    e := nav.NextHword();
    var contentPtr := ReadIntAt(buf, s, e, order);
    s := nav.CurrentPos();
    e := nav.NextHword();
    var contentLen := ReadIntAt(buf, s, e, order);
    s := nav.CurrentPos();
    e := nav.NextWord();
    var hashBytes := PySlice(buf, s, e);
    r := Ok(EntryOf(namePtr.value, nameLen.value, contentPtr.value, contentLen.value, hashBytes, base));
  }

  /** An entry is a directory exactly when it has no content; lengths fit
      their half-word, and the name pointer is the stored address less the
      base, so it is negative exactly when that address is below the base. */
  lemma EntryFields(buf: seq<uint8>, start: int, bits: int, base: int, order: KnownOrder)
    ensures var e := EntryAt(buf, start, bits, base, order);
      var h := HalfWord(bits);
      (e.isDirectory <==> e.contentLen == 0) &&
      e.nameLen < Pow256(h) && e.contentLen < Pow256(h) &&
      -base <= e.namePtr < Pow256(h) - base &&
      (e.namePtr < 0 <==> UintAt(buf, start, h, order) < base) &&
      (e.contentPtr > 0 <==> UintAt(buf, start + 2 * h, h, order) > base)
  {
    var h := HalfWord(bits);
    UintInWidth(buf, start, h, order);
    UintInWidth(buf, start + h, h, order);
    UintInWidth(buf, start + 3 * h, h, order);
  }

  /** A field of `width` bytes holds less than 256^width. */
  lemma UintInWidth(buf: seq<uint8>, at: int, width: nat, order: KnownOrder)
    ensures UintAt(buf, at, width, order) < Pow256(width)
  {
    var bs := PySlice(buf, at, at + width);
    UintBound(bs, order);
    Pow256Monotone(|bs|, width);
  }

  /** Inside the buffer the hash is the hex rendering of the Word(bits)
      bytes after the four half-words: twice as many hex digits, and
      reading them back gives those bytes. */
  lemma EntryHash(buf: seq<uint8>, start: nat, bits: int, base: int, order: KnownOrder)
    requires start + 4 * HalfWord(bits) + Word(bits) <= |buf|
    ensures var e := EntryAt(buf, start, bits, base, order);
      var at := start + 4 * HalfWord(bits);
      |e.contentHash| == 2 * Word(bits) &&
      (forall k :: 0 <= k < |e.contentHash| ==> IsHexChar(e.contentHash[k])) &&
      UnHex(e.contentHash) == buf[at..at + Word(bits)]
  {
    var at := start + 4 * HalfWord(bits);
    SliceRange(buf, at, at + Word(bits));
    HexRoundTrip(buf[at..at + Word(bits)]);
  }

  /** The bytes of an entry whose fields hold the given stored values, laid
      out little-endian. */
  function EncodeEntry(bits: int, namePtr: nat, nameLen: nat, contentPtr: nat, contentLen: nat,
                       hash: seq<uint8>): (bs: seq<uint8>)
    ensures |bs| == 4 * HalfWord(bits) + |hash|
  {
    var h := HalfWord(bits);
    EncodeLittle(namePtr, h) + EncodeLittle(nameLen, h) + EncodeLittle(contentPtr, h) +
    EncodeLittle(contentLen, h) + hash
  }

  /** Reading an encoded little-endian entry gives back what was stored,
      the pointers less the base. */
  lemma EntryRoundTrip(bits: int, base: int, namePtr: nat, nameLen: nat, contentPtr: nat, contentLen: nat,
                       hash: seq<uint8>)
    requires namePtr < Pow256(HalfWord(bits)) && nameLen < Pow256(HalfWord(bits))
    requires contentPtr < Pow256(HalfWord(bits)) && contentLen < Pow256(HalfWord(bits))
    requires |hash| == Word(bits)
    ensures EntryAt(EncodeEntry(bits, namePtr, nameLen, contentPtr, contentLen, hash), 0, bits, base, Little) ==
      EntryOf(namePtr, nameLen, contentPtr, contentLen, hash, base)
  {
    EncodedFields(bits, namePtr, nameLen, contentPtr, contentLen, hash);
  }

  /** Each field of an encoded entry reads back as the value stored in it. */
  lemma EncodedFields(bits: int, namePtr: nat, nameLen: nat, contentPtr: nat, contentLen: nat,
                      hash: seq<uint8>)
    requires namePtr < Pow256(HalfWord(bits)) && nameLen < Pow256(HalfWord(bits))
    requires contentPtr < Pow256(HalfWord(bits)) && contentLen < Pow256(HalfWord(bits))
    requires |hash| == Word(bits)
    ensures var buf := EncodeEntry(bits, namePtr, nameLen, contentPtr, contentLen, hash);
      var h := HalfWord(bits);
      UintAt(buf, 0, h, Little) == namePtr &&
      UintAt(buf, 0 + h, h, Little) == nameLen &&
      UintAt(buf, 0 + h + h, h, Little) == contentPtr &&
      UintAt(buf, 0 + h + h + h, h, Little) == contentLen &&
      PySlice(buf, 0 + h + h + h + h, 0 + h + h + h + h + Word(bits)) == hash
  {
    var h := HalfWord(bits);
    EncodedSlices(EncodeLittle(namePtr, h), EncodeLittle(nameLen, h),
                  EncodeLittle(contentPtr, h), EncodeLittle(contentLen, h), hash, h);
    LittleEndianRoundTrip(namePtr, h);
    LittleEndianRoundTrip(nameLen, h);
    LittleEndianRoundTrip(contentPtr, h);
    LittleEndianRoundTrip(contentLen, h);
  }

  /** Four fields of `h` bytes and a hash laid out one after the other are
      read back by the slices at 0, h, 2h, 3h and 4h. */
  lemma EncodedSlices(a: seq<uint8>, b: seq<uint8>, c: seq<uint8>, d: seq<uint8>, hash: seq<uint8>, h: nat)
    requires |a| == h && |b| == h && |c| == h && |d| == h
    ensures var buf := a + b + c + d + hash;
      PySlice(buf, 0, 0 + h) == a &&
      PySlice(buf, 0 + h, 0 + h + h) == b &&
      PySlice(buf, 0 + h + h, 0 + h + h + h) == c &&
      PySlice(buf, 0 + h + h + h, 0 + h + h + h + h) == d &&
      PySlice(buf, 0 + h + h + h + h, 0 + h + h + h + h + |hash|) == hash
  {
    var buf := a + b + c + d + hash;
    assert PySlice(buf, 0, 0 + h) == a;
    assert PySlice(buf, 0 + h, 0 + h + h) == b;
    assert PySlice(buf, 0 + h + h, 0 + h + h + h) == c;
    assert PySlice(buf, 0 + h + h + h, 0 + h + h + h + h) == d;
    assert PySlice(buf, 0 + h + h + h + h, 0 + h + h + h + h + |hash|) == hash;
  }

  // ---------------------------------------------------------------------
  // The table walk

  /** What the walk collects: the first-entry pointer (as a file offset),
      the entries in table order and the sum of their content lengths. */
  datatype EmbedTable = EmbedTable(firstEntryPtr: int, entries: seq<FileEntry>, totalFileSize: nat)

  /** Sum of the content lengths. */
  function TotalContent(es: seq<FileEntry>): nat
  {
    if es == [] then 0 else TotalContent(es[..|es| - 1]) + es[|es| - 1].contentLen
  }

  /** Appending an entry adds its content length. */
  lemma TotalContentAppend(es: seq<FileEntry>, e: FileEntry)
    ensures TotalContent(es + [e]) == TotalContent(es) + e.contentLen
  {
    assert (es + [e])[..|es|] == es;
  }

  /** Nothing to extract exactly when every entry has empty content. */
  lemma {:induction false} TotalContentZero(es: seq<FileEntry>)
    ensures TotalContent(es) == 0 <==> forall i :: 0 <= i < |es| ==> es[i].contentLen == 0
  {
    if es != [] {
      var init := es[..|es| - 1];
      TotalContentZero(init);
      assert forall i :: 0 <= i < |init| ==> init[i] == es[i];
    }
  }

  /** Decodes entry i of a table whose entries begin at `first`. */
  function EntryDecoder(buf: seq<uint8>, bits: int, base: int, order: KnownOrder, first: int): nat -> FileEntry
  {
    (i: nat) => EntryAt(buf, RecordStart(first, i, RecordSize(bits)), bits, base, order)
  }

  lemma EntryDecoderAt(buf: seq<uint8>, bits: int, base: int, order: KnownOrder, first: int, i: nat)
    ensures EntryDecoder(buf, bits, base, order, first)(i) ==
      EntryAt(buf, RecordStart(first, i, RecordSize(bits)), bits, base, order)
  {
  }

  /** Where the entries begin: after the three header half-words. */
  function EntriesStart(start: int, bits: int): int
  {
    start + 3 * HalfWord(bits)
  }

  /** The table at virtual address `addr`: the structure starts at
      `addr - base`; the count is its second half-word and the entries start
      after the third. An unknown byte order fails the first read. */
  function TableAt(buf: seq<uint8>, addr: int, bits: int, order: ByteOrder): Result<EmbedTable>
  {
    if order == NoOrder then Err(InvalidByteOrder)
    else Ok(TableFrom(buf, addr - BaseAddress(bits), bits, order))
  }

  /** The table whose header is at file offset `start`. */
  function TableFrom(buf: seq<uint8>, start: int, bits: int, order: KnownOrder): EmbedTable
  {
    var h := HalfWord(bits);
    var es := Records(EntryDecoder(buf, bits, BaseAddress(bits), order, EntriesStart(start, bits)), UintAt(buf, start + h, h, order));
    EmbedTable(UintAt(buf, start, h, order) - BaseAddress(bits), es, TotalContent(es))
  }

  /** The table as the program reads it: class and byte order come from the
      image's identification bytes. */
  function ScanTable(buf: seq<uint8>, addr: int): Result<EmbedTable>
  {
    var id := ElfReader.ReadIdent(buf);
    TableAt(buf, addr, id.bits, id.order)
  }

  /** The walk: choose the base from the class, read the first-entry pointer
      and the count, skip the third half-word, then read `count` entries one
      entry size apart while adding up their content lengths. */
  method ReadEmbedTable(buf: seq<uint8>, addr: int) returns (r: Result<EmbedTable>)
    ensures r == ScanTable(buf, addr)
  {
    var id := ElfReader.ReadIdent(buf);
    r := ReadTableAt(buf, addr, id.bits, id.order);
  }

  /** The walk for a known class and byte order. */
  method ReadTableAt(buf: seq<uint8>, addr: int, bits: int, order: ByteOrder) returns (r: Result<EmbedTable>)
    ensures r == TableAt(buf, addr, bits, order)
  {
    var base := Elf64BaseAddr;
    if bits == 32 {
      base := Elf32BaseAddr;
    }
    r := ReadTableFrom(buf, addr - base, bits, base, order);
  }

  /** The walk from the table's file offset `start`. */
  method ReadTableFrom(buf: seq<uint8>, start: int, bits: int, base: int, order: ByteOrder)
    returns (r: Result<EmbedTable>)
    requires base == BaseAddress(bits)
    ensures order == NoOrder ==> r == Err(InvalidByteOrder)
    ensures order != NoOrder ==> r == Ok(TableFrom(buf, start, bits, order))
  {
    var nav := new EmbedEntryNav(start, bits);
    var first, count := ReadTableHeader(buf, nav, start, bits, order);
    if first.Err? {
      return Err(first.error);
    }
    var table := ReadTableEntries(buf, nav, start, bits, base, order, first.value, count);
    r := Ok(table);
  }

  /** After the header: walk the `count` entries and total their contents. */
  method ReadTableEntries(buf: seq<uint8>, nav: EmbedEntryNav, start: int, bits: int, base: int,
                          order: KnownOrder, first: nat, count: nat)
    returns (table: EmbedTable)
    requires base == BaseAddress(bits)
    requires nav.hword == HalfWord(bits) && nav.word == Word(bits) && nav.entrySize == RecordSize(bits)
    requires nav.startIndex == EntriesStart(start, bits)
    requires first == UintAt(buf, start, HalfWord(bits), order)
    requires count == UintAt(buf, start + HalfWord(bits), HalfWord(bits), order)
    modifies nav
    ensures table == TableFrom(buf, start, bits, order)
  {
    var entries, total := WalkEntries(buf, nav, count, bits, base, order);
    table := EmbedTable(first - base, entries, total);
    TableFromHeader(buf, start, bits, order, first, count, entries);
  }

  /** The three header half-words: the first-entry pointer, the count, and
      a copy of the count that is skipped. */
  method ReadTableHeader(buf: seq<uint8>, nav: EmbedEntryNav, start: int, bits: int, order: ByteOrder)
    returns (first: Result<nat>, count: nat)
    requires nav.startIndex == start && nav.hword == HalfWord(bits)
    modifies nav
    ensures first.Err? <==> order == NoOrder
    ensures first.Err? ==> first.error == InvalidByteOrder
    ensures first.Ok? ==> first.value == UintAt(buf, start, HalfWord(bits), order)
    ensures first.Ok? ==> count == UintAt(buf, start + HalfWord(bits), HalfWord(bits), order)
    ensures first.Ok? ==> nav.startIndex == EntriesStart(start, bits)
  {
    var s := nav.CurrentPos();
    var e := nav.NextHword();
    first := ReadIntAt(buf, s, e, order);
    count := 0;
    if first.Err? {
      return;
    }
    s := nav.CurrentPos();
    e := nav.NextHword();
    var c := ReadIntAt(buf, s, e, order);
    count := c.value;
    var _ := nav.NextHword();
  }

  /** The header values and the walked entries make up the table. */
  lemma TableFromHeader(buf: seq<uint8>, start: int, bits: int, order: KnownOrder, first: nat, count: nat,
                        entries: seq<FileEntry>)
    requires first == UintAt(buf, start, HalfWord(bits), order)
    requires count == UintAt(buf, start + HalfWord(bits), HalfWord(bits), order)
    requires entries == Records(EntryDecoder(buf, bits, BaseAddress(bits), order, EntriesStart(start, bits)), count)
    ensures TableFrom(buf, start, bits, order) == EmbedTable(first - BaseAddress(bits), entries, TotalContent(entries))
  {
  }

  /** The loop of the walk: `count` calls of `get_entry`, the cursor moving
      one entry size after each. */
  method WalkEntries(buf: seq<uint8>, nav: EmbedEntryNav, count: nat, bits: int, base: int, order: KnownOrder)
    returns (entries: seq<FileEntry>, total: nat)
    requires nav.hword == HalfWord(bits) && nav.word == Word(bits) && nav.entrySize == RecordSize(bits)
    modifies nav
    ensures entries == Records(EntryDecoder(buf, bits, base, order, old(nav.startIndex)), count)
    ensures total == TotalContent(entries)
    ensures nav.startIndex == RecordStart(old(nav.startIndex), count, RecordSize(bits))
  {
    ghost var first := nav.startIndex;
    entries := [];
    total := 0;
    var i := 0;
    while i < count
      invariant 0 <= i <= count
      invariant nav.startIndex == RecordStart(first, i, RecordSize(bits))
      invariant entries == Records(EntryDecoder(buf, bits, base, order, first), i)
      invariant total == TotalContent(entries)
    {
      var e := ReadNextEntry(buf, nav, bits, base, order, first, i, entries);
      total := total + e.contentLen;
      entries := entries + [e];
      i := i + 1;
    }
  }

  /** One step of the walk: the entry under the cursor is read and the
      cursor moves on by one record, so the entries read so far grow by the
      next record and the total by its content length. */
  method ReadNextEntry(buf: seq<uint8>, nav: EmbedEntryNav, bits: int, base: int, order: KnownOrder,
                       ghost first: int, ghost i: nat, ghost entries: seq<FileEntry>)
    returns (e: FileEntry)
    requires nav.hword == HalfWord(bits) && nav.word == Word(bits) && nav.entrySize == RecordSize(bits)
    requires nav.startIndex == RecordStart(first, i, RecordSize(bits))
    requires entries == Records(EntryDecoder(buf, bits, base, order, first), i)
    modifies nav
    ensures nav.startIndex == RecordStart(first, i + 1, RecordSize(bits))
    ensures entries + [e] == Records(EntryDecoder(buf, bits, base, order, first), i + 1)
    ensures TotalContent(entries + [e]) == TotalContent(entries) + e.contentLen
  {
    var pos := nav.CurrentPos();
    var ent := GetEntry(buf, pos, bits, base, order);
    e := ent.value;
    EntryDecoderAt(buf, bits, base, order, first, i);
    RecordsSnoc(EntryDecoder(buf, bits, base, order, first), i);
    TotalContentAppend(entries, e);
    var _ := nav.NextEmbedEntry();
    RecordStartStep(first, i, RecordSize(bits));
  }

  /** The table is read exactly when EI_DATA names a byte order. */
  lemma ScanTableOkIff(buf: seq<uint8>, addr: int)
    ensures ScanTable(buf, addr).Ok? <==> |buf| > ElfReader.EiData && buf[ElfReader.EiData] in {1, 2}
    ensures ScanTable(buf, addr).Err? ==> ScanTable(buf, addr).error == InvalidByteOrder
  {
  }

  /** The base is 0x08048000 exactly for a class-1 (32-bit) image. */
  lemma ScanBase(buf: seq<uint8>)
    ensures BaseAddress(ElfReader.ReadIdent(buf).bits) == Elf32BaseAddr <==>
      |buf| > ElfReader.EiClass && buf[ElfReader.EiClass] == 1
  {
  }

  /** With a known byte order the table is read; it holds as many entries
      as its second half-word says, and its first half-word, less the base,
      is kept as the first-entry pointer. */
  lemma TableHeader(buf: seq<uint8>, addr: int, bits: int, order: ByteOrder)
    requires order != NoOrder
    ensures TableAt(buf, addr, bits, order).Ok?
    ensures var t := TableAt(buf, addr, bits, order).value;
      var start := addr - BaseAddress(bits);
      var h := HalfWord(bits);
      |t.entries| == UintAt(buf, start + h, h, order) < Pow256(h) &&
      t.firstEntryPtr == UintAt(buf, start, h, order) - BaseAddress(bits)
  {
    UintInWidth(buf, addr - BaseAddress(bits) + HalfWord(bits), HalfWord(bits), order);
  }

  /** Entry i of a read table is what the decoder gives for i. */
  lemma TableRecord(buf: seq<uint8>, addr: int, bits: int, order: KnownOrder, i: nat)
    requires i < UintAt(buf, addr - BaseAddress(bits) + HalfWord(bits), HalfWord(bits), order)
    ensures var first := EntriesStart(addr - BaseAddress(bits), bits);
      TableAt(buf, addr, bits, order).value.entries[i] == EntryDecoder(buf, bits, BaseAddress(bits), order, first)(i)
  {
    var first := EntriesStart(addr - BaseAddress(bits), bits);
    var n := UintAt(buf, addr - BaseAddress(bits) + HalfWord(bits), HalfWord(bits), order);
    RecordsAt(EntryDecoder(buf, bits, BaseAddress(bits), order, first), n, i);
  }

  /** Entry i of a read table, for every i below the count, is the one
      decoded RecordSize(bits) * i bytes after the three header half-words. */
  lemma TableEntryAt(buf: seq<uint8>, addr: int, bits: int, order: KnownOrder, i: nat)
    requires i < UintAt(buf, addr - BaseAddress(bits) + HalfWord(bits), HalfWord(bits), order)
    ensures var first := EntriesStart(addr - BaseAddress(bits), bits);
      TableAt(buf, addr, bits, order).value.entries[i] ==
        EntryAt(buf, RecordStart(first, i, RecordSize(bits)), bits, BaseAddress(bits), order)
  {
    var first := EntriesStart(addr - BaseAddress(bits), bits);
    TableRecord(buf, addr, bits, order, i);
    EntryDecoderAt(buf, bits, BaseAddress(bits), order, first, i);
  }

  /** The total of a read table is the sum of its content lengths, and it is
      zero exactly when every entry is a directory. */
  lemma TableTotal(buf: seq<uint8>, addr: int, bits: int, order: KnownOrder)
    ensures var t := TableAt(buf, addr, bits, order).value;
      t.totalFileSize == TotalContent(t.entries) &&
      (t.totalFileSize == 0 <==> forall i :: 0 <= i < |t.entries| ==> t.entries[i].isDirectory)
  {
    var t := TableAt(buf, addr, bits, order).value;
    TotalContentZero(t.entries);
    forall i | 0 <= i < |t.entries|
      ensures t.entries[i].isDirectory <==> t.entries[i].contentLen == 0
    {
      TableRecord(buf, addr, bits, order, i);
      EntryDecoderAt(buf, bits, BaseAddress(bits), order, EntriesStart(addr - BaseAddress(bits), bits), i);
    }
  }
}
