# Go embed-table extractor: ELF reader and table walker

This project models the decoding core of a small tool that pulls the files
embedded with Go's `embed` package out of a compiled ELF executable. The core
has two parts.

- `read_elf.py` is a minimal ELF reader. It takes the class and data encoding
  from the identification bytes. It locates the header fields by adding up the
  widths of the fields before them. It walks the section-header table,
  resolves every section name through the section-name string table, and
  finds the `.rodata` section.
- `gembe.py` walks the embed table found at a virtual address the user gives.
  The address is made a file offset by subtracting the image base, which is
  0x08048000 for a 32-bit image and 0x400000 otherwise. The table starts
  with three half-words: the first-entry pointer, the entry count, and the
  count again. Fixed-size entries follow. Each entry holds a name pointer and
  length, a content pointer and length, and a hash rendered as hex.

The model has three modules.

- `Bytes` (`bytes.dfy`) holds the byte-level primitives. `read_bytes` is a
  clamped slice, and Python's negative slice bounds are modelled too.
  `int.from_bytes` is modelled in both byte orders, and rejects an unknown
  order. `bytes.hex()` is modelled with its inverse.
- `ElfReader` (`elf_reader.dfy`) models `read_elf.py`. The `ShTableNav`
  cursor is a class whose methods move a field. Each function with a loop is
  a method with its loop, except the `.rodata` search: that loop only looks
  for the first match, and it is the recursive function `FirstNamed`, which
  `GetRodataSection` calls. Every method is proved equal to a specification
  function, such as `HeaderOffset`, `DecodeShEntry`, `CStringAt`,
  `SectionTable` or `FirstNamed`, and the properties are proved about those
  functions.
- `Gembe` (`embed_table.dfy`) models `gembe.py` in the same way. The
  `EmbedEntryNav` class is the cursor. `GetEntry` is proved against
  `EntryAt`. The table walk is proved against `TableAt`: the entries are
  `Records(EntryDecoder(...), count)` and the total is `TotalContent`.

The process-wide settings of the original become parameters:

- `ELF_BITS` becomes `bits`;
- `ELF_FIELDS` and `SH_ENTRY` are chosen from `bits`;
- `ELF_BASE_ADDR` becomes `base`, or `BaseAddress(bits)`;
- the byte order becomes `order`.

Where the code and the behaviour documented for it differ, the model follows
the code:

- `read_bytes` does not strip trailing NUL bytes. Its loop compares an
  integer with a one-byte `bytes` value, so the test is always false and the
  loop body never runs. `read_bytes` is therefore exactly a slice.
- Reads past the end of the buffer do not fail. Slices are clamped, and a
  short field decodes to a smaller value. Only an index past the end fails:
  `e_shstrndx` outside the entry list, or a name with no terminating NUL.
- Decoding fails for one reason only: an unrecognised EI_DATA byte, because
  `int.from_bytes` rejects the byte order `"none"`. This is
  `Err(InvalidByteOrder)`.
- In a 32-bit image the hash taken is 8 bytes, not 16. The entry is 32 bytes
  long, so its last 8 bytes are never read (`EntryLayout`).
- Names are found by scanning from the `sh_name` index to the next NUL. The
  list produced by splitting the string table on NUL bytes is never used.

## Model

| member | source | states |
|---|---|---|
| Bytes.Slice | read_elf.py:59-64 | `read_bytes` yields max(0, min(e, len) - s) bytes, and byte k of the result is byte s + k of the buffer; no trailing byte is stripped |
| Bytes.SliceRange | read_elf.py:59-64 | inside the buffer, `read_bytes` is exactly the range [s, e) |
| Bytes.PySliceLength | gembe.py:90-95 | a Python slice never holds more bytes than its bounds span, unless the end is negative and the start is not |
| Bytes.PySliceFromEnd | gembe.py:90-95 | negative slice bounds count from the end of the buffer |
| Bytes.FromBytes | read_elf.py:67-68 | `int.from_bytes` fails exactly when the byte order is unknown, with InvalidByteOrder; otherwise the value is below 256^n for n bytes |
| Bytes.ReadBytesAsInt | read_elf.py:67-68 | `read_bytes_as_int` fails exactly for an unknown byte order; its value is below 256^(e - s) |
| Bytes.UintBound | read_elf.py:67-68 | an n-byte integer decoded in either order is below 256^n |
| Bytes.LittleEndianRoundTrip | read_elf.py:67-68 | little-endian decoding of the n-byte encoding of v gives back v for every v < 256^n |
| Bytes.EncodeLittleRoundTrip | read_elf.py:67-68 | re-encoding a decoded little-endian value at the same width gives back the bytes |
| Bytes.BigEndianIsReversedLittle | read_elf.py:67-68 | the big-endian value is the little-endian value of the reversed bytes |
| Bytes.SingleByteEitherOrder | read_elf.py:98-99 | a one-byte field has the same value in both orders, and that value is the byte itself |
| Bytes.Hex | gembe.py:124-126 | `bytes.hex()` has two characters per byte, each a lower-case hex digit |
| Bytes.HexRoundTrip | gembe.py:124-126 | reading the hex string back two digits at a time gives back the bytes |
| ElfReader.LayoutOffsets | read_elf.py:5-37 | the prefix sums of all four width lists, so every field offset in both classes |
| ElfReader.LayoutSizes | read_elf.py:119-142 | the ELF header is 52 or 64 bytes long and a section-header entry 40 or 64 bytes |
| ElfReader.HeaderFieldOffsets | read_elf.py:39-54 | e_shoff, e_shentsize, e_shnum and e_shstrndx sit at 40, 58, 60, 62 (64-bit) and 32, 46, 48, 50 (32-bit); e_shoff is 8 or 4 bytes wide |
| ElfReader.FieldsTileHeader | read_elf.py:78-82 | every field lies inside the header, and each one starts where the one before it ends |
| ElfReader.FieldOffset | read_elf.py:78-82 | `get_field_offset` returns the sum of the widths of the fields before the named one |
| ElfReader.ReadField | read_elf.py:85-88 | `read_field` decodes the field's own width of bytes at its offset, always little-endian, so the value fits that width |
| ElfReader.FieldValueBound | read_elf.py:85-88 | a header field's value is below 256^width |
| ElfReader.FieldValueLocal | read_elf.py:85-88 | a header field depends only on the bytes of that field |
| ElfReader.ReadIdent | read_elf.py:96-115 | the class is 32 iff EI_CLASS is 1, 64 iff it is 2, otherwise 0; the order is little iff EI_DATA is 1 and big iff it is 2; a missing byte counts as neither |
| ElfReader.MakeArchAdjustments | read_elf.py:260-269 | the 32-bit layouts (52-byte header, 40-byte entry) are chosen exactly when EI_CLASS is 1, the 64-bit ones (64 and 64 bytes) for every other class byte |
| ElfReader.ShTableNav.constructor | read_elf.py:151-153 | the cursor starts at `start` with the given entry size |
| ElfReader.ShTableNav.CurrentPos | read_elf.py:155-156 | the position reported is the cursor's current position, unchanged by asking |
| ElfReader.ShTableNav.NextUint32 | read_elf.py:158-160 | the cursor moves on 4 bytes and the new position is returned |
| ElfReader.ShTableNav.NextUint64 | read_elf.py:162-164 | the cursor moves on 8 bytes and the new position is returned |
| ElfReader.ShTableNav.NextShEntry | read_elf.py:166-168 | the cursor moves on one entry size and the new position is returned |
| ElfReader.ShLayoutOffsets | read_elf.py:119-142 | sh_name is 4 bytes at +0; sh_offset and sh_size are at +16 and +20 (32-bit) or +24 and +32, and are 4 or 8 bytes wide |
| ElfReader.ShEntryFieldsAt | read_elf.py:178-207 | a decoded entry has no name yet; its name index, offset and size are the 4-byte field at the start and the two word fields at +16/+20 (4 bytes) or +24/+32 (8 bytes) |
| ElfReader.ShEntryReadsOnlyEntry | read_elf.py:178-207 | decoding an entry reads no byte outside the entry's 40 or 64 bytes |
| ElfReader.GetShEntry | read_elf.py:178-207 | the cursor walk of `get_sh_entry` gives the entry the section-header layout describes; an unknown byte order fails with InvalidByteOrder |
| ElfReader.NameAtUnique | read_elf.py:217-221 | a position in the string table starts at most one NUL-terminated name |
| ElfReader.CStringAt | read_elf.py:217-221 | the name found is NUL-terminated and free of NULs; there is none exactly when no NUL follows the start |
| ElfReader.ReadShEntryName | read_elf.py:217-221 | the scan returns the bytes up to the next NUL; it fails with IndexOutOfRange exactly when none follows |
| ElfReader.ReadShHeader | read_elf.py:225-228 | the four header fields that locate the table are read with `read_field` |
| ElfReader.ReadRawEntries | read_elf.py:234-237 | the first loop yields e_shnum entries, entry i decoded at e_shoff + i * e_shentsize; an unknown byte order fails only when there is an entry to read |
| ElfReader.RawEntriesStep | read_elf.py:234-237 | reading entry i after the first i extends them by the next record |
| ElfReader.RawEntriesAt | read_elf.py:234-237 | raw entry i is the entry decoded at e_shoff + i * e_shentsize |
| ElfReader.NameEntries | read_elf.py:245-248 | the second loop names every entry in order and changes nothing else; one unterminated name fails the whole table |
| ElfReader.NameByStringTable | read_elf.py:239-248 | an e_shstrndx that is not an entry index fails with IndexOutOfRange; otherwise the names come from that section's bytes |
| ElfReader.NameTableOk | read_elf.py:239-248 | a named table keeps every entry except its name, which is the NUL-terminated string at its sh_name in the string-table section |
| ElfReader.NameTableOkIff | read_elf.py:239-248 | naming succeeds iff e_shstrndx indexes an entry and a NUL follows every sh_name index inside the string table |
| ElfReader.GetShTableEntries | read_elf.py:224-249 | `get_sh_table_entries` computes `SectionTable` |
| ElfReader.TableFromHeaderEntries | read_elf.py:224-249 | a decoded table comes from a known byte order and is the raw entries named through the string table |
| ElfReader.SectionTableEntries | read_elf.py:224-249 | on success there are exactly e_shnum entries in table order, each the raw entry at its index with a resolved name |
| ElfReader.SectionTableOkIff | read_elf.py:224-249 | the table is decoded iff the byte order is known, e_shstrndx < e_shnum, and every name is terminated inside the string table |
| ElfReader.FirstNamed | read_elf.py:253-257 | the result is the first entry with that name, and there is none exactly when no entry has it |
| ElfReader.GetRodataSection | read_elf.py:252-257 | it fails exactly when decoding the table fails, and with that same error; otherwise the result is the first section named ".rodata", or none exactly when no section has that name |
| Gembe.EntryLayout | gembe.py:7-18 | an entry is 32 bytes (32-bit) or 48 bytes; the hash fills the 64-bit entry exactly, and in a 32-bit entry 8 bytes are left unread |
| Gembe.EmbedEntryNav.constructor | gembe.py:13-18 | the widths are 4/8/32 bytes for class 32 and 8/16/48 for every other class |
| Gembe.EmbedEntryNav.CurrentPos | gembe.py:20-21 | the position reported is the cursor's current position, unchanged by asking |
| Gembe.EmbedEntryNav.NextHword | gembe.py:23-25 | the cursor moves on one half-word and the new position is returned |
| Gembe.EmbedEntryNav.NextWord | gembe.py:27-29 | the cursor moves on one word and the new position is returned |
| Gembe.EmbedEntryNav.NextEmbedEntry | gembe.py:31-33 | the cursor moves on one entry and the new position is returned |
| Gembe.ReadIntAt | gembe.py:98-99 | the embed reader's integer read fails exactly when the byte order is unknown |
| Gembe.ReadIntAtNonNegative | gembe.py:90-99 | with non-negative bounds it equals the ELF reader's `read_bytes_as_int` |
| Gembe.FileName | gembe.py:44-49 | empty when the length is 0, never longer than the length, and exactly the name range when it lies in the buffer |
| Gembe.FileNameFromEnd | gembe.py:44-49 | a negative name pointer reads bytes counted back from the end of the buffer |
| Gembe.FileContent | gembe.py:51-56 | empty when the length is 0, never longer than the length, and exactly the content range when it lies in the buffer |
| Gembe.GetEntry | gembe.py:102-130 | the cursor walk of `get_entry` gives the entry the embed layout describes; an unknown byte order fails with InvalidByteOrder |
| Gembe.EntryFields | gembe.py:105-128 | a directory iff the content length is 0; lengths fit a half-word; the name pointer is the stored address less the base, negative iff that address is below the base; the content pointer is positive iff the stored address is above the base, and 0 otherwise |
| Gembe.EntryHash | gembe.py:124-126 | the hash is 2 * Word(bits) lower-case hex digits that read back as the Word(bits) bytes after the four half-words |
| Gembe.EntryRoundTrip | gembe.py:102-130 | decoding a little-endian encoded entry gives back the stored values, with the pointers less the base and the content pointer clamped |
| Gembe.TotalContentZero | gembe.py:207-217 | the total is 0 iff every entry has an empty content |
| Gembe.ReadEmbedTable | gembe.py:170-217 | the program's walk, with class and byte order taken from the identification bytes, computes `ScanTable` |
| Gembe.ReadTableAt | gembe.py:174-178 | the base is 0x08048000 for class 32 and 0x400000 otherwise, and the walk starts at the address less that base |
| Gembe.ReadTableFrom | gembe.py:189-217 | from a file offset, the walk fails only for an unknown byte order and otherwise computes `TableFrom` |
| Gembe.ReadTableHeader | gembe.py:189-205 | the first half-word is the first-entry pointer and the second the count; the third is skipped, so the cursor ends three half-words on |
| Gembe.ReadTableEntries | gembe.py:207-217 | the walked entries, the total and the first pointer less the base make up the table |
| Gembe.WalkEntries | gembe.py:207-217 | the loop reads exactly `count` records in order, record i at start + i * RecordSize(bits); the total is the sum of their content lengths |
| Gembe.ReadNextEntry | gembe.py:209-216 | one iteration appends the record under the cursor, adds its content length and moves the cursor one record on |
| Gembe.ScanTableOkIff | gembe.py:189-196 | the table is read iff EI_DATA is 1 or 2; otherwise it fails with InvalidByteOrder |
| Gembe.ScanBase | gembe.py:174-176 | the base is 0x08048000 iff EI_CLASS is 1 |
| Gembe.TableHeader | gembe.py:189-205 | with a known byte order the table has as many entries as its second half-word says (below 256^h), and its first-entry pointer is the first half-word less the base |
| Gembe.TableRecord | gembe.py:207-217 | entry i of the table is the decoder's record i |
| Gembe.TableEntryAt | gembe.py:207-217 | entry i is the one decoded at addr - base + 3 half-words + i * RecordSize(bits) |
| Gembe.TableTotal | gembe.py:207-217 | the total is the sum of the content lengths, and it is 0 iff every entry is a directory |

## Left out

- Command-line parsing, opening and reading the file, console output, and
  the extraction step are not modelled. Extraction means creating
  directories, writing contents, and decoding names as UTF-8. The buffer is
  a parameter, and so are the address and the class.
- `print` in `get_sh_table_entries` is not modelled. It is console output
  only.
- `read_bytes_as_str` and `to_str` turn bytes into a string one character
  per byte, so names are kept as byte sequences. `GetRodataSection` compares
  them with the bytes of ".rodata", which is the same test.
- `name_bytes` in `get_sh_table_entries` is computed and never used, so it
  is not modelled.
- The process-wide `ELF_FIELDS`, `SH_ENTRY` and `ELF_BITS` start empty (or
  32) until `make_arch_adjustments` runs. The model always takes the layouts
  from `bits`, so a `read_field` before `make_arch_adjustments` is not
  modelled.
- A header field is named by the `HeaderField` datatype rather than a
  string, so the KeyError for an unknown field name cannot arise.
- `get_sh_table_entries` stores each name into the entry objects it already
  holds. The model builds a new sequence with the names set. Aliasing of
  those objects is not modelled, because nothing else holds them.
- `nextSHEntry` is modelled (`ShTableNav.NextShEntry`) but the source never
  calls it. Entry positions are computed as e_shoff + i * e_shentsize
  instead.
- Gembe.EntryHash: the hash is rendered but never checked against the
  content, in the model as in the source. The lemma states its format only
  for an entry that lies inside the buffer.
