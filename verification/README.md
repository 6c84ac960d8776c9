# FAT16 layout engine, modelled in Dafny

This project models the core of `fat.py`, a small Python tool that reads and
patches FAT16 disk images. The modelled parts are the following:

- the boot-parameter block (`BPB`);
- the geometry derived from it (`FAT16`: where each FAT copy, the root
  directory and the data region start);
- the two-byte cluster links of the FAT (`get_next`, `set_next`);
- the `Data` abstraction of addressable regions, with its bounds checks and
  its two translations: `Contiguous` is a window onto another region, and
  `File` is a cluster chain;
- the chain walk of `File.__init__`;
- the decoding of 32-byte directory slots (`Entry`, including `open` and
  `set_first`);
- `Directory`, with `__len__`, `__getitem__` and `get`.

The image is an immutable byte sequence (`Regions.Store`). Its bytes are
`newtype Byte = b: int | 0 <= b < 0x100` rather than `bv8`: the values are
the same, and integer arithmetic is much cheaper for the solver than
bit-vector arithmetic. Every operation is a pure function that returns a
`Result`. Each error constructor except `ImageRange` and `OutOfFuel` names
the Python exception it stands for. `ImageRange` stands for a short read or
a file extension of the image file, and `OutOfFuel` for a chain walk that
never ends (both under "Left out"). An access to a region first composes the
translations of every layer down to the image (`Regions.Locate`). It then
slices the image (for a read) or splices into it (for a write). Translation
never looks at the bytes, so the outcome, including which error is raised
first, is that of the Python delegation chain.

Modules, in dependency order:

| module | file | what it holds |
|---|---|---|
| `Errors` | errors.dfy | the error kinds; `Result`, `Option` |
| `LittleEndian` | little_endian.dfy | the `<H`, `<I` and `B` formats of `struct`, as explicit codecs |
| `Bits` | bits.dfy | bitwise AND on naturals; masking with `n - 1` is `% n` for powers of two |
| `Geometry` | geometry.dfy | the data model (`Region`, `Fat`, `Bpb`), `FAT16.data` |
| `Regions` | regions.dfy | `_check_access`, both `_translate`s, `read`/`write`, `read_s`/`write_s` |
| `BootSector` | boot_sector.dfy | `BPB.__init__` |
| `Fat16` | fat16.dfy | `FAT16.__init__`, `get_next`, `set_next` |
| `Chains` | chains.dfy | `File.__init__`: the chain walk and its declarative meaning |
| `Entries` | entries.dfy | `Entry.__init__`, `Entry.set_first`, name decoding |
| `Directories` | directories.dfy | `Directory`, `FAT16.root`, `Entry.open` |

Where the code and its documentation disagree, or the code relies on an
assumption it never checks, the model follows the code:

- The bounds check refuses an access that ends exactly at the end of a region
  (`ofs + len >= size`), so the last byte of every region is unreachable.
- The directory-entry size field is read as two bytes (`<H`), not four.
- `Entry.open` ignores that size field. The opened file's size is always its
  chain length times the cluster size.
- `File._translate` finds the offset inside a cluster as `ofs & (cs - 1)`.
  That is `ofs % cs` only when the cluster size is a power of two, which FAT
  guarantees but `BPB` never checks. With a cluster size of 48, offset 26 of
  a file lands on offset 10 of its first cluster (`Regions.MaskAliases`), so
  `set_first` on slot 0 would overwrite the last extension byte of the name.

## Model

| member | source | states |
|---|---|---|
| LittleEndian.PackU16 | fat.py:60-61 | `struct.pack("<H", v)` succeeds exactly for 0 <= v <= 0xFFFF and otherwise raises (`ValueOutOfRange`); its two bytes decode back to v |
| LittleEndian.DecodeEncodeU16 | fat.py:55-56 | decoding the little-endian encoding of any 16-bit value returns that value |
| LittleEndian.EncodeDecodeU16 | fat.py:55-56 | encoding the decoded value of any two bytes returns those bytes |
| LittleEndian.DecodeEncodeU32 | fat.py:19 | the `<I` round trip for any 32-bit value |
| LittleEndian.EncodeDecodeU32 | fat.py:19 | encoding the `<I` value of any four bytes returns those bytes |
| LittleEndian.EncodeU16Injective | fat.py:60-61 | distinct 16-bit values are stored as distinct byte pairs |
| Bits.BitAnd | fat.py:83 | `a & b` on naturals is at most each operand |
| Bits.MaskIsMod | fat.py:83 | when the cluster size n is a power of two, `ofs & (n - 1)` is `ofs % n` |
| Geometry.ClusterOffset | fat.py:32-34 | `FAT16.data(c)` is defined exactly for clusters in [2, 0xFFEF) and never points before the data region |
| Geometry.ClusterAtInvertsOffset | fat.py:32-34 | every byte of a data cluster maps back to that cluster and its offset in it, so `data` is injective |
| Geometry.ClustersDisjoint | fat.py:32-34 | distinct data clusters occupy disjoint byte ranges when the cluster size is positive |
| Geometry.ClustersAdjacent | fat.py:34 | consecutive cluster numbers lie one cluster size apart |
| Regions.CheckAccess | fat.py:47-51 | passes exactly for non-negative offset and length; a negative offset is reported before a negative length |
| Regions.TranslateContiguous | fat.py:128-131 | fails (`OutOfBounds`) exactly when `ofs + len >= size`; otherwise lands inside the window at the same distance from its base |
| Regions.TranslateFile | fat.py:79-84 | fails with `OutOfBounds` exactly when `ofs + len >= size`; success implies the chain index exists and names a data cluster |
| Regions.TranslateFileInCluster | fat.py:82-84 | with a power-of-two cluster size, a translated offset lies inside the cluster the chain names, `ofs % cs` bytes in |
| Regions.MaskAliases | fat.py:82-84 | with a cluster size of 48, which is not a power of two, offsets 26 and 10 of a file translate to the same image byte |
| Regions.Locate | fat.py:52-59 | composing the layers fails only with region-access errors, and negative offsets and lengths are refused with the right error at the top layer |
| Regions.Read | fat.py:52-54 | a successful read returns exactly `len` bytes, the image bytes at the located offset; failures are region-access errors |
| Regions.Write | fat.py:57-59 | a write never changes the image length |
| Regions.ReadU8 | fat.py:13 | a one-byte read (`"B"`) yields a value below 0x100; failures are region-access errors |
| Regions.ReadU16 | fat.py:55-56 | a two-byte read yields a value below 0x10000 |
| Regions.ReadU32 | fat.py:19 | a four-byte read (`"<I"`) yields a value below 2^32; failures are region-access errors |
| Regions.ReadU8Bytes | fat.py:55-56 | `read_s(ofs, "B")` succeeds exactly when the one-byte read does, fails with that read's error otherwise, and the byte read is the value returned |
| Regions.ReadU16Bytes | fat.py:55-56 | `read_s(ofs, "<H")` succeeds exactly when the two-byte read does, fails with that read's error otherwise, and the bytes read are the little-endian encoding of the value returned |
| Regions.ReadU32Bytes | fat.py:55-56 | `read_s(ofs, "<I")` succeeds exactly when the four-byte read does, fails with that read's error otherwise, and the bytes read are the little-endian encoding of the value returned |
| Regions.WriteU16 | fat.py:60-61 | an out-of-range value raises before any translation; the image length is kept |
| Regions.ReadOutcomeIgnoresBytes | fat.py:52-59 | whether an access succeeds, and which error it raises, depends only on the image length, never on its contents |
| Regions.WriteIsSplice | fat.py:57-59 | a successful write replaces exactly the bytes at the located offset |
| Regions.ReadAfterWrite | fat.py:52-59 | reading back through the same region what was just written returns it |
| Regions.ReadFrame | fat.py:57-59 | a write leaves every read of non-overlapping image bytes unchanged |
| Regions.LastByteRefused | fat.py:129 | an access that ends exactly at the end of any region is refused with `OutOfBounds` |
| Regions.PartitionRead | fat.py:128-131 | through the whole-image window, a read succeeds exactly when it stops short of the last byte, and returns the image slice at the same offsets |
| Regions.FlatLocate | fat.py:124-131 | a stack of contiguous windows shifts offsets by the sum of their bases |
| Regions.FlatSub | fat.py:128-131 | in a stack of contiguous windows, every access inside a successful one succeeds, at the same distance from its image offset |
| Regions.FileSub | fat.py:79-84 | the same inside one cluster of a file whose cluster size is a power of two, on a flat FAT region |
| BootSector.ParseBpb | fat.py:7-19 | the parsed BPB keeps its partition and an 8-byte formatter, and every field fits the width it is stored in |
| BootSector.ParsePartition | fat.py:7-19 | on the whole image, parsing succeeds exactly when the image is longer than 32 bytes, fails only with `OutOfBounds`, and each field is the little-endian value at its fixed offset |
| BootSector.ParseBootSectorBytes | fat.py:7-19 | parsing a boot sector laid out from a BPB returns that BPB (round trip) |
| Fat16.FromBpb | fat.py:24-30 | the FAT16 object addresses the BPB's partition; where each area starts is stated by `Fat16.FatLayout` |
| Fat16.FatLayout | fat.py:24-30 | FAT copies follow the reserved sectors back to back, the root directory follows the last copy, the data region follows the root, and cluster 2 starts the data region |
| Fat16.DataAddress | fat.py:26-34 | the byte offset of data cluster c, in BPB terms; no offset for other numbers |
| Fat16.GetNext | fat.py:35-36 | a link is a 16-bit value; reading it fails only with region-access errors |
| Fat16.SetNext | fat.py:37-38 | storing a value outside 16 bits raises; the image length is kept |
| Fat16.GetAfterSet | fat.py:35-38 | `get_next(c)` after `set_next(c, v)` returns v |
| Fat16.SetNextFrame | fat.py:37-38 | on a flat FAT, storing the link of c leaves the link of every other cluster as it was |
| Fat16.SetNextBytes | fat.py:37-38 | on a flat FAT, storing a link changes exactly its two image bytes |
| Chains.Walk | fat.py:65-73 | for any link table, the walk extends its starting chain only with data clusters, by fewer links than its fuel |
| Chains.OpenFile | fat.py:64-78 | an opened file's chain is a valid chain from `first`; its size is the given one, or the chain length times the cluster size |
| Chains.WalkSound | fat.py:65-73 | any chain the walk returns is linked through the link table and ends at a link >= 0xFFF8 |
| Chains.ChainOfDataClusters | fat.py:65-73 | a valid chain that starts at a data cluster holds only data clusters |
| Chains.WalkExact | fat.py:65-73 | the walk returns `chain` exactly when `chain` is a valid chain from `first` no longer than the fuel |
| Chains.WalkFails | fat.py:67-73 | the walk raises e (a FAT read error, or `InvalidChain` for a link of 0, 1 or in [0xFFEF, 0xFFF8)) exactly when a linked prefix's last link raises e |
| Chains.WalkRunsOut | fat.py:66-71 | when links fail only as FAT reads do, the walk runs out of fuel exactly when `fuel` valid links can be followed from `first` |
| Chains.WalkMonotone | fat.py:66-73 | a walk that finished finishes the same way with more fuel |
| Chains.Pump | fat.py:66-71 | a chain that revisits a cluster can be followed for ever |
| Chains.OutOfFuelForever | fat.py:66-71 | a walk that exhausts `ChainFuel` has met a cycle and never terminates, whatever the fuel: the source's `while True` loops for ever |
| Chains.FuelSuffices | fat.py:66-73 | fuel beyond `ChainFuel` never changes the outcome, so the bound is exact |
| Entries.Strip | fat.py:100 | `str.strip()` leaves no whitespace at either end and never lengthens its input |
| Entries.StripIsTheTrimmedSlice | fat.py:108 | `strip` returns exactly the slice between the leading and the trailing whitespace |
| Entries.StripIdempotent | fat.py:108-110 | stripping twice is stripping once |
| Entries.DecodeName | fat.py:97-110 | the deleted flag is set exactly for a leading 0xE5 outside LFN slots; the name has no surrounding whitespace and at most 12 bytes |
| Entries.DecodeNameAsWritten | fat.py:97-110 | with the ASCII decoding of the source: fails only with `UnicodeDecodeError`, and otherwise agrees with the byte-level decoding |
| Entries.EscapedNameRaises | fat.py:103-108 | as written, every slot whose name starts with the 0x05 escape raises `UnicodeDecodeError` |
| Entries.AsciiNamesAgree | fat.py:97-110 | on ASCII names without the escape, the byte-level decoding is what the source computes |
| Entries.FreeOrLfnNameEmpty | fat.py:97-98 | a free slot, or one with any of the attribute bits 0x0F, has an empty, undeleted name |
| Entries.JoinName | fat.py:107-110 | the joined name is trimmed, starts with the stripped base, and is just the stripped base when the extension bytes are three spaces |
| Entries.DeletedNameSkipsMarker | fat.py:105-110 | a deleted slot is flagged deleted and its name is joined from bytes 1..7 and the extension, without the marker |
| Entries.EscapedLeadByte | fat.py:103-104 | a leading 0x05 decodes to a name starting with 0xE5 and does not mark the slot deleted |
| Entries.ExtensionAppended | fat.py:108-110 | a dot and the stripped extension are appended exactly when bytes 8..10 are not three spaces |
| Entries.DecodeEntry | fat.py:89-112 | a decoded entry remembers its slot, its attributes fit a byte, and its first cluster and size fit 16 bits; failures are region-access errors |
| Entries.DecodeEntryReads | fat.py:95-112 | for any region, decoding succeeds exactly when the attribute, name, first-cluster and size reads all succeed; the attributes are the byte read at 0x0B, the name and deleted flag are decoded from the 11 name bytes, and the first cluster and size are the two-byte fields at 0x1A and 0x1C |
| Entries.DecodeSlotBytes | fat.py:95-112 | in any region where the slot's fields lie at their slot offsets from one image offset, decoding a laid-out slot recovers its name, attributes and first cluster, but only the low 16 bits of its 4-byte size |
| Entries.FlatSlot | fat.py:124-131 | in a flat region such as the root window, a slot whose name and size fields can be read has all its fields at their slot offsets from `FlatBase + ofs` |
| Entries.FileSlot | fat.py:79-84 | in a file (a subdirectory) whose cluster size is a power of two and a multiple of 32, an aligned slot whose name and size can be read lies in one cluster, with all its fields at their slot offsets |
| Entries.SetFirst | fat.py:120-122 | the entry's `first` is updated even when the write then raises; an out-of-range cluster raises |
| Entries.SetFirstRoundTrip | fat.py:120-122 | after `set_first(x)` the slot decodes again, with first cluster x |
| Entries.OtherFieldsKept | fat.py:95-112 | two images on which the name, attribute and size reads of a slot agree, and the second of which holds the encoding of x in the first-cluster field, decode the slot to the same entry except that its first cluster is x |
| Entries.SetFirstReadsBack | fat.py:120-122 | after a successful `set_first(x)`, x fits 16 bits and the field reads back as its encoding |
| Entries.SetFirstKeepsReads | fat.py:120-122 | when the slot's fields lie at their slot offsets, `set_first` leaves the name, attribute and size reads unchanged |
| Entries.SetFirstInPlace | fat.py:120-122 | when the slot's fields lie at their slot offsets from image offset a, re-decoding after `set_first(x)` gives the updated entry, the image bytes a+26 and a+27 become the encoding of x, and no other byte changes |
| Entries.SetFirstExact | fat.py:120-122 | in a flat region (the root directory), re-decoding after `set_first` gives the updated entry, and only the two bytes of the field change |
| Entries.SetFirstInFile | fat.py:113-122 | in a subdirectory file whose cluster size is a power of two and a multiple of 32, `set_first` on an aligned slot stores x in exactly the two image bytes its field maps to, and re-decoding gives the updated entry |
| Directories.NewDirectory | fat.py:154-157 | the slot count is the region size floor-divided by 32 |
| Directories.Root | fat.py:27-31 | the root directory is the window of the partition at the root start, of the root size |
| Directories.Len | fat.py:163-169 | `len(d)` is exactly the bound where `__getitem__` stops raising IndexError: for every image, slot i raises it exactly outside [0, len(d)) |
| Directories.RootLen | fat.py:28-31 | the root directory of a FAT16 has exactly as many slots as the BPB's root-entry count |
| Directories.Get | fat.py:165-169 | `IndexError` is raised exactly outside [0, count); a slot i decodes at offset 32 i of the directory's region |
| Directories.Scan | fat.py:158-161 | a found entry carries the requested name; IndexError never escapes the scan |
| Directories.Lookup | fat.py:158-161 | `get` returns only entries of this directory named `name` |
| Directories.ScanStopsAt | fat.py:158-161 | the scan's result is decided by the first slot that fails or matches |
| Directories.ScanWitness | fat.py:158-161 | every scan stops at some slot, at the latest one past the last |
| Directories.LookupFound | fat.py:158-161 | `get` returns e exactly when e is the first slot named `name` and every earlier slot decodes |
| Directories.LookupMissing | fat.py:158-161 | `get` returns None exactly when an IndexError, from `__getitem__` or from a short chain, ends the scan before a match |
| Directories.LookupFails | fat.py:158-161 | `get` raises exactly the first non-IndexError met before a match |
| Directories.LookupAbsent | fat.py:158-164 | when every slot decodes and none matches, `get` returns None |
| Directories.Open | fat.py:113-119 | the result is a directory exactly when attribute bit 0x10 is set; attributes equal to 0x0F raise; walk errors propagate; the opened region is a valid chain sized by its length |
| Directories.OpenIgnoresSize | fat.py:113-119 | opening an entry does not depend on its size field |
| Directories.OpenedFileTranslates | fat.py:76-84 | in a file opened from a data cluster with a positive cluster size, an access translates exactly when it passes the bounds check |
| Directories.FileTranslates | fat.py:79-84 | in a file region of data clusters no larger than its chain, an access translates exactly when it passes the bounds check |

## Findings

| source | as written | input that shows it | evidently intended | confidence | as-written member | corrected member |
|---|---|---|---|---|---|---|
| fat.py:103-108 | a leading 0x05 is replaced by 0xE5, then bytes 0..7 are decoded as ASCII | any slot whose first name byte is 0x05 and whose attributes have no bit of 0x0F: `Entry()` raises `UnicodeDecodeError` | the name starts with the byte 0xE5, and the slot is not deleted | high (not executed) | Entries.EscapedNameRaises | Entries.EscapedLeadByte |

The rest of the model uses the corrected, byte-level `Entries.DecodeName`.

## Left out

- The `Image` class (file I/O): the image is a byte sequence passed in and
  returned. An access outside it is `ImageRange`. Python would instead return a
  short read or extend the file. `ImageRange` cannot arise through the
  whole-image partition, because its bounds check is stricter.
- The `struct` module: replaced by the explicit codecs of `LittleEndian`.
- `do_dir`, `do_hack` and the command-line entry point: demonstration glue that
  prints or patches a particular image.
- The FIXMEs of `BPB.__init__`: no FAT16 signature test, and no other fields.
- Reads and writes that span several clusters of a `File`: as in the source,
  only the start offset is translated. The access then continues contiguously
  in the image.
- Entries.DecodeName: names stay bytes, and the rest of the model decodes
  names with it. The source's ASCII decoding, which raises on any byte
  >= 0x80, is modelled separately by `Entries.DecodeNameAsWritten`.
  `Entries.AsciiNamesAgree` and `Entries.EscapedNameRaises` relate the two.
- Chains.Walk: the walk follows any table of links (`Chains.Links`);
  `Chains.OpenFile` gives it `get_next` of the FAT in use. The
  `while True` loop carries a fuel bound of `ChainFuel`
  (0xFFEE) link reads. `Chains.FuelSuffices` shows the bound changes no
  outcome. `Chains.OutOfFuelForever` shows that running out means the
  source loops for ever.
- Entries.SetFirstExact, Entries.SetFirstInFile: the slot-level frame of
  `set_first` is proved for flat regions (the root) and for subdirectory
  files whose cluster size is a power of two and a multiple of 32, with the
  slot at a multiple of 32. Other cluster sizes are not covered: the mask of
  `File._translate` then aliases bytes within a cluster
  (`Regions.MaskAliases`), and the frame fails. Slots in a directory nested
  below another file, that is a file whose FAT is not a flat region, are not
  covered either. `Entries.SetFirstRoundTrip` holds for every region.
- Concurrency and the file handle's lifetime (`__enter__`/`__exit__`).
