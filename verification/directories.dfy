/** `Directory`: an array of 32-byte slots over a region, and `Entry.open`,
    which turns a slot back into a region (a file) or a directory.

    `Directory` defines `__len__` and `__getitem__` but no `__iter__`, so
    `for e in directory` in `get` follows Python's legacy sequence protocol:
    it asks for slot 0, 1, 2, ... and stops at the first `IndexError`,
    whichever layer raised it. */
module Directories {
  import opened Errors
  import opened LittleEndian
  import opened Geometry
  import opened Regions
  import opened Fat16
  import opened Chains
  import opened Entries

  datatype Directory = Directory(fat: Fat, data: Region, count: int)

  /** `Directory(fat, data)`: as many slots as whole 32-byte blocks fit in
      the region's size (Python's `//`, which floors). */
  function NewDirectory(fat: Fat, data: Region): (d: Directory)
    ensures d.fat == fat && d.data == data
    ensures d.count * SlotSize <= data.size < (d.count + 1) * SlotSize
  {
    Directory(fat, data, data.size / SlotSize)
  }

  /** `FAT16.root`: the root directory, a contiguous view of the partition
      between the FAT copies and the data region. */
  function Root(fat: Fat): (d: Directory)
    ensures d.data.Contiguous? && d.data.under == Within(fat.p)
    ensures d.data.base == fat.rootStart && d.data.size == fat.rootSize
  {
    NewDirectory(fat, Contiguous(Within(fat.p), fat.rootStart, fat.rootSize))
  }

  /** `Directory.__len__`: the number of slots, which is exactly where
      `__getitem__` stops raising IndexError. */
  function Len(d: Directory): (n: int)
    ensures forall s: Store, i: int :: Get(d, s, i) == Err(IndexOutOfRange) <==> !(0 <= i < n)
  {
    d.count
  }

  /** The root directory of a FAT16 built from a BPB has exactly the number
      of slots the BPB announces. */
  lemma RootLen(bpb: Bpb, i: int)
    ensures Len(Root(FromBpb(bpb, i))) == bpb.rootEntries
  {
    var fat := FromBpb(bpb, i);
    assert fat.rootSize == bpb.rootEntries * SlotSize;
  }

  /** `Directory.__getitem__(i)`: the entry of slot `i`, or an IndexError
      outside [0, count). */
  function Get(d: Directory, s: Store, i: int): (r: Result<Entry>)
    ensures r == Err(IndexOutOfRange) <==> !(0 <= i < d.count)
    ensures r.Ok? ==> r.value.fat == d.fat && r.value.data == d.data && r.value.ofs == i * SlotSize
    ensures r.Err? && 0 <= i < d.count ==> IsAccessError(r.error)
  {
    if i >= 0 && i < d.count then DecodeEntry(d.fat, d.data, s, i * SlotSize)
    else Err(IndexOutOfRange)
  }

  // ---------------------------------------------------------------------
  // Directory.get

  /** `__getitem__` of a directory, as a function value. */
  function Slots(d: Directory, s: Store): (slot: int -> Result<Entry>)
    ensures forall j :: j >= d.count ==> slot(j).Err?
  {
    j => Get(d, s, j)
  }

  /** Python's legacy iteration over `__getitem__`, from index `i` on, with
      the loop body of `get(name)`: return the first entry named `name`;
      an IndexError ends the iteration, any other error escapes. `bound` is
      an index from which every slot raises, so the iteration ends. */
  function Scan(slot: int -> Result<Entry>, bound: int, name: seq<Byte>, i: nat): (r: Result<Option<Entry>>)
    requires forall j :: j >= bound ==> slot(j).Err?
    decreases bound - i
    ensures r.Ok? && r.value.Some? ==> r.value.value.name == name
    ensures r.Err? ==> !IsIndexError(r.error)
  {
    match slot(i)
    case Err(e) => if IsIndexError(e) then Ok(None) else Err(e)
    case Ok(e) => if e.name == name then Ok(Some(e)) else Scan(slot, bound, name, i + 1)
  }

  /** `Directory.get(name)`: the first entry named `name`, None when the scan
      ends without one; any error other than IndexError escapes. */
  function Lookup(d: Directory, s: Store, name: seq<Byte>): (r: Result<Option<Entry>>)
    ensures r.Ok? && r.value.Some? ==> r.value.value.name == name && r.value.value.data == d.data
  {
    var r := Scan(Slots(d, s), d.count, name, 0);
    if r.Ok? && r.value.Some? then
      FoundIsASlot(Slots(d, s), d.count, name, 0);
      r
    else r
  }

  /** Slots `i` up to `k` (excluded) all decode, and none is named `name`. */
  ghost predicate MissesBetween(slot: int -> Result<Entry>, name: seq<Byte>, i: int, k: int) {
    forall j :: i <= j < k ==> slot(j).Ok? && slot(j).value.name != name
  }

  /** The scan does not go past slot `k`. */
  ghost predicate StopsAt(slot: int -> Result<Entry>, name: seq<Byte>, k: int) {
    slot(k).Err? || slot(k).value.name == name
  }

  /** What the scan returns at the slot where it stops. */
  function Outcome(g: Result<Entry>): Result<Option<Entry>> {
    match g
    case Err(e) => if IsIndexError(e) then Ok(None) else Err(e)
    case Ok(e) => Ok(Some(e))
  }

  /** The scan's result is decided by the first slot that fails or matches. */
  lemma {:induction false} ScanStopsAt(slot: int -> Result<Entry>, bound: int, name: seq<Byte>, i: nat, k: nat)
    requires forall j :: j >= bound ==> slot(j).Err?
    requires i <= k && MissesBetween(slot, name, i, k) && StopsAt(slot, name, k)
    decreases k - i
    ensures Scan(slot, bound, name, i) == Outcome(slot(k))
  {
    if i < k {
      assert slot(i).Ok? && slot(i).value.name != name;
      ScanStopsAt(slot, bound, name, i + 1, k);
    }
  }

  /** Every scan stops somewhere: at the latest at `bound`. */
  lemma {:induction false} ScanWitness(slot: int -> Result<Entry>, bound: int, name: seq<Byte>, i: nat) returns (k: nat)
    requires forall j :: j >= bound ==> slot(j).Err?
    decreases bound - i
    ensures i <= k && MissesBetween(slot, name, i, k) && StopsAt(slot, name, k)
    ensures Scan(slot, bound, name, i) == Outcome(slot(k))
  {
    if StopsAt(slot, name, i) {
      k := i;
    } else {
      k := ScanWitness(slot, bound, name, i + 1);
    }
  }

  /** An entry the scan finds is one of the slots. */
  lemma FoundIsASlot(slot: int -> Result<Entry>, bound: int, name: seq<Byte>, i: nat)
    requires forall j :: j >= bound ==> slot(j).Err?
    requires Scan(slot, bound, name, i).Ok? && Scan(slot, bound, name, i).value.Some?
    ensures exists k :: slot(k) == Ok(Scan(slot, bound, name, i).value.value)
  {
    var k := ScanWitness(slot, bound, name, i);
  }

  /** `get(name)` returns an entry exactly when a slot named `name` is
      reached with every earlier slot decoding under another name; it is the
      first such slot. */
  lemma LookupFound(d: Directory, s: Store, name: seq<Byte>, e: Entry)
    ensures Lookup(d, s, name) == Ok(Some(e)) <==>
            exists k: nat :: MissesBetween(Slots(d, s), name, 0, k) && Get(d, s, k) == Ok(e) && e.name == name
  {
    var slot := Slots(d, s);
    if Lookup(d, s, name) == Ok(Some(e)) {
      var k := ScanWitness(slot, d.count, name, 0);
      assert MissesBetween(slot, name, 0, k) && Get(d, s, k) == Ok(e);
    }
    if exists k: nat :: MissesBetween(slot, name, 0, k) && Get(d, s, k) == Ok(e) && e.name == name {
      var k: nat :| MissesBetween(slot, name, 0, k) && Get(d, s, k) == Ok(e) && e.name == name;
      ScanStopsAt(slot, d.count, name, 0, k);
    }
  }

  /** `get(name)` returns None exactly when an IndexError ends the scan
      before any slot named `name`: normally the one past the last slot. */
  lemma LookupMissing(d: Directory, s: Store, name: seq<Byte>)
    ensures Lookup(d, s, name) == Ok(None) <==>
            exists k: nat :: MissesBetween(Slots(d, s), name, 0, k) && Get(d, s, k).Err? && IsIndexError(Get(d, s, k).error)
  {
    var slot := Slots(d, s);
    if Lookup(d, s, name) == Ok(None) {
      var k := ScanWitness(slot, d.count, name, 0);
      assert MissesBetween(slot, name, 0, k) && Get(d, s, k).Err?;
    }
    if exists k: nat :: MissesBetween(slot, name, 0, k) && Get(d, s, k).Err? && IsIndexError(Get(d, s, k).error) {
      var k: nat :| MissesBetween(slot, name, 0, k) && Get(d, s, k).Err? && IsIndexError(Get(d, s, k).error);
      ScanStopsAt(slot, d.count, name, 0, k);
    }
  }

  /** `get(name)` raises exactly the first non-IndexError a slot raises
      before a match. */
  lemma LookupFails(d: Directory, s: Store, name: seq<Byte>, e: Error)
    ensures Lookup(d, s, name) == Err(e) <==>
            exists k: nat :: MissesBetween(Slots(d, s), name, 0, k) && Get(d, s, k) == Err(e) && !IsIndexError(e)
  {
    var slot := Slots(d, s);
    if Lookup(d, s, name) == Err(e) {
      var k := ScanWitness(slot, d.count, name, 0);
      assert MissesBetween(slot, name, 0, k) && Get(d, s, k) == Err(e);
    }
    if exists k: nat :: MissesBetween(slot, name, 0, k) && Get(d, s, k) == Err(e) && !IsIndexError(e) {
      var k: nat :| MissesBetween(slot, name, 0, k) && Get(d, s, k) == Err(e) && !IsIndexError(e);
      ScanStopsAt(slot, d.count, name, 0, k);
    }
  }

  /** When every slot decodes and none is named `name`, `get` returns None. */
  lemma LookupAbsent(d: Directory, s: Store, name: seq<Byte>)
    requires 0 <= d.count && MissesBetween(Slots(d, s), name, 0, d.count)
    ensures Lookup(d, s, name) == Ok(None)
  {
    ScanStopsAt(Slots(d, s), d.count, name, 0, d.count);
  }

  // ---------------------------------------------------------------------
  // Entry.open

  /** What `Entry.open` returns. */
  datatype Opened = AsDirectory(dir: Directory) | AsFile(file: Region)

  /** `Entry.open()`: the directory bit is tested first (`& 0x10`), then
      the LFN value (`== 0x0F`); the chain is walked from the entry's first
      cluster and the entry's recorded size is not used. */
  function Open(e: Entry, s: Store): (r: Result<Opened>)
    ensures r.Ok? ==> (r.value.AsDirectory? <==> IsDirectory(e.attributes))
    ensures e.attributes == Lfn ==> r == Err(LfnEntry)
    ensures r.Err? && r.error != LfnEntry ==> OpenFile(e.fat, s, e.first, None) == Err(r.error)
    ensures r.Ok? ==> var f := if r.value.AsFile? then r.value.file else r.value.dir.data;
                      && f.File? && ValidChain(FatLinks(e.fat, s), e.first, f.clusters)
                      && f.size == |f.clusters| * e.fat.clusterSize
  {
    if IsDirectory(e.attributes) then
      var f :- OpenFile(e.fat, s, e.first, None);
      Ok(AsDirectory(NewDirectory(e.fat, f)))
    else if e.attributes == Lfn then Err(LfnEntry)
    else
      var f :- OpenFile(e.fat, s, e.first, None);
      Ok(AsFile(f))
  }

  /** The directory-entry size field plays no part in opening an entry. */
  lemma {:induction false} OpenIgnoresSize(e: Entry, s: Store, size: nat)
    ensures Open(e.(size := size), s) == Open(e, s)
  {
    assert e.(size := size).first == e.first && e.(size := size).fat == e.fat;
    assert e.(size := size).attributes == e.attributes;
  }

  /** In a file opened from a data cluster, every access that passes the
      bounds check translates: the chain is long enough for the size and
      holds only data clusters. */
  lemma OpenedFileTranslates(fat: Fat, s: Store, first: int, f: Region, ofs: nat, len: nat)
    requires OpenFile(fat, s, first, None) == Ok(f)
    requires fat.clusterSize > 0 && IsDataCluster(first)
    ensures Translate(f, ofs, len).Ok? <==> ofs + len < f.size
  {
    ChainOfDataClusters(FatLinks(fat, s), first, f.clusters);
    FileTranslates(fat, f.clusters, f.size, ofs, len);
  }

  /** A file region whose chain holds only data clusters and covers its size
      translates every access that passes the bounds check. */
  lemma FileTranslates(fat: Fat, clusters: seq<int>, size: int, ofs: nat, len: nat)
    requires fat.clusterSize > 0 && size <= |clusters| * fat.clusterSize
    requires forall k :: 0 <= k < |clusters| ==> IsDataCluster(clusters[k])
    ensures TranslateFile(fat, clusters, size, ofs, len).Ok? <==> ofs + len < size
  {
    if ofs + len < size {
      DivBelow(ofs, fat.clusterSize, |clusters|);
    }
  }

  lemma DivBelow(a: nat, d: nat, n: nat)
    requires d > 0 && a < n * d
    ensures a / d < n
  {
  }
}
