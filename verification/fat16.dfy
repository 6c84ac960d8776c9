/** `FAT16`: the geometry derived from a BPB, and the two-byte next-cluster
    links of the FAT copy in use. */
module Fat16 {
  import opened Errors
  import opened LittleEndian
  import opened Geometry
  import opened Regions

  /** `FAT16(bpb, i)`: the geometry for FAT copy `i`. */
  function FromBpb(bpb: Bpb, i: int): (fat: Fat)
    ensures fat.p == bpb.p
  {
    var root := (bpb.reservedSectors + bpb.fats * bpb.sectorsPerFat) * bpb.bytesPerSector;
    var rootSize := bpb.rootEntries * SlotSize;
    Fat(bpb.p,
        (bpb.reservedSectors + i * bpb.sectorsPerFat) * bpb.bytesPerSector,
        root, rootSize, root + rootSize,
        bpb.sectorsPerCluster * bpb.bytesPerSector)
  }

  /** The on-disk order: reserved sectors, then the FAT copies back to back,
      then the root directory (32 bytes per entry), then the data region,
      whose first cluster is number 2. */
  lemma FatLayout(bpb: Bpb, i: int)
    ensures FromBpb(bpb, 0).start == bpb.reservedSectors * bpb.bytesPerSector
    ensures FromBpb(bpb, i + 1).start == FromBpb(bpb, i).start + bpb.sectorsPerFat * bpb.bytesPerSector
    ensures FromBpb(bpb, i).rootStart == FromBpb(bpb, bpb.fats).start
    ensures FromBpb(bpb, i).dataStart == FromBpb(bpb, i).rootStart + bpb.rootEntries * SlotSize
    ensures ClusterOffset(FromBpb(bpb, i), FirstDataCluster) == Some(FromBpb(bpb, i).dataStart)
  {
    var spf, bps := bpb.sectorsPerFat, bpb.bytesPerSector;
    assert (bpb.reservedSectors + (i + 1) * spf) * bps == (bpb.reservedSectors + i * spf) * bps + spf * bps by {
      assert (i + 1) * spf == i * spf + spf;
    }
  }

  /** `FAT16.data(c)` in terms of the BPB fields: the cluster's offset past the
      reserved sectors, every FAT copy and the root directory, for every data
      cluster, and None for every other number. */
  lemma DataAddress(bpb: Bpb, i: int, c: int)
    ensures IsDataCluster(c) ==>
      ClusterOffset(FromBpb(bpb, i), c) ==
        Some((bpb.reservedSectors + bpb.fats * bpb.sectorsPerFat) * bpb.bytesPerSector
             + bpb.rootEntries * 32
             + (c - 2) * (bpb.sectorsPerCluster * bpb.bytesPerSector))
    ensures !IsDataCluster(c) ==> ClusterOffset(FromBpb(bpb, i), c) == None
  {
  }

  /** `FAT16.get_next(c)`: the two-byte link stored for cluster `c`. */
  function GetNext(fat: Fat, s: Store, c: int): (r: Result<nat>)
    ensures r.Ok? ==> r.value < 0x1_0000
    ensures r.Err? ==> IsAccessError(r.error)
  {
    ReadU16(fat.p, s, fat.start + c * 2)
  }

  /** `FAT16.set_next(c, v)`; no check against the FAT's own extent. */
  function SetNext(fat: Fat, s: Store, c: int, v: int): (r: Result<Store>)
    ensures !(0 <= v < 0x1_0000) ==> r == Err(ValueOutOfRange)
    ensures r.Ok? ==> |r.value| == |s|
  {
    WriteU16(fat.p, s, fat.start + c * 2, v)
  }

  /** A link reads back as the value just stored. */
  lemma {:induction false} GetAfterSet(fat: Fat, s: Store, c: int, v: int)
    requires SetNext(fat, s, c, v).Ok?
    ensures 0 <= v < 0x1_0000
    ensures GetNext(fat, SetNext(fat, s, c, v).value, c) == Ok(v)
  {
    var b := PackU16(v).value;
    ReadAfterWrite(fat.p, s, fat.start + c * 2, b);
  }

  /** When the FAT lives in a flat region (the partition, in the source),
      storing one link leaves every other cluster's link as it was. */
  lemma {:induction false} SetNextFrame(fat: Fat, s: Store, c: int, v: int, d: int)
    requires Flat(fat.p) && c != d
    requires SetNext(fat, s, c, v).Ok?
    ensures GetNext(fat, SetNext(fat, s, c, v).value, d) == GetNext(fat, s, d)
  {
    var b := PackU16(v).value;
    var s' := SetNext(fat, s, c, v).value;
    var wofs, rofs := fat.start + c * 2, fat.start + d * 2;
    var a := Locate(fat.p, wofs, 2).value;
    FlatLocate(fat.p, wofs, 2);
    var rl := Locate(fat.p, rofs, 2);
    if rl.Ok? {
      FlatLocate(fat.p, rofs, 2);
      ReadFrame(fat.p, s, wofs, b, fat.p, rofs, 2, a, rl.value);
    } else {
      assert Read(fat.p, s', rofs, 2) == Err(rl.error);
    }
  }

  /** In a flat region, storing a link changes exactly the two image bytes
      of that link and nothing else. */
  lemma {:induction false} SetNextBytes(fat: Fat, s: Store, c: int, v: int)
    requires Flat(fat.p)
    requires SetNext(fat, s, c, v).Ok?
    ensures var a := FlatBase(fat.p) + fat.start + c * 2;
            var s' := SetNext(fat, s, c, v).value;
            0 <= a && a + 2 <= |s| && s'[a..a + 2] == EncodeU16(v)
            && (forall k :: 0 <= k < |s| && (k < a || a + 2 <= k) ==> s'[k] == s[k])
  {
    var b := PackU16(v).value;
    var wofs := fat.start + c * 2;
    FlatLocate(fat.p, wofs, 2);
    WriteIsSplice(fat.p, s, wofs, b);
    EncodeDecodeU16(b);
  }
}
