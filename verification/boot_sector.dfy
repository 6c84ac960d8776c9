/** `BPB.__init__`: the boot-parameter block, read field by field from fixed
    offsets of sector 0 (little-endian, as in the FAT on-disk format). */
module BootSector {
  import opened Errors
  import opened LittleEndian
  import opened Geometry
  import opened Regions

  /** Reads the fields in the source's order; the first failing read's error
      is the result. No FAT16 signature is checked. */
  function ParseBpb(p: Region, s: Store): (r: Result<Bpb>)
    ensures r.Ok? ==> r.value.p == p && |r.value.formatter| == 8
    ensures r.Ok? ==> FieldsInRange(r.value)
  {
    var formatter :- Read(p, s, 3, 8);
    var bytesPerSector :- ReadU16(p, s, 11);
    var sectorsPerCluster :- ReadU8(p, s, 13);
    var reservedSectors :- ReadU16(p, s, 14);
    var fats :- ReadU8(p, s, 16);
    var rootEntries :- ReadU16(p, s, 17);
    var diskType :- ReadU8(p, s, 21);
    var sectorsPerFat :- ReadU16(p, s, 22);
    var hiddenSectors :- ReadU32(p, s, 28);
    Ok(Bpb(p, formatter, bytesPerSector, sectorsPerCluster, reservedSectors, fats,
           rootEntries, diskType, sectorsPerFat, hiddenSectors))
  }

  /** Every field fits the width it is stored in. */
  predicate FieldsInRange(b: Bpb) {
    && b.bytesPerSector < 0x1_0000 && b.sectorsPerCluster < 0x100
    && b.reservedSectors < 0x1_0000 && b.fats < 0x100
    && b.rootEntries < 0x1_0000 && b.diskType < 0x100
    && b.sectorsPerFat < 0x1_0000 && b.hiddenSectors < 0x1_0000_0000
  }

  /** Reference layout of the first 32 bytes of a boot sector holding `b`;
      `jump`, `totalSectors` and `chs` are the bytes the parser skips. */
  function BootSectorBytes(b: Bpb, jump: seq<Byte>, totalSectors: seq<Byte>, chs: seq<Byte>): (r: seq<Byte>)
    requires FieldsInRange(b) && |b.formatter| == 8
    requires |jump| == 3 && |totalSectors| == 2 && |chs| == 4
    ensures |r| == 32
  {
    jump + b.formatter + EncodeU16(b.bytesPerSector) + [b.sectorsPerCluster as Byte]
    + EncodeU16(b.reservedSectors) + [b.fats as Byte] + EncodeU16(b.rootEntries)
    + totalSectors + [b.diskType as Byte] + EncodeU16(b.sectorsPerFat) + chs
    + EncodeU32(b.hiddenSectors)
  }

  /** Through the whole-image partition, parsing succeeds exactly when the
      image is longer than the 32 bytes read (the partition refuses its last
      byte), and every field is the little-endian value at its fixed offset. */
  lemma ParsePartition(s: Store)
    ensures ParseBpb(Partition(s), s).Ok? <==> |s| > 32
    ensures ParseBpb(Partition(s), s).Err? ==> ParseBpb(Partition(s), s).error == OutOfBounds
    ensures |s| > 32 ==>
      var b := ParseBpb(Partition(s), s).value;
      && b.formatter == s[3..11]
      && b.bytesPerSector == DecodeU16(s[11..13])
      && b.sectorsPerCluster == s[13] as nat
      && b.reservedSectors == DecodeU16(s[14..16])
      && b.fats == s[16] as nat
      && b.rootEntries == DecodeU16(s[17..19])
      && b.diskType == s[21] as nat
      && b.sectorsPerFat == DecodeU16(s[22..24])
      && b.hiddenSectors == DecodeU32(s[28..32])
  {
    PartitionRead(s, 3, 8);
    PartitionRead(s, 11, 2);
    PartitionRead(s, 13, 1);
    PartitionRead(s, 14, 2);
    PartitionRead(s, 16, 1);
    PartitionRead(s, 17, 2);
    PartitionRead(s, 21, 1);
    PartitionRead(s, 22, 2);
    PartitionRead(s, 28, 4);
  }

  /** Parsing a boot sector laid out from a BPB gives that BPB back. */
  lemma ParseBootSectorBytes(b: Bpb, jump: seq<Byte>, totalSectors: seq<Byte>, chs: seq<Byte>, rest: seq<Byte>)
    requires FieldsInRange(b) && |b.formatter| == 8
    requires |jump| == 3 && |totalSectors| == 2 && |chs| == 4 && |rest| > 0
    ensures var s := BootSectorBytes(b, jump, totalSectors, chs) + rest;
            ParseBpb(Partition(s), s) == Ok(b.(p := Partition(s)))
  {
    var sec := BootSectorBytes(b, jump, totalSectors, chs);
    var s := sec + rest;
    ParsePartition(s);
    assert s[..32] == sec;
    assert s[3..11] == b.formatter by { assert s[3..11] == sec[3..11]; }
    DecodeEncodeU16(b.bytesPerSector);
    assert s[11..13] == EncodeU16(b.bytesPerSector) by { assert s[11..13] == sec[11..13]; }
    assert s[13] as nat == b.sectorsPerCluster by { assert s[13] == sec[13]; }
    DecodeEncodeU16(b.reservedSectors);
    assert s[14..16] == EncodeU16(b.reservedSectors) by { assert s[14..16] == sec[14..16]; }
    assert s[16] as nat == b.fats by { assert s[16] == sec[16]; }
    DecodeEncodeU16(b.rootEntries);
    assert s[17..19] == EncodeU16(b.rootEntries) by { assert s[17..19] == sec[17..19]; }
    assert s[21] as nat == b.diskType by { assert s[21] == sec[21]; }
    DecodeEncodeU16(b.sectorsPerFat);
    assert s[22..24] == EncodeU16(b.sectorsPerFat) by { assert s[22..24] == sec[22..24]; }
    DecodeEncodeU32(b.hiddenSectors);
    assert s[28..32] == EncodeU32(b.hiddenSectors) by { assert s[28..32] == sec[28..32]; }
  }
}
