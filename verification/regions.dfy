/** The `Data` abstraction: bounds checks, the two `_translate` methods, and
    `read`/`write` with their `struct` helpers.

    A Python read runs `_check_access`, `_translate`, then hands the translated
    offset to the backing object, which repeats the same steps, until the raw
    image is reached. Translation never looks at the bytes, so the model first
    composes the translations (`Locate`) and then slices or splices the image
    once; the error raised is the same as in the layered original. */
module Regions {
  import opened Errors
  import opened LittleEndian
  import opened Bits
  import opened Geometry

  /** The contents of the backing image. */
  type Store = seq<Byte>

  /** `Data._check_access`. */
  function CheckAccess(ofs: int, len: int): (r: Result<()>)
    ensures r.Ok? <==> ofs >= 0 && len >= 0
    ensures ofs < 0 ==> r == Err(NegativeOffset)
    ensures ofs >= 0 && len < 0 ==> r == Err(NegativeLength)
  {
    if ofs < 0 then Err(NegativeOffset)
    else if len < 0 then Err(NegativeLength)
    else Ok(())
  }

  /** `Contiguous._translate`: refuses any access that reaches the last byte
      (`ofs + len >= size`), as written. */
  function TranslateContiguous(base: int, size: int, ofs: nat, len: nat): (r: Result<int>)
    ensures r.Err? <==> ofs + len >= size
    ensures r.Err? ==> r.error == OutOfBounds
    ensures r.Ok? ==> base <= r.value < base + size && r.value - base == ofs
  {
    if ofs + len >= size then Err(OutOfBounds) else Ok(base + ofs)
  }

  /** `File._translate`: the chain entry `ofs // cs`, plus `ofs & (cs - 1)`.
      Only the start offset is translated. */
  function TranslateFile(fat: Fat, clusters: seq<int>, size: int, ofs: nat, len: nat): (r: Result<int>)
    ensures ofs + len >= size <==> r == Err(OutOfBounds)
    ensures r.Ok? ==> fat.clusterSize > 0 && ofs / fat.clusterSize < |clusters|
                      && IsDataCluster(clusters[ofs / fat.clusterSize])
  {
    var cs := fat.clusterSize;
    if ofs + len >= size then Err(OutOfBounds)
    else if cs == 0 then Err(ZeroClusterSize)
    else if ofs / cs >= |clusters| then Err(ClusterIndexOutOfRange)
    else
      var cluster := clusters[ofs / cs];
      match ClusterOffset(fat, cluster)
      case None => Err(UnmappedCluster)
      case Some(start) => Ok(start + BitAnd(ofs, cs - 1))
  }

  /** With a power-of-two cluster size the mask is the remainder: the access
      lands in its cluster, `ofs % cs` bytes in. */
  lemma TranslateFileInCluster(fat: Fat, clusters: seq<int>, size: int, ofs: nat, len: nat)
    requires TranslateFile(fat, clusters, size, ofs, len).Ok? && IsPowerOfTwo(fat.clusterSize)
    ensures var start := ClusterOffset(fat, clusters[ofs / fat.clusterSize]).value;
            var a := TranslateFile(fat, clusters, size, ofs, len).value;
            start <= a < start + fat.clusterSize && a == start + ofs % fat.clusterSize
  {
    MaskIsMod(ofs, fat.clusterSize);
  }

  /** Without a power-of-two cluster size the mask is no remainder: with
      48-byte clusters, offsets 26 and 10 of a file translate to the same
      byte, so the first-cluster field of slot 0 overlays its name. */
  lemma MaskAliases(fat: Fat)
    requires fat.clusterSize == 48
    ensures TranslateFile(fat, [2], 48, 26, 2).Ok?
    ensures TranslateFile(fat, [2], 48, 26, 2) == TranslateFile(fat, [2], 48, 10, 1)
  {
    assert BitAnd(26, 47) == 10 by {
      assert BitAnd(0, 1) == 0;
      assert BitAnd(1, 2) == 0;
      assert BitAnd(3, 5) == 1;
      assert BitAnd(6, 11) == 2;
      assert BitAnd(13, 23) == 5;
    }
    assert BitAnd(10, 47) == 10 by {
      assert BitAnd(0, 1) == 0;
      assert BitAnd(1, 2) == 0;
      assert BitAnd(2, 5) == 0;
      assert BitAnd(5, 11) == 1 + 2 * BitAnd(2, 5);
    }
  }

  function Translate(r: Region, ofs: nat, len: nat): Result<int> {
    match r
    case Contiguous(_, base, size) => TranslateContiguous(base, size, ofs, len)
    case File(fat, clusters, size) => TranslateFile(fat, clusters, size, ofs, len)
  }

  /** The image offset an access to `r` at `ofs` of `len` bytes ends up at,
      or the error one of the layers raises on the way down. */
  function Locate(r: Region, ofs: int, len: int): (res: Result<int>)
    decreases r
    ensures res.Ok? ==> ofs >= 0 && len >= 0
    ensures res.Err? ==> IsAccessError(res.error)
    ensures ofs < 0 ==> res == Err(NegativeOffset)
    ensures ofs >= 0 && len < 0 ==> res == Err(NegativeLength)
  {
    var _ :- CheckAccess(ofs, len);
    var a :- Translate(r, ofs, len);
    match r
    case Contiguous(under, _, _) =>
      (match under
       case Image => Ok(a)
       case Within(p) => Locate(p, a, len))
    case File(fat, _, _) => Locate(fat.p, a, len)
  }

  /** The image itself: the bytes at an offset, when they exist. */
  function ImageRead(s: Store, a: int, len: nat): Result<seq<Byte>> {
    if 0 <= a && a + len <= |s| then Ok(s[a..a + len]) else Err(ImageRange)
  }

  function ImageWrite(s: Store, a: int, d: seq<Byte>): Result<Store> {
    if 0 <= a && a + |d| <= |s| then Ok(s[..a] + d + s[a + |d|..]) else Err(ImageRange)
  }

  /** `Data.read(ofs, len)`. */
  function Read(r: Region, s: Store, ofs: int, len: int): (res: Result<seq<Byte>>)
    ensures res.Ok? ==> len >= 0 && |res.value| == len
    ensures res.Err? ==> IsAccessError(res.error)
    ensures res.Ok? ==> Locate(r, ofs, len).Ok? &&
                        var a := Locate(r, ofs, len).value; 0 <= a && a + len <= |s| && res.value == s[a..a + len]
  {
    var a :- Locate(r, ofs, len);
    ImageRead(s, a, len)
  }

  /** `Data.write(ofs, data)`. */
  function Write(r: Region, s: Store, ofs: int, d: seq<Byte>): (res: Result<Store>)
    ensures res.Ok? ==> |res.value| == |s|
  {
    var a :- Locate(r, ofs, |d|);
    ImageWrite(s, a, d)
  }

  /** `read_s(ofs, "B")`. */
  function ReadU8(r: Region, s: Store, ofs: int): (res: Result<nat>)
    ensures res.Ok? ==> res.value < 0x100
    ensures res.Err? ==> IsAccessError(res.error)
  {
    var b :- Read(r, s, ofs, 1);
    Ok(DecodeU8(b))
  }

  /** `read_s(ofs, "<H")`. */
  function ReadU16(r: Region, s: Store, ofs: int): (res: Result<nat>)
    ensures res.Ok? ==> res.value < 0x1_0000
    ensures res.Err? ==> IsAccessError(res.error)
  {
    var b :- Read(r, s, ofs, 2);
    Ok(DecodeU16(b))
  }

  /** `read_s(ofs, "<I")`. */
  function ReadU32(r: Region, s: Store, ofs: int): (res: Result<nat>)
    ensures res.Ok? ==> res.value < 0x1_0000_0000
    ensures res.Err? ==> IsAccessError(res.error)
  {
    var b :- Read(r, s, ofs, 4);
    Ok(DecodeU32(b))
  }

  /** `read_s(ofs, "B")` succeeds exactly when the one-byte read does, the
      byte read is the value it returns, and a failure is the read's. */
  lemma ReadU8Bytes(r: Region, s: Store, ofs: int)
    ensures ReadU8(r, s, ofs).Ok? <==> Read(r, s, ofs, 1).Ok?
    ensures ReadU8(r, s, ofs).Ok? ==> Read(r, s, ofs, 1).value == [ReadU8(r, s, ofs).value as Byte]
    ensures ReadU8(r, s, ofs).Err? ==> ReadU8(r, s, ofs) == Err(Read(r, s, ofs, 1).error)
  {
    if Read(r, s, ofs, 1).Ok? {
      var b := Read(r, s, ofs, 1).value;
      assert b == [b[0]];
    }
  }

  /** `read_s(ofs, "<H")` succeeds exactly when the two-byte read does, the
      bytes read are the little-endian encoding of the value it returns, and
      a failure is the read's. */
  lemma ReadU16Bytes(r: Region, s: Store, ofs: int)
    ensures ReadU16(r, s, ofs).Ok? <==> Read(r, s, ofs, 2).Ok?
    ensures ReadU16(r, s, ofs).Ok? ==> Read(r, s, ofs, 2).value == EncodeU16(ReadU16(r, s, ofs).value)
    ensures ReadU16(r, s, ofs).Err? ==> ReadU16(r, s, ofs) == Err(Read(r, s, ofs, 2).error)
  {
    if Read(r, s, ofs, 2).Ok? {
      EncodeDecodeU16(Read(r, s, ofs, 2).value);
    }
  }

  /** `read_s(ofs, "<I")` succeeds exactly when the four-byte read does,
      the bytes read are the little-endian encoding of the value it returns,
      and a failure is the read's. */
  lemma ReadU32Bytes(r: Region, s: Store, ofs: int)
    ensures ReadU32(r, s, ofs).Ok? <==> Read(r, s, ofs, 4).Ok?
    ensures ReadU32(r, s, ofs).Ok? ==> Read(r, s, ofs, 4).value == EncodeU32(ReadU32(r, s, ofs).value)
    ensures ReadU32(r, s, ofs).Err? ==> ReadU32(r, s, ofs) == Err(Read(r, s, ofs, 4).error)
  {
    if Read(r, s, ofs, 4).Ok? {
      EncodeDecodeU32(Read(r, s, ofs, 4).value);
    }
  }

  /** `write_s(ofs, "<H", v)`: packing happens before the write, so an
      out-of-range value fails before any bounds check. */
  function WriteU16(r: Region, s: Store, ofs: int, v: int): (res: Result<Store>)
    ensures !(0 <= v < 0x1_0000) ==> res == Err(ValueOutOfRange)
    ensures res.Ok? ==> |res.value| == |s|
  {
    var b :- PackU16(v);
    Write(r, s, ofs, b)
  }

  // ---------------------------------------------------------------------
  // Properties of reads and writes

  /** Whether an access succeeds never depends on the bytes, only on the
      image length; so a write never changes which later accesses succeed. */
  lemma ReadOutcomeIgnoresBytes(r: Region, s: Store, t: Store, ofs: int, len: int)
    requires |s| == |t|
    ensures Read(r, s, ofs, len).Ok? <==> Read(r, t, ofs, len).Ok?
    ensures Read(r, s, ofs, len).Err? ==> Read(r, t, ofs, len) == Read(r, s, ofs, len)
  {
  }

  /** A write stores exactly its bytes at the located image offset. */
  lemma WriteIsSplice(r: Region, s: Store, ofs: int, d: seq<Byte>)
    requires Write(r, s, ofs, d).Ok?
    ensures var a := Locate(r, ofs, |d|).value;
            0 <= a && a + |d| <= |s| && Write(r, s, ofs, d).value == s[..a] + d + s[a + |d|..]
  {
  }

  /** Reading back what was just written through the same region returns it. */
  lemma ReadAfterWrite(r: Region, s: Store, ofs: int, d: seq<Byte>)
    requires Write(r, s, ofs, d).Ok?
    ensures Read(r, Write(r, s, ofs, d).value, ofs, |d|) == Ok(d)
  {
    var a := Locate(r, ofs, |d|).value;
    var s' := Write(r, s, ofs, d).value;
    assert s'[a..a + |d|] == d;
  }

  /** A write leaves every access whose image bytes it does not overlap unchanged. */
  lemma ReadFrame(w: Region, s: Store, wofs: int, d: seq<Byte>, r: Region, ofs: int, len: int, a: int, b: int)
    requires Write(w, s, wofs, d).Ok?
    requires Locate(w, wofs, |d|) == Ok(a) && Locate(r, ofs, len) == Ok(b)
    requires b + len <= a || a + |d| <= b
    ensures Read(r, Write(w, s, wofs, d).value, ofs, len) == Read(r, s, ofs, len)
  {
    var s' := Write(w, s, wofs, d).value;
    assert s' == s[..a] + d + s[a + |d|..];
    assert Read(r, s', ofs, len) == ImageRead(s', b, len);
    assert Read(r, s, ofs, len) == ImageRead(s, b, len);
    if 0 <= b && b + len <= |s| {
      SpliceFrame(s, a, d, b, len);
    }
  }

  lemma SpliceFrame(s: Store, a: nat, d: seq<Byte>, b: nat, len: nat)
    requires a + |d| <= |s| && b + len <= |s|
    requires b + len <= a || a + |d| <= b
    ensures (s[..a] + d + s[a + |d|..])[b..b + len] == s[b..b + len]
  {
    var s' := s[..a] + d + s[a + |d|..];
    assert |s'| == |s|;
    forall i | b <= i < b + len
      ensures s'[i] == s[i]
    {
      if i < a {
        assert s'[i] == s[..a][i];
      } else {
        assert i >= a + |d|;
        assert s'[i] == s[a + |d|..][i - a - |d|];
      }
    }
  }

  /** The source's off-by-one: an access that ends exactly at the end of a
      region is refused, for both kinds of region. */
  lemma LastByteRefused(r: Region, s: Store, len: nat)
    requires 0 <= r.size - len
    ensures Read(r, s, r.size - len, len) == Err(OutOfBounds)
  {
  }

  // ---------------------------------------------------------------------
  // The partition and other flat regions

  /** `Contiguous(f, 0, len(f))`: the whole image as a region. */
  function Partition(s: Store): Region {
    Contiguous(Image, 0, |s|)
  }

  /** Through the partition, a read succeeds exactly when it stops short of
      the last image byte, and returns the image bytes at the same offsets. */
  lemma PartitionRead(s: Store, ofs: int, len: int)
    ensures Read(Partition(s), s, ofs, len).Ok? <==> 0 <= ofs && 0 <= len && ofs + len < |s|
    ensures Read(Partition(s), s, ofs, len).Ok? ==> Read(Partition(s), s, ofs, len).value == s[ofs..ofs + len]
    ensures Read(Partition(s), s, ofs, len) != Err(ImageRange)
  {
  }

  /** A stack of contiguous regions over the image. */
  predicate Flat(r: Region)
    decreases r
  {
    r.Contiguous? && (r.under.Image? || Flat(r.under.region))
  }

  /** The image offset of byte 0 of a flat region. */
  function FlatBase(r: Region): int
    requires Flat(r)
    decreases r
  {
    if r.under.Image? then r.base else r.base + FlatBase(r.under.region)
  }

  /** Inside a successful access to a flat region, every smaller access
      succeeds, at the same distance from the image offset. */
  lemma {:induction false} FlatSub(r: Region, ofs: int, len: int, k: nat, l: nat)
    requires Flat(r) && Locate(r, ofs, len).Ok? && k + l <= len
    decreases r
    ensures Locate(r, ofs + k, l) == Ok(Locate(r, ofs, len).value + k)
  {
    if r.under.Within? {
      FlatSub(r.under.region, r.base + ofs, len, k, l);
    }
  }

  /** Two successful accesses to a flat region make the access spanning both
      succeed. */
  lemma {:induction false} FlatSpan(r: Region, o1: int, l1: int, o2: int, l2: int)
    requires Flat(r) && Locate(r, o1, l1).Ok? && Locate(r, o2, l2).Ok?
    requires o1 <= o2 && o1 + l1 <= o2 + l2
    decreases r
    ensures Locate(r, o1, o2 + l2 - o1).Ok?
  {
    if r.under.Within? {
      FlatSpan(r.under.region, r.base + o1, l1, r.base + o2, l2);
    }
  }

  /** Offsets that stay inside one cluster keep its number. */
  lemma SameCluster(ofs: nat, k: nat, cs: nat)
    requires cs > 0 && ofs % cs + k < cs
    ensures (ofs + k) / cs == ofs / cs && (ofs + k) % cs == ofs % cs + k
  {
    var q, m := ofs / cs, ofs % cs;
    assert ofs + k == q * cs + (m + k);
    DivModOfMultiple(q, cs, m + k);
  }

  /** Inside one cluster of a file whose cluster size is a power of two, on
      a flat FAT region, every smaller access succeeds, at the same distance
      from the image offset, as in a flat region. */
  lemma FileSub(r: Region, ofs: int, len: int, k: nat, l: nat)
    requires r.File? && Flat(r.fat.p) && IsPowerOfTwo(r.fat.clusterSize)
    requires Locate(r, ofs, len).Ok? && k + l <= len
    requires ofs % r.fat.clusterSize + len < r.fat.clusterSize
    ensures Locate(r, ofs + k, l) == Ok(Locate(r, ofs, len).value + k)
  {
    var fat, cs := r.fat, r.fat.clusterSize;
    var a := TranslateFile(fat, r.clusters, r.size, ofs, len).value;
    TranslateFileInCluster(fat, r.clusters, r.size, ofs, len);
    SameCluster(ofs, k, cs);
    TranslateFileInCluster(fat, r.clusters, r.size, ofs + k, l);
    FlatSub(fat.p, a, len, k, l);
  }

  /** Two successful accesses inside one cluster of such a file make the
      access spanning both succeed. */
  lemma FileSpan(r: Region, ofs: int, l1: int, k: nat, l2: int)
    requires r.File? && Flat(r.fat.p) && IsPowerOfTwo(r.fat.clusterSize)
    requires Locate(r, ofs, l1).Ok? && Locate(r, ofs + k, l2).Ok? && l1 <= k + l2
    requires ofs % r.fat.clusterSize + k + l2 < r.fat.clusterSize
    ensures Locate(r, ofs, k + l2).Ok?
  {
    var fat, cs := r.fat, r.fat.clusterSize;
    var a := TranslateFile(fat, r.clusters, r.size, ofs, l1).value;
    TranslateFileInCluster(fat, r.clusters, r.size, ofs, l1);
    SameCluster(ofs, k, cs);
    TranslateFileInCluster(fat, r.clusters, r.size, ofs + k, l2);
    assert TranslateFile(fat, r.clusters, r.size, ofs, k + l2) == Ok(a);
    FlatSpan(fat.p, a, l1, a + k, l2);
  }

  /** A flat region shifts offsets by a constant. */
  lemma {:induction false} FlatLocate(r: Region, ofs: int, len: int)
    requires Flat(r) && Locate(r, ofs, len).Ok?
    decreases r
    ensures Locate(r, ofs, len).value == FlatBase(r) + ofs
  {
    if r.under.Within? {
      FlatLocate(r.under.region, r.base + ofs, len);
    }
  }
}
