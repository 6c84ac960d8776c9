/** The data model of the FAT16 layout engine: the boot-parameter block, the
    FAT16 geometry derived from it, and the two kinds of addressable region
    (`Contiguous` and the cluster-chained `File`). The three region-related
    types refer to each other, as the Python objects do: a `File` holds the
    FAT16 object, whose `p` is itself a region. */
module Geometry {
  import opened Errors
  import opened LittleEndian

  /** Clusters in [FirstDataCluster, ClusterLimit) map to the data region. */
  const FirstDataCluster: nat := 2
  const ClusterLimit: nat := 0xFFEF
  /** Links at or above EndOfChain terminate a chain. */
  const EndOfChain: nat := 0xFFF8
  /** Size of one directory slot. */
  const SlotSize: nat := 32

  predicate IsDataCluster(c: int) {
    FirstDataCluster <= c < ClusterLimit
  }

  /** What a region is a view of: the raw image, or another region. */
  datatype Backing = Image | Within(region: Region)

  /** `Contiguous(data, ofs, size)` and `File(fat, first, size)`; the `File`
      variant holds the chain as materialised when the file was opened. */
  datatype Region =
    | Contiguous(under: Backing, base: int, size: int)
    | File(fat: Fat, clusters: seq<int>, size: int)

  /** The fields of a FAT16 object: `p` (the partition region), `_start`
      (the byte offset of the FAT copy in use), the root directory extent,
      `_data_start` and `cluster_size`. */
  datatype Fat = Fat(p: Region, start: int, rootStart: nat, rootSize: nat, dataStart: nat, clusterSize: nat)

  /** The fields of a BPB object, as read from sector 0 of `p`. */
  datatype Bpb = Bpb(
    p: Region,
    formatter: seq<Byte>,
    bytesPerSector: nat,
    sectorsPerCluster: nat,
    reservedSectors: nat,
    fats: nat,
    rootEntries: nat,
    diskType: nat,
    sectorsPerFat: nat,
    hiddenSectors: nat)

  /** `FAT16.data(cluster)`: the byte offset of a data cluster, None otherwise. */
  function ClusterOffset(fat: Fat, c: int): (r: Option<nat>)
    ensures r.Some? <==> IsDataCluster(c)
    ensures r.Some? ==> fat.dataStart <= r.value
  {
    if c >= FirstDataCluster && c < ClusterLimit then
      Some(fat.dataStart + (c - FirstDataCluster) * fat.clusterSize)
    else
      None
  }

  /** Inverse of ClusterOffset: which cluster, and where inside it, a byte
      offset of the data region falls. */
  function ClusterAt(fat: Fat, addr: nat): (r: (int, nat))
    requires fat.clusterSize > 0 && addr >= fat.dataStart
    ensures r.1 < fat.clusterSize
  {
    ((addr - fat.dataStart) / fat.clusterSize + FirstDataCluster, (addr - fat.dataStart) % fat.clusterSize)
  }

  /** Every byte of a data cluster is attributed back to that cluster. */
  lemma ClusterAtInvertsOffset(fat: Fat, c: int, k: nat)
    requires fat.clusterSize > 0 && IsDataCluster(c) && k < fat.clusterSize
    ensures ClusterAt(fat, ClusterOffset(fat, c).value + k) == (c, k)
  {
    var cs := fat.clusterSize;
    var rel := (c - FirstDataCluster) * cs + k;
    assert ClusterOffset(fat, c).value + k - fat.dataStart == rel;
    DivModOfMultiple(c - FirstDataCluster, cs, k);
  }

  lemma DivModOfMultiple(q: nat, d: nat, k: nat)
    requires d > 0 && k < d
    ensures (q * d + k) / d == q && (q * d + k) % d == k
  {
    var a := q * d + k;
    var q', k' := a / d, a % d;
    assert a == q' * d + k';
    if q' > q {
      assert q' * d >= (q + 1) * d by { MulMonotone(q + 1, q', d); }
    } else if q' < q {
      assert q * d >= (q' + 1) * d by { MulMonotone(q' + 1, q, d); }
    }
  }

  lemma MulMonotone(x: nat, y: nat, d: nat)
    requires x <= y
    ensures x * d <= y * d
  {
  }

  /** Distinct data clusters occupy disjoint byte ranges. */
  lemma ClustersDisjoint(fat: Fat, c: int, d: int, k: nat, j: nat)
    requires fat.clusterSize > 0 && IsDataCluster(c) && IsDataCluster(d) && c != d
    requires k < fat.clusterSize && j < fat.clusterSize
    ensures ClusterOffset(fat, c).value + k != ClusterOffset(fat, d).value + j
  {
    ClusterAtInvertsOffset(fat, c, k);
    ClusterAtInvertsOffset(fat, d, j);
  }

  /** Consecutive cluster numbers are adjacent on disk, one cluster apart. */
  lemma ClustersAdjacent(fat: Fat, c: int)
    requires IsDataCluster(c) && IsDataCluster(c + 1)
    ensures ClusterOffset(fat, c + 1).value == ClusterOffset(fat, c).value + fat.clusterSize
  {
  }
}
