/** `Entry`: decoding one 32-byte directory slot, and `set_first`.

    Names are kept as bytes. The source decodes them as ASCII and applies
    `str.strip()`, which removes the ASCII characters Python counts as
    whitespace: 0x09-0x0D, 0x1C-0x1F and the space. */
module Entries {
  import opened Errors
  import opened LittleEndian
  import opened Bits
  import opened Geometry
  import opened Regions

  const Directory: nat := 0x10
  const Lfn: nat := 0x0F
  const Dot: Byte := 0x2E
  const FreeMarker: Byte := 0x00
  const DeletedMarker: Byte := 0xE5
  const EscapedE5: Byte := 0x05
  const BlankExtension: seq<Byte> := [0x20, 0x20, 0x20]

  /** Offsets inside a slot. */
  const AttributesOffset: int := 0x0B
  const FirstClusterOffset: int := 0x1A
  const SizeOffset: int := 0x1C

  /** `attributes & 0x0F`: any of the low four bits set. */
  predicate HasLfnBits(attributes: nat) {
    attributes % 0x10 != 0
  }

  /** `attributes & 0x10`. */
  predicate IsDirectory(attributes: nat) {
    (attributes / 0x10) % 2 == 1
  }

  predicate IsSpace(b: Byte) {
    b == 0x20 || 0x09 <= b <= 0x0D || 0x1C <= b <= 0x1F
  }

  predicate AllSpace(s: seq<Byte>) {
    forall k :: 0 <= k < |s| ==> IsSpace(s[k])
  }

  /** Neither end of `s` is whitespace. */
  predicate Trimmed(s: seq<Byte>) {
    |s| > 0 ==> !IsSpace(s[0]) && !IsSpace(s[|s| - 1])
  }

  function StripLeft(s: seq<Byte>): (r: seq<Byte>)
    decreases |s|
    ensures |r| <= |s| && r == s[|s| - |r|..]
    ensures AllSpace(s[..|s| - |r|])
    ensures |r| > 0 ==> !IsSpace(r[0])
  {
    if |s| > 0 && IsSpace(s[0]) then
      var r := StripLeft(s[1..]);
      SpaceThenAllSpace(s, |s| - |r|);
      r
    else s
  }

  function StripRight(s: seq<Byte>): (r: seq<Byte>)
    decreases |s|
    ensures |r| <= |s| && r == s[..|r|]
    ensures AllSpace(s[|r|..])
    ensures |r| > 0 ==> !IsSpace(r[|r| - 1])
  {
    if |s| > 0 && IsSpace(s[|s| - 1]) then
      var r := StripRight(s[..|s| - 1]);
      AllSpaceThenSpace(s, |r|);
      r
    else s
  }

  /** A whitespace byte followed by whitespace is whitespace. */
  lemma SpaceThenAllSpace(s: seq<Byte>, n: nat)
    requires 0 < n <= |s| && IsSpace(s[0]) && AllSpace(s[1..][..n - 1])
    ensures AllSpace(s[..n])
  {
    forall k | 0 < k < n ensures IsSpace(s[..n][k]) {
      assert s[..n][k] == s[1..][..n - 1][k - 1];
    }
  }

  /** Whitespace followed by a whitespace byte is whitespace. */
  lemma AllSpaceThenSpace(s: seq<Byte>, j: nat)
    requires j < |s| && IsSpace(s[|s| - 1]) && AllSpace(s[..|s| - 1][j..])
    ensures AllSpace(s[j..])
  {
    forall k | 0 <= k < |s| - j - 1 ensures IsSpace(s[j..][k]) {
      assert s[j..][k] == s[..|s| - 1][j..][k];
    }
    assert s[j..][|s| - j - 1] == s[|s| - 1];
  }

  /** `bytes.decode("ascii").strip()`, on bytes. */
  function Strip(s: seq<Byte>): (r: seq<Byte>)
    ensures Trimmed(r)
    ensures |r| <= |s|
  {
    StripRight(StripLeft(s))
  }

  /** StripLeft stops at the first byte that is not whitespace. */
  lemma {:induction false} StripLeftAt(s: seq<Byte>, i: nat)
    requires i <= |s| && AllSpace(s[..i]) && (i < |s| ==> !IsSpace(s[i]))
    decreases i
    ensures StripLeft(s) == s[i..]
  {
    if i > 0 {
      assert IsSpace(s[..i][0]);
      assert s[1..][..i - 1] == s[1..i];
      assert forall k :: 0 <= k < i - 1 ==> s[1..i][k] == s[..i][k + 1];
      StripLeftAt(s[1..], i - 1);
      assert s[1..][i - 1..] == s[i..];
    }
  }

  /** StripRight stops after the last byte that is not whitespace. */
  lemma {:induction false} StripRightAt(s: seq<Byte>, j: nat)
    requires j <= |s| && AllSpace(s[j..]) && (j > 0 ==> !IsSpace(s[j - 1]))
    decreases |s| - j
    ensures StripRight(s) == s[..j]
  {
    if j < |s| {
      assert IsSpace(s[j..][|s| - 1 - j]);
      var t := s[..|s| - 1];
      assert forall k :: 0 <= k < |t| - j ==> t[j..][k] == s[j..][k];
      StripRightAt(t, j);
      assert t[..j] == s[..j];
    } else {
      assert s[..j] == s;
    }
  }

  /** Strip keeps exactly the slice between the leading and the trailing
      whitespace: any slice with whitespace-only surroundings and non-space
      ends (or an all-whitespace input) is what it returns. */
  lemma StripIsTheTrimmedSlice(s: seq<Byte>, i: nat, j: nat)
    requires i <= j <= |s|
    requires AllSpace(s[..i]) && AllSpace(s[j..]) && Trimmed(s[i..j])
    ensures Strip(s) == s[i..j]
  {
    if i < j {
      StripNonEmptySlice(s, i, j);
    } else {
      StripAllSpace(s, i);
    }
  }

  lemma StripNonEmptySlice(s: seq<Byte>, i: nat, j: nat)
    requires i < j <= |s|
    requires AllSpace(s[..i]) && AllSpace(s[j..]) && Trimmed(s[i..j])
    ensures Strip(s) == s[i..j]
  {
    StripLeftOfSlice(s, i, j);
    StripRightOfSlice(s, i, j);
  }

  lemma StripLeftOfSlice(s: seq<Byte>, i: nat, j: nat)
    requires i < j <= |s| && AllSpace(s[..i]) && Trimmed(s[i..j])
    ensures StripLeft(s) == s[i..]
  {
    assert s[i] == s[i..j][0];
    StripLeftAt(s, i);
  }

  lemma StripRightOfSlice(s: seq<Byte>, i: nat, j: nat)
    requires i < j <= |s| && AllSpace(s[j..]) && Trimmed(s[i..j])
    ensures StripRight(s[i..]) == s[i..j]
  {
    var l := s[i..];
    assert s[j - 1] == s[i..j][j - i - 1];
    assert l[j - i..] == s[j..] && l[j - i - 1] == s[j - 1];
    StripRightAt(l, j - i);
    assert l[..j - i] == s[i..j];
  }

  lemma StripAllSpace(s: seq<Byte>, i: nat)
    requires i <= |s| && AllSpace(s[..i]) && AllSpace(s[i..])
    ensures Strip(s) == []
  {
    assert AllSpace(s) by {
      forall k | 0 <= k < |s| ensures IsSpace(s[k]) {
        if k < i { assert s[..i][k] == s[k]; } else { assert s[i..][k - i] == s[k]; }
      }
    }
    assert s[..|s|] == s;
    StripLeftAt(s, |s|);
    StripRightAt([], 0);
  }

  /** Stripping twice is stripping once. */
  lemma StripIdempotent(s: seq<Byte>)
    ensures Strip(Strip(s)) == Strip(s)
  {
    var r := Strip(s);
    assert r[..0] == [] && r[|r|..] == [];
    assert r[0..|r|] == r;
    StripIsTheTrimmedSlice(r, 0, |r|);
  }

  /** The name and the deleted flag decoded from the 11 name bytes of a slot. */
  datatype Name = Name(text: seq<Byte>, deleted: bool)

  /** Joining two trimmed names with a dot gives a trimmed name that starts
      with the first. */
  lemma JoinTrimmed(a: seq<Byte>, b: seq<Byte>)
    requires Trimmed(a) && Trimmed(b)
    ensures Trimmed(a + [Dot] + b)
    ensures (a + [Dot] + b)[..|a|] == a
  {
    var full := a + [Dot] + b;
    assert full[..|a|] == a;
    assert full[|full| - 1] == if |b| > 0 then b[|b| - 1] else Dot;
    assert full[0] == if |a| > 0 then a[0] else Dot;
  }

  /** The name-decoding branch of `Entry.__init__`. */
  function DecodeName(raw: seq<Byte>, attributes: nat): (n: Name)
    requires |raw| == 11
    ensures n.deleted <==> raw[0] == DeletedMarker && !HasLfnBits(attributes)
    ensures Trimmed(n.text) && |n.text| <= 12
  {
    if raw[0] == FreeMarker || HasLfnBits(attributes) then Name([], false)
    else if raw[0] == Dot then Name(Strip(raw), false)
    else
      var unescaped := if raw[0] == EscapedE5 then [DeletedMarker] + raw[1..] else raw;
      var start := if raw[0] == DeletedMarker then 1 else 0;
      Name(JoinName(unescaped[start..8], unescaped[8..]), raw[0] == DeletedMarker)
  }

  /** The stripped base name, then a dot and the stripped extension unless
      the extension bytes are three spaces. */
  function JoinName(base: seq<Byte>, ext: seq<Byte>): (r: seq<Byte>)
    ensures Trimmed(r)
    ensures |Strip(base)| <= |r| <= |base| + 1 + |ext|
    ensures r[..|Strip(base)|] == Strip(base)
    ensures ext == BlankExtension ==> r == Strip(base)
  {
    var b, e := Strip(base), Strip(ext);
    if ext != BlankExtension then
      JoinTrimmed(b, e);
      b + [Dot] + e
    else b
  }

  /** Bytes `bytes.decode("ascii")` accepts. */
  predicate IsAscii(b: seq<Byte>) {
    forall k :: 0 <= k < |b| ==> b[k] < 0x80
  }

  /** The name branch as written, including the ASCII decoding of every byte
      sequence it decodes: the whole name for a dot entry, the base bytes
      after the 0x05 escape has been undone, and the extension when it is
      not blank. */
  function DecodeNameAsWritten(raw: seq<Byte>, attributes: nat): (r: Result<Name>)
    requires |raw| == 11
    ensures r.Ok? ==> r.value == DecodeName(raw, attributes)
    ensures r.Err? ==> r.error == NotAscii
    ensures r.Err? ==> raw[0] != FreeMarker && !HasLfnBits(attributes)
  {
    if raw[0] == FreeMarker || HasLfnBits(attributes) then Ok(DecodeName(raw, attributes))
    else if raw[0] == Dot then
      if IsAscii(raw) then Ok(DecodeName(raw, attributes)) else Err(NotAscii)
    else
      var unescaped := if raw[0] == EscapedE5 then [DeletedMarker] + raw[1..] else raw;
      var start := if raw[0] == DeletedMarker then 1 else 0;
      if !IsAscii(unescaped[start..8]) then Err(NotAscii)
      else if unescaped[8..] != BlankExtension && !IsAscii(unescaped[8..]) then Err(NotAscii)
      else Ok(DecodeName(raw, attributes))
  }

  /** The fields of an `Entry`: where its slot is, and what was decoded. */
  datatype Entry = Entry(
    fat: Fat,
    data: Region,
    ofs: int,
    deleted: bool,
    attributes: nat,
    name: seq<Byte>,
    first: int,
    size: nat)

  /** `Entry(fat, data, ofs)`: the reads in the source's order. The size
      field is read as two bytes, as written. */
  function DecodeEntry(fat: Fat, data: Region, s: Store, ofs: int): (r: Result<Entry>)
    ensures r.Ok? ==> r.value.fat == fat && r.value.data == data && r.value.ofs == ofs
    ensures r.Ok? ==> r.value.attributes < 0x100 && 0 <= r.value.first < 0x1_0000 && r.value.size < 0x1_0000
    ensures r.Err? ==> IsAccessError(r.error)
  {
    var attributes :- ReadU8(data, s, ofs + AttributesOffset);
    var raw :- Read(data, s, ofs, 11);
    var name := DecodeName(raw, attributes);
    var first :- ReadU16(data, s, ofs + FirstClusterOffset);
    var size :- ReadU16(data, s, ofs + SizeOffset);
    Ok(Entry(fat, data, ofs, name.deleted, attributes, name.text, first, size))
  }

  /** `Entry.set_first(cluster)`: the in-memory field is updated before the
      write is attempted, so it changes even when the write fails. */
  function SetFirst(e: Entry, s: Store, cluster: int): (r: (Entry, Result<Store>))
    ensures r.0 == e.(first := cluster)
    ensures !(0 <= cluster < 0x1_0000) ==> r.1 == Err(ValueOutOfRange)
  {
    (e.(first := cluster), WriteU16(e.data, s, e.ofs + FirstClusterOffset, cluster))
  }

  // ---------------------------------------------------------------------
  // Name decoding

  /** A free slot, or one with any LFN attribute bit, has an empty name. */
  lemma FreeOrLfnNameEmpty(raw: seq<Byte>, attributes: nat)
    requires |raw| == 11
    requires raw[0] == FreeMarker || HasLfnBits(attributes)
    ensures DecodeName(raw, attributes) == Name([], false)
  {
  }

  /** A deleted slot drops its 0xE5 marker from the name: the name is
      built from bytes 1-7 and the extension, and is flagged deleted. */
  lemma DeletedNameSkipsMarker(raw: seq<Byte>, attributes: nat)
    requires |raw| == 11 && raw[0] == DeletedMarker && !HasLfnBits(attributes)
    ensures DecodeName(raw, attributes) == Name(JoinName(raw[1..8], raw[8..]), true)
  {
    assert raw[0] != EscapedE5 && raw[0] != FreeMarker && raw[0] != Dot;
  }

  /** A leading 0x05 stands for a literal 0xE5: the name starts with 0xE5
      and the slot is not deleted. */
  lemma EscapedLeadByte(raw: seq<Byte>, attributes: nat)
    requires |raw| == 11 && raw[0] == EscapedE5 && !HasLfnBits(attributes)
    ensures var n := DecodeName(raw, attributes);
            !n.deleted && |n.text| > 0 && n.text[0] == DeletedMarker
  {
    var u := [DeletedMarker] + raw[1..];
    var head := u[0..8];
    assert head[0] == DeletedMarker;
    assert head[..0] == [];
    StripLeftAt(head, 0);
    var base := StripRight(head);
    assert base[0] == head[0];
  }

  /** As written, the 0x05 escape can never succeed: restoring the 0xE5
      byte puts a non-ASCII byte in front of the ASCII decoding. */
  lemma EscapedNameRaises(raw: seq<Byte>, attributes: nat)
    requires |raw| == 11 && raw[0] == EscapedE5 && !HasLfnBits(attributes)
    ensures DecodeNameAsWritten(raw, attributes) == Err(NotAscii)
  {
    var unescaped := [DeletedMarker] + raw[1..];
    assert unescaped[0..8][0] == DeletedMarker;
  }

  /** For names that are ASCII throughout and do not use the escape, the
      byte-level decoding is what the source computes. */
  lemma AsciiNamesAgree(raw: seq<Byte>, attributes: nat)
    requires |raw| == 11 && IsAscii(raw) && raw[0] != EscapedE5
    ensures DecodeNameAsWritten(raw, attributes) == Ok(DecodeName(raw, attributes))
  {
    if raw[0] != FreeMarker && !HasLfnBits(attributes) && raw[0] != Dot {
      var start := if raw[0] == DeletedMarker then 1 else 0;
      assert IsAscii(raw[start..8]) by {
        forall k | 0 <= k < |raw[start..8]| ensures raw[start..8][k] < 0x80 {
          assert raw[start..8][k] == raw[start + k];
        }
      }
      assert IsAscii(raw[8..]) by {
        forall k | 0 <= k < |raw[8..]| ensures raw[8..][k] < 0x80 {
          assert raw[8..][k] == raw[8 + k];
        }
      }
    }
  }

  /** The name of an ordinary slot is its stripped base name, followed by a
      dot and the stripped extension exactly when the extension bytes are
      not three spaces. */
  lemma ExtensionAppended(raw: seq<Byte>, attributes: nat)
    requires |raw| == 11 && raw[0] != FreeMarker && raw[0] != Dot && !HasLfnBits(attributes)
    ensures var n := DecodeName(raw, attributes);
            var base := Strip(BaseBytes(raw));
            (raw[8..] == BlankExtension ==> n.text == base)
            && (raw[8..] != BlankExtension ==> n.text == base + [Dot] + Strip(raw[8..]))
  {
    var unescaped := if raw[0] == EscapedE5 then [DeletedMarker] + raw[1..] else raw;
    assert unescaped[8..] == raw[8..];
    var start := if raw[0] == DeletedMarker then 1 else 0;
    assert unescaped[start..8] == BaseBytes(raw);
  }

  /** The base-name bytes of an ordinary slot: bytes 0..7, without a
      deletion marker, with an escaped 0xE5 restored. */
  function BaseBytes(raw: seq<Byte>): seq<Byte>
    requires |raw| == 11
  {
    if raw[0] == DeletedMarker then raw[1..8]
    else if raw[0] == EscapedE5 then [DeletedMarker] + raw[1..8]
    else raw[..8]
  }

  // ---------------------------------------------------------------------
  // The slot layout

  /** Reference layout of a 32-byte slot: name and extension, attributes,
      14 bytes the decoder skips, first cluster, 4-byte size. */
  function SlotBytes(name: seq<Byte>, attributes: nat, skipped: seq<Byte>, first: nat, size: nat): (r: seq<Byte>)
    requires |name| == 11 && attributes < 0x100 && |skipped| == 14
    requires first < 0x1_0000 && size < 0x1_0000_0000
    ensures |r| == 32
  {
    name + [attributes as Byte] + skipped + EncodeU16(first) + EncodeU32(size)
  }

  /** The fields of the slot at `ofs` of `r` lie at their slot offsets from
      the image offset `a`: the name at `a`, the attributes at `a + 0x0B`,
      the first cluster at `a + 0x1A` and the size at `a + 0x1C`. */
  ghost predicate SlotLocated(r: Region, ofs: int, a: int) {
    && Locate(r, ofs, 11) == Ok(a)
    && Locate(r, ofs + AttributesOffset, 1) == Ok(a + AttributesOffset)
    && Locate(r, ofs + FirstClusterOffset, 2) == Ok(a + FirstClusterOffset)
    && Locate(r, ofs + SizeOffset, 2) == Ok(a + SizeOffset)
  }

  /** In a flat region (the root directory, in the source) a slot whose name
      and size can be read lies at its own offset past the region's base. */
  lemma FlatSlot(r: Region, ofs: int)
    requires Flat(r) && Locate(r, ofs, 11).Ok? && Locate(r, ofs + SizeOffset, 2).Ok?
    ensures SlotLocated(r, ofs, FlatBase(r) + ofs)
  {
    var span := SizeOffset + 2;
    FlatSpan(r, ofs, 11, ofs + SizeOffset, 2);
    FlatLocate(r, ofs, span);
    FlatSub(r, ofs, span, 0, 11);
    FlatSub(r, ofs, span, AttributesOffset, 1);
    FlatSub(r, ofs, span, FirstClusterOffset, 2);
    FlatSub(r, ofs, span, SizeOffset, 2);
  }

  /** A 32-byte-aligned slot fits in one cluster whose size is a multiple of 32. */
  lemma SlotInCluster(ofs: int, cs: nat)
    requires cs > 0 && cs % SlotSize == 0 && ofs % SlotSize == 0
    ensures ofs % cs + SlotSize <= cs
  {
    var q, m := ofs / cs, ofs % cs;
    var a, b := ofs / SlotSize, cs / SlotSize;
    assert q * cs == SlotSize * (q * b) by {
      assert cs == SlotSize * b;
    }
    assert m == SlotSize * (a - q * b);
    assert a - q * b < b;
  }

  /** In a file whose cluster size is a power of two and a multiple of 32,
      on a flat FAT region (a subdirectory, in the source), an aligned slot
      whose name and size can be read lies in one cluster, its fields at
      their slot offsets. */
  lemma FileSlot(r: Region, ofs: int)
    requires r.File? && Flat(r.fat.p) && IsPowerOfTwo(r.fat.clusterSize)
    requires r.fat.clusterSize % SlotSize == 0 && ofs % SlotSize == 0
    requires Locate(r, ofs, 11).Ok? && Locate(r, ofs + SizeOffset, 2).Ok?
    ensures SlotLocated(r, ofs, Locate(r, ofs, 11).value)
  {
    SlotInCluster(ofs, r.fat.clusterSize);
    FileSpan(r, ofs, 11, SizeOffset, 2);
    FileSlotFields(r, ofs);
  }

  lemma FileSlotFields(r: Region, ofs: int)
    requires r.File? && Flat(r.fat.p) && IsPowerOfTwo(r.fat.clusterSize)
    requires Locate(r, ofs, SizeOffset + 2).Ok?
    requires ofs % r.fat.clusterSize + SizeOffset + 2 < r.fat.clusterSize
    ensures SlotLocated(r, ofs, Locate(r, ofs, SizeOffset + 2).value)
  {
    var span, cs := SizeOffset + 2, r.fat.clusterSize;
    var base := Locate(r, ofs, span).value;
    assert Locate(r, ofs, 11) == Ok(base) by {
      FileSub(r, ofs, span, 0, 11);
    }
    assert Locate(r, ofs + AttributesOffset, 1) == Ok(base + AttributesOffset) by {
      FileSub(r, ofs, span, AttributesOffset, 1);
    }
    assert Locate(r, ofs + FirstClusterOffset, 2) == Ok(base + FirstClusterOffset) by {
      FileSub(r, ofs, span, FirstClusterOffset, 2);
    }
    assert Locate(r, ofs + SizeOffset, 2) == Ok(base + SizeOffset) by {
      FileSub(r, ofs, span, SizeOffset, 2);
    }
  }

  /** Decoding a slot laid out by SlotBytes recovers its fields, except that
      only the low 16 bits of the size survive, in any region where the
      slot's fields lie at their slot offsets (FlatSlot, FileSlot). */
  lemma DecodeSlotBytes(fat: Fat, r: Region, s: Store, ofs: int, a: nat,
                        name: seq<Byte>, attributes: nat, skipped: seq<Byte>, first: nat, size: nat)
    requires |name| == 11 && attributes < 0x100 && |skipped| == 14
    requires first < 0x1_0000 && size < 0x1_0000_0000
    requires SlotLocated(r, ofs, a)
    requires a + 32 <= |s| && s[a..a + 32] == SlotBytes(name, attributes, skipped, first, size)
    ensures var n := DecodeName(name, attributes);
            DecodeEntry(fat, r, s, ofs)
            == Ok(Entry(fat, r, ofs, n.deleted, attributes, n.text, first, size % 0x1_0000))
  {
    var slot := SlotBytes(name, attributes, skipped, first, size);
    var head := name + [attributes as Byte] + skipped;
    assert slot == head + EncodeU16(first) + EncodeU32(size);
    assert |head| == 26;
    assert slot[11..12] == [attributes as Byte];
    assert slot[..11] == name;
    assert slot[26..28] == EncodeU16(first);
    assert slot[28..30] == EncodeU32(size)[..2] == EncodeU16(size % 0x1_0000);
    SliceOfSlice(s, a, 32, 11, 12);
    SliceOfSlice(s, a, 32, 0, 11);
    SliceOfSlice(s, a, 32, 26, 28);
    SliceOfSlice(s, a, 32, 28, 30);
    assert Read(r, s, ofs + AttributesOffset, 1) == Ok([attributes as Byte]);
    assert Read(r, s, ofs, 11) == Ok(name);
    assert Read(r, s, ofs + FirstClusterOffset, 2) == Ok(EncodeU16(first));
    assert Read(r, s, ofs + SizeOffset, 2) == Ok(EncodeU16(size % 0x1_0000));
    DecodeEncodeU16(first);
    DecodeEncodeU16(size % 0x1_0000);
  }

  lemma SliceOfSlice(s: seq<Byte>, a: nat, n: nat, i: nat, j: nat)
    requires a + n <= |s| && i <= j <= n
    ensures s[a + i..a + j] == s[a..a + n][i..j]
  {
    var inner, outer := s[a + i..a + j], s[a..a + n][i..j];
    forall k | 0 <= k < |inner|
      ensures inner[k] == outer[k]
    {
    }
  }

  /** DecodeEntry succeeds exactly when its four reads do, and each field is
      the decoding of the bytes read for it: the name and the deleted flag
      from the 11 name bytes and the attribute byte, the first cluster and
      the size from their two-byte fields. */
  lemma DecodeEntryReads(fat: Fat, data: Region, s: Store, ofs: int)
    ensures DecodeEntry(fat, data, s, ofs).Ok? <==>
              Read(data, s, ofs + AttributesOffset, 1).Ok? && Read(data, s, ofs, 11).Ok?
              && Read(data, s, ofs + FirstClusterOffset, 2).Ok? && Read(data, s, ofs + SizeOffset, 2).Ok?
    ensures DecodeEntry(fat, data, s, ofs).Ok? ==>
              var e := DecodeEntry(fat, data, s, ofs).value;
              var n := DecodeName(Read(data, s, ofs, 11).value, e.attributes);
              && e.attributes == DecodeU8(Read(data, s, ofs + AttributesOffset, 1).value)
              && e.name == n.text && e.deleted == n.deleted
              && e.first == DecodeU16(Read(data, s, ofs + FirstClusterOffset, 2).value)
              && e.size == DecodeU16(Read(data, s, ofs + SizeOffset, 2).value)
  {
  }

  // ---------------------------------------------------------------------
  // set_first

  /** After `set_first(x)`, decoding the same slot again succeeds and reads
      back `first == x`, whatever region holds the slot. */
  lemma SetFirstRoundTrip(e: Entry, s: Store, x: int)
    requires DecodeEntry(e.fat, e.data, s, e.ofs) == Ok(e)
    requires SetFirst(e, s, x).1.Ok?
    ensures DecodeEntry(e.fat, e.data, SetFirst(e, s, x).1.value, e.ofs).Ok?
    ensures DecodeEntry(e.fat, e.data, SetFirst(e, s, x).1.value, e.ofs).value.first == x
  {
    SetFirstReadsBack(e, s, x);
    assert |SetFirst(e, s, x).1.value| == |s|;
    FieldRedecodes(e.fat, e.data, s, SetFirst(e, s, x).1.value, e.ofs, x);
  }

  /** An image of the same length whose first-cluster field holds the
      encoding of x decodes the slot too, with first cluster x. */
  lemma FieldRedecodes(fat: Fat, r: Region, s: Store, s': Store, ofs: int, x: int)
    requires DecodeEntry(fat, r, s, ofs).Ok? && |s'| == |s|
    requires 0 <= x < 0x1_0000 && Read(r, s', ofs + FirstClusterOffset, 2) == Ok(EncodeU16(x))
    ensures DecodeEntry(fat, r, s', ofs).Ok? && DecodeEntry(fat, r, s', ofs).value.first == x
  {
    DecodeEncodeU16(x);
    ReadOutcomeIgnoresBytes(r, s, s', ofs + AttributesOffset, 1);
    ReadOutcomeIgnoresBytes(r, s, s', ofs, 11);
    ReadOutcomeIgnoresBytes(r, s, s', ofs + SizeOffset, 2);
    DecodeEntryReads(fat, r, s, ofs);
    DecodeEntryReads(fat, r, s', ofs);
  }

  /** Wherever the slot's fields lie at their slot offsets from one image
      offset, `set_first(x)` stores x in exactly the two image bytes of the
      field, and re-decoding the slot gives the updated entry with every
      other field unchanged. */
  lemma SetFirstInPlace(e: Entry, s: Store, x: int, a: int)
    requires SlotLocated(e.data, e.ofs, a)
    requires DecodeEntry(e.fat, e.data, s, e.ofs) == Ok(e)
    requires SetFirst(e, s, x).1.Ok?
    ensures var s' := SetFirst(e, s, x).1.value;
            DecodeEntry(e.fat, e.data, s', e.ofs) == Ok(SetFirst(e, s, x).0)
    ensures var s' := SetFirst(e, s, x).1.value;
            var f := a + FirstClusterOffset;
            0 <= f && f + 2 <= |s| && 0 <= x < 0x1_0000 && s'[f..f + 2] == EncodeU16(x)
            && (forall k :: 0 <= k < |s| && (k < f || f + 2 <= k) ==> s'[k] == s[k])
  {
    SetFirstRedecodes(e, s, x, a);
    SetFirstBytes(e, s, x, a);
  }

  lemma SetFirstRedecodes(e: Entry, s: Store, x: int, a: int)
    requires SlotLocated(e.data, e.ofs, a)
    requires DecodeEntry(e.fat, e.data, s, e.ofs) == Ok(e)
    requires SetFirst(e, s, x).1.Ok?
    ensures DecodeEntry(e.fat, e.data, SetFirst(e, s, x).1.value, e.ofs) == Ok(e.(first := x))
  {
    SetFirstReadsBack(e, s, x);
    SetFirstKeepsReads(e, s, x, a);
    OtherFieldsKept(e.fat, e.data, s, SetFirst(e, s, x).1.value, e.ofs, e, x);
  }

  /** After a successful `set_first(x)` the field reads back as the
      encoding of x. */
  lemma SetFirstReadsBack(e: Entry, s: Store, x: int)
    requires SetFirst(e, s, x).1.Ok?
    ensures 0 <= x < 0x1_0000
    ensures Read(e.data, SetFirst(e, s, x).1.value, e.ofs + FirstClusterOffset, 2) == Ok(EncodeU16(x))
  {
    var b := PackU16(x).value;
    assert SetFirst(e, s, x).1 == Write(e.data, s, e.ofs + FirstClusterOffset, b);
    ReadAfterWrite(e.data, s, e.ofs + FirstClusterOffset, b);
  }

  /** The two bytes `set_first` writes lie outside the name, attribute and
      size fields, so those reads are unchanged. */
  lemma SetFirstKeepsReads(e: Entry, s: Store, x: int, a: int)
    requires SlotLocated(e.data, e.ofs, a)
    requires SetFirst(e, s, x).1.Ok?
    ensures var s' := SetFirst(e, s, x).1.value;
            && Read(e.data, s', e.ofs + AttributesOffset, 1) == Read(e.data, s, e.ofs + AttributesOffset, 1)
            && Read(e.data, s', e.ofs, 11) == Read(e.data, s, e.ofs, 11)
            && Read(e.data, s', e.ofs + SizeOffset, 2) == Read(e.data, s, e.ofs + SizeOffset, 2)
  {
    var r := e.data;
    var b := PackU16(x).value;
    var wofs := e.ofs + FirstClusterOffset;
    var f := a + FirstClusterOffset;
    assert SetFirst(e, s, x).1 == Write(r, s, wofs, b);
    ReadFrame(r, s, wofs, b, r, e.ofs + AttributesOffset, 1, f, a + AttributesOffset);
    ReadFrame(r, s, wofs, b, r, e.ofs, 11, f, a);
    ReadFrame(r, s, wofs, b, r, e.ofs + SizeOffset, 2, f, a + SizeOffset);
  }

  /** Two images on which the name, attribute and size reads of a slot agree
      decode it to entries that differ at most in the first cluster, which is
      whatever the second image holds in that field. */
  lemma OtherFieldsKept(fat: Fat, r: Region, s: Store, s': Store, ofs: int, e: Entry, x: int)
    requires DecodeEntry(fat, r, s, ofs) == Ok(e)
    requires 0 <= x < 0x1_0000 && Read(r, s', ofs + FirstClusterOffset, 2) == Ok(EncodeU16(x))
    requires Read(r, s', ofs + AttributesOffset, 1) == Read(r, s, ofs + AttributesOffset, 1)
    requires Read(r, s', ofs, 11) == Read(r, s, ofs, 11)
    requires Read(r, s', ofs + SizeOffset, 2) == Read(r, s, ofs + SizeOffset, 2)
    ensures DecodeEntry(fat, r, s', ofs) == Ok(e.(first := x))
  {
    DecodeEncodeU16(x);
    DecodeEntryReads(fat, r, s, ofs);
    DecodeEntryReads(fat, r, s', ofs);
  }

  lemma SetFirstBytes(e: Entry, s: Store, x: int, a: int)
    requires Locate(e.data, e.ofs + FirstClusterOffset, 2) == Ok(a + FirstClusterOffset)
    requires SetFirst(e, s, x).1.Ok?
    ensures var s' := SetFirst(e, s, x).1.value;
            var f := a + FirstClusterOffset;
            0 <= f && f + 2 <= |s| && 0 <= x < 0x1_0000 && s'[f..f + 2] == EncodeU16(x)
            && (forall k :: 0 <= k < |s| && (k < f || f + 2 <= k) ==> s'[k] == s[k])
  {
    var b := PackU16(x).value;
    WriteIsSplice(e.data, s, e.ofs + FirstClusterOffset, b);
    EncodeDecodeU16(b);
  }

  /** In a flat region (the root directory, in the source) `set_first`
      changes exactly the two image bytes of the field, and re-decoding the
      slot gives the updated entry with every other field unchanged. */
  lemma SetFirstExact(e: Entry, s: Store, x: int)
    requires Flat(e.data)
    requires DecodeEntry(e.fat, e.data, s, e.ofs) == Ok(e)
    requires SetFirst(e, s, x).1.Ok?
    ensures var s' := SetFirst(e, s, x).1.value;
            DecodeEntry(e.fat, e.data, s', e.ofs) == Ok(SetFirst(e, s, x).0)
    ensures var s' := SetFirst(e, s, x).1.value;
            var f := FlatBase(e.data) + e.ofs + FirstClusterOffset;
            0 <= f && f + 2 <= |s| && (forall k :: 0 <= k < |s| && (k < f || f + 2 <= k) ==> s'[k] == s[k])
  {
    DecodeEntryReads(e.fat, e.data, s, e.ofs);
    FlatSlot(e.data, e.ofs);
    SetFirstInPlace(e, s, x, FlatBase(e.data) + e.ofs);
  }

  /** In a file region (a subdirectory opened by `Entry.open`, in the
      source) whose cluster size is a power of two and a multiple of 32, on a
      flat FAT region, `set_first` on an aligned slot changes exactly the two
      image bytes f the field maps to, and re-decoding the slot gives the
      updated entry with every other field unchanged. */
  lemma SetFirstInFile(e: Entry, s: Store, x: int, f: int)
    requires e.data.File? && Flat(e.data.fat.p) && IsPowerOfTwo(e.data.fat.clusterSize)
    requires e.data.fat.clusterSize % SlotSize == 0 && e.ofs % SlotSize == 0
    requires DecodeEntry(e.fat, e.data, s, e.ofs) == Ok(e)
    requires SetFirst(e, s, x).1.Ok?
    requires Locate(e.data, e.ofs + FirstClusterOffset, 2) == Ok(f)
    ensures var s' := SetFirst(e, s, x).1.value;
            DecodeEntry(e.fat, e.data, s', e.ofs) == Ok(SetFirst(e, s, x).0)
    ensures var s' := SetFirst(e, s, x).1.value;
            0 <= f && f + 2 <= |s| && s'[f..f + 2] == EncodeU16(x)
            && (forall k :: 0 <= k < |s| && (k < f || f + 2 <= k) ==> s'[k] == s[k])
  {
    var a := FileEntrySlot(e.fat, e.data, s, e.ofs);
    SetFirstInPlace(e, s, x, a);
  }

  /** A slot that decodes at an aligned offset of such a file has its fields
      at their slot offsets from some image offset a. */
  lemma FileEntrySlot(fat: Fat, r: Region, s: Store, ofs: int) returns (a: int)
    requires r.File? && Flat(r.fat.p) && IsPowerOfTwo(r.fat.clusterSize)
    requires r.fat.clusterSize % SlotSize == 0 && ofs % SlotSize == 0
    requires DecodeEntry(fat, r, s, ofs).Ok?
    ensures SlotLocated(r, ofs, a)
  {
    DecodeEntryReads(fat, r, s, ofs);
    a := Locate(r, ofs, 11).value;
    FileSlot(r, ofs);
  }
}
