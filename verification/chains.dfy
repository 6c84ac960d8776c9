/** `File.__init__`: resolving a cluster chain through the FAT.

    The source walks `while True`, so on a FAT with a cycle it never returns.
    The model gives the walk a fuel bound (the number of `get_next` calls it
    may make) and a distinct `OutOfFuel` outcome, and proves that the bound
    `ChainFuel` is exact: a walk that runs out of it has met a cycle, and no
    amount of extra fuel changes its outcome. */
module Chains {
  import opened Errors
  import opened Geometry
  import opened Regions
  import opened Fat16

  /** Number of distinct data clusters, [2, 0xFFEF). */
  const DataClusterCount: nat := ClusterLimit - FirstDataCluster
  /** One more link than a chain without repeats can follow. */
  const ChainFuel: nat := DataClusterCount + 1

  function Last(chain: seq<int>): int
    requires |chain| > 0
  {
    chain[|chain| - 1]
  }

  /** A link that ends a chain lies in [0xFFF8, 0xFFFF]; one that neither
      continues nor ends it is 0, 1 or in [0xFFEF, 0xFFF8). */
  predicate IsBadLink(v: int) {
    v < EndOfChain && !IsDataCluster(v)
  }

  /** The next-cluster links a walk follows: `FAT16.get_next` for the FAT
      in use, but every result below holds for any such table. */
  type Links = int -> Result<nat>

  /** The links `FAT16.get_next` reads from the image. */
  function FatLinks(fat: Fat, s: Store): (links: Links)
    ensures forall c :: links(c) == GetNext(fat, s, c)
    ensures FailsByReading(links)
  {
    c => GetNext(fat, s, c)
  }

  /** Looking up a link can fail only as a read of the FAT fails. */
  ghost predicate FailsByReading(links: Links) {
    forall c :: links(c).Err? ==> IsAccessError(links(c).error)
  }

  /** The `while True` loop of `File.__init__`, continuing from `chain`,
      allowed `fuel` more calls to `get_next`. */
  function Walk(links: Links, chain: seq<int>, fuel: nat): (r: Result<seq<int>>)
    requires |chain| > 0
    decreases fuel
    ensures r.Ok? ==> |chain| <= |r.value| < |chain| + fuel && r.value[..|chain|] == chain
    ensures r.Ok? ==> forall k :: |chain| <= k < |r.value| ==> IsDataCluster(r.value[k])
    ensures fuel == 0 ==> r == Err(OutOfFuel)
  {
    if fuel == 0 then Err(OutOfFuel)
    else
      var next :- links(Last(chain));
      if next >= EndOfChain then Ok(chain)
      else if next >= FirstDataCluster && next < ClusterLimit then
        var r := Walk(links, chain + [next], fuel - 1);
        assert r.Ok? ==> r.value[..|chain|] == (chain + [next])[..|chain|];
        r
      else Err(InvalidChain)
  }

  /** `File(fat, first, size)`: the chain from `first`, and the size given,
      or the chain's length in clusters when no size is given. */
  function OpenFile(fat: Fat, s: Store, first: int, size: Option<int>): (r: Result<Region>)
    ensures r.Ok? ==> r.value.File? && r.value.fat == fat
    ensures r.Ok? ==> ValidChain(FatLinks(fat, s), first, r.value.clusters)
    ensures r.Ok? && size.None? ==> r.value.size == |r.value.clusters| * fat.clusterSize
    ensures r.Ok? && size.Some? ==> r.value.size == size.value
  {
    var chain :- Walk(FatLinks(fat, s), [first], ChainFuel);
    WalkSound(FatLinks(fat, s), [first], ChainFuel);
    Ok(File(fat, chain, if size.None? then |chain| * fat.clusterSize else size.value))
  }

  // ---------------------------------------------------------------------
  // The declarative view of a chain

  /** `chain` starts at `first` and each later element is the data cluster
      the FAT links its predecessor to. */
  ghost predicate Linked(links: Links, first: int, chain: seq<int>) {
    && |chain| > 0 && chain[0] == first
    && forall i :: 0 <= i < |chain| - 1 ==> LinksTo(links, chain, i)
  }

  /** The FAT links `chain[i]` to the data cluster `chain[i + 1]`. */
  ghost predicate LinksTo(links: Links, chain: seq<int>, i: nat)
    requires i + 1 < |chain|
  {
    links(chain[i]) == Ok(chain[i + 1]) && IsDataCluster(chain[i + 1])
  }

  /** A complete chain: linked, and the last link is an end-of-chain marker. */
  ghost predicate ValidChain(links: Links, first: int, chain: seq<int>) {
    && Linked(links, first, chain)
    && links(Last(chain)).Ok?
    && links(Last(chain)).value >= EndOfChain
  }

  /** A linked prefix whose last link raises `e`: a read error of the FAT
      itself, or `InvalidChain` for a bad link value. */
  ghost predicate BrokenWith(links: Links, first: int, chain: seq<int>, e: Error) {
    && Linked(links, first, chain)
    && match links(Last(chain))
       case Err(e') => e == e'
       case Ok(v) => e == InvalidChain && IsBadLink(v)
  }

  lemma LinkedPrefix(links: Links, first: int, chain: seq<int>, n: nat)
    requires Linked(links, first, chain) && 1 <= n <= |chain|
    ensures Linked(links, first, chain[..n])
  {
    forall i | 0 <= i < n - 1
      ensures LinksTo(links, chain[..n], i)
    {
      assert LinksTo(links, chain, i);
      assert chain[..n][i] == chain[i] && chain[..n][i + 1] == chain[i + 1];
    }
  }

  lemma LinkedExtend(links: Links, first: int, chain: seq<int>, next: int)
    requires Linked(links, first, chain)
    requires links(Last(chain)) == Ok(next) && IsDataCluster(next)
    ensures Linked(links, first, chain + [next])
  {
    var c := chain + [next];
    forall i | 0 <= i < |c| - 1
      ensures LinksTo(links, c, i)
    {
      if i < |chain| - 1 {
        assert LinksTo(links, chain, i);
        assert c[i] == chain[i] && c[i + 1] == chain[i + 1];
      }
    }
  }

  /** Walking from a prefix of a linked chain retraces the chain: the walk
      from `chain[..n]` is the walk from `chain` with the links in between spent. */
  lemma {:induction false} Unroll(links: Links, chain: seq<int>, n: nat, rest: nat)
    requires |chain| > 0 && Linked(links, chain[0], chain) && 1 <= n <= |chain|
    decreases |chain| - n
    ensures Walk(links, chain[..n], rest + (|chain| - n)) == Walk(links, chain, rest)
  {
    if n == |chain| {
      assert chain[..n] == chain;
    } else {
      Unroll(links, chain, n + 1, rest);
      UnrollStep(links, chain, n, rest);
    }
  }

  lemma UnrollStep(links: Links, chain: seq<int>, n: nat, rest: nat)
    requires |chain| > 0 && Linked(links, chain[0], chain) && 1 <= n < |chain|
    requires Walk(links, chain[..n + 1], rest + (|chain| - (n + 1))) == Walk(links, chain, rest)
    ensures Walk(links, chain[..n], rest + (|chain| - n)) == Walk(links, chain, rest)
  {
    LinkAt(links, chain, n - 1);
    PrefixStep(links, chain, n, rest + (|chain| - n));
  }

  /** Following the link out of `chain[..n]` reaches `chain[..n + 1]`. */
  lemma PrefixStep(links: Links, chain: seq<int>, n: nat, fuel: nat)
    requires 1 <= n < |chain| && fuel > 0
    requires links(chain[n - 1]) == Ok(chain[n]) && IsDataCluster(chain[n])
    ensures Walk(links, chain[..n], fuel) == Walk(links, chain[..n + 1], fuel - 1)
  {
    var p := chain[..n];
    assert Last(p) == chain[n - 1];
    assert p + [chain[n]] == chain[..n + 1];
    WalkStep(links, p, chain[n], fuel);
  }

  lemma LinkAt(links: Links, chain: seq<int>, i: nat)
    requires |chain| > 0 && Linked(links, chain[0], chain) && i + 1 < |chain|
    ensures links(chain[i]) == Ok(chain[i + 1]) && IsDataCluster(chain[i + 1])
  {
    assert LinksTo(links, chain, i);
  }

  /** A valid chain from a data cluster holds only data clusters. */
  lemma ChainOfDataClusters(links: Links, first: int, chain: seq<int>)
    requires ValidChain(links, first, chain) && IsDataCluster(first)
    ensures forall k :: 0 <= k < |chain| ==> IsDataCluster(chain[k])
  {
    forall k | 0 < k < |chain|
      ensures IsDataCluster(chain[k])
    {
      assert LinksTo(links, chain, k - 1);
    }
  }

  /** One turn of the loop that follows a link to a data cluster. */
  lemma WalkStep(links: Links, chain: seq<int>, next: int, fuel: nat)
    requires |chain| > 0 && fuel > 0
    requires links(Last(chain)) == Ok(next) && IsDataCluster(next)
    ensures Walk(links, chain, fuel) == Walk(links, chain + [next], fuel - 1)
  {
  }

  /** What the walk returns is a valid chain extending where it started. */
  lemma {:induction false} WalkSound(links: Links, chain: seq<int>, fuel: nat)
    requires |chain| > 0 && Linked(links, chain[0], chain)
    decreases fuel
    ensures Walk(links, chain, fuel).Ok? ==> ValidChain(links, chain[0], Walk(links, chain, fuel).value)
  {
    if fuel > 0 {
      var link := links(Last(chain));
      if link.Ok? && IsDataCluster(link.value) {
        LinkedExtend(links, chain[0], chain, link.value);
        WalkSound(links, chain + [link.value], fuel - 1);
      }
    }
  }

  /** The walk's failures other than running out of fuel come from a linked
      prefix, no longer than the fuel allows, whose last link raises them. */
  lemma {:induction false} WalkBroken(links: Links, chain: seq<int>, fuel: nat) returns (c: seq<int>)
    requires |chain| > 0 && Linked(links, chain[0], chain)
    requires Walk(links, chain, fuel).Err? && Walk(links, chain, fuel).error != OutOfFuel
    decreases fuel
    ensures |chain| <= |c| < |chain| + fuel && c[..|chain|] == chain
    ensures BrokenWith(links, chain[0], c, Walk(links, chain, fuel).error)
  {
    var link := links(Last(chain));
    if link.Ok? && IsDataCluster(link.value) {
      LinkedExtend(links, chain[0], chain, link.value);
      c := WalkBroken(links, chain + [link.value], fuel - 1);
      assert c[..|chain|] == (chain + [link.value])[..|chain|];
    } else {
      c := chain;
    }
  }

  /** A walk that runs out of fuel has followed `fuel` valid links. */
  lemma {:induction false} WalkExhausted(links: Links, chain: seq<int>, fuel: nat) returns (c: seq<int>)
    requires FailsByReading(links)
    requires |chain| > 0 && Linked(links, chain[0], chain)
    requires Walk(links, chain, fuel) == Err(OutOfFuel)
    decreases fuel
    ensures |c| == |chain| + fuel && c[..|chain|] == chain
    ensures Linked(links, chain[0], c)
  {
    if fuel == 0 {
      c := chain;
    } else {
      var link := links(Last(chain));
      assert link.Ok? && IsDataCluster(link.value);
      LinkedExtend(links, chain[0], chain, link.value);
      c := WalkExhausted(links, chain + [link.value], fuel - 1);
      assert c[..|chain|] == (chain + [link.value])[..|chain|];
    }
  }

  // ---------------------------------------------------------------------
  // The walk from `first` against the declarative view

  /** The walk returns exactly the valid chains that fit its fuel: it starts
      with `first`, continues only through data clusters and stops exactly
      at an end-of-chain link. */
  lemma WalkExact(links: Links, first: int, chain: seq<int>, fuel: nat)
    ensures Walk(links, [first], fuel) == Ok(chain) <==> ValidChain(links, first, chain) && |chain| <= fuel
  {
    if Walk(links, [first], fuel) == Ok(chain) {
      WalkSound(links, [first], fuel);
    }
    if ValidChain(links, first, chain) && |chain| <= fuel {
      Unroll(links, chain, 1, fuel - (|chain| - 1));
      assert chain[..1] == [first];
    }
  }

  /** The walk fails with a given error exactly when some linked prefix from
      `first`, within the fuel, ends in a link that raises it; in particular
      a link of 0, 1 or in [0xFFEF, 0xFFF8) is `InvalidChain`. */
  lemma WalkFails(links: Links, first: int, e: Error, fuel: nat)
    requires e != OutOfFuel
    ensures Walk(links, [first], fuel) == Err(e) <==>
              exists c :: BrokenWith(links, first, c, e) && |c| <= fuel
  {
    if Walk(links, [first], fuel) == Err(e) {
      var c := WalkBroken(links, [first], fuel);
    }
    if c :| BrokenWith(links, first, c, e) && |c| <= fuel {
      Unroll(links, c, 1, fuel - (|c| - 1));
      assert c[..1] == [first];
    }
  }

  /** The walk runs out of fuel exactly when `fuel` valid links can be followed from `first`. */
  lemma WalkRunsOut(links: Links, first: int, fuel: nat)
    requires FailsByReading(links)
    ensures Walk(links, [first], fuel) == Err(OutOfFuel) <==>
              exists c :: Linked(links, first, c) && |c| == fuel + 1
  {
    if Walk(links, [first], fuel) == Err(OutOfFuel) {
      var c := WalkExhausted(links, [first], fuel);
    }
    if c :| Linked(links, first, c) && |c| == fuel + 1 {
      Unroll(links, c, 1, fuel - (|c| - 1));
      assert c[..1] == [first];
    }
  }

  // ---------------------------------------------------------------------
  // The fuel bound is exact

  /** A walk that finished (successfully or not) finishes the same way with more fuel. */
  lemma {:induction false} WalkMonotone(links: Links, chain: seq<int>, fuel: nat, more: nat)
    requires |chain| > 0 && fuel <= more
    requires Walk(links, chain, fuel) != Err(OutOfFuel)
    decreases fuel
    ensures Walk(links, chain, more) == Walk(links, chain, fuel)
  {
    var link := links(Last(chain));
    if link.Ok? && IsDataCluster(link.value) {
      WalkMonotone(links, chain + [link.value], fuel - 1, more - 1);
    }
  }

  /** A linked chain that repeats a cluster (`chain[i] == chain[j]`, `i < j`)
      can be followed for ever: it extends to a linked chain of any length. */
  lemma {:induction false} Pump(links: Links, chain: seq<int>, i: nat, j: nat, n: nat) returns (c: seq<int>)
    requires |chain| > 0 && Linked(links, chain[0], chain)
    requires i < j && j == |chain| - 1 && chain[i] == chain[j]
    requires n >= |chain|
    decreases n - |chain|
    ensures |c| == n && Linked(links, chain[0], c)
  {
    c := chain;
    var period := j - i;
    while |c| < n
      invariant |chain| <= |c| <= n && c[..|chain|] == chain
      invariant Linked(links, chain[0], c)
      invariant forall k :: j <= k < |c| ==> c[k] == c[k - period]
      decreases n - |c|
    {
      var m := |c| - 1;
      assert m >= j;
      assert c[m] == c[m - period];
      assert LinksTo(links, c, m - period);
      var next := c[m - period + 1];
      LinkedExtend(links, chain[0], c, next);
      var c' := c + [next];
      assert c'[..|chain|] == c[..|chain|];
      assert forall k :: j <= k < |c| ==> c'[k] == c[k];
      c := c';
    }
  }

  /** Running out of `ChainFuel` means the Python loop would never end:
      every amount of fuel runs out. */
  lemma OutOfFuelForever(links: Links, first: int, fuel: nat)
    requires FailsByReading(links)
    requires Walk(links, [first], ChainFuel) == Err(OutOfFuel)
    ensures Walk(links, [first], fuel) == Err(OutOfFuel)
  {
    var c := WalkExhausted(links, [first], ChainFuel);
    // c[1..] holds ChainFuel data clusters, more than there are.
    var xs := c[1..];
    forall k | 0 <= k < |xs|
      ensures FirstDataCluster <= xs[k] < ClusterLimit
    {
      assert xs[k] == c[k + 1];
      assert LinksTo(links, c, k);
    }
    var i, j := Pigeonhole(xs, FirstDataCluster, ClusterLimit);
    assert c[i + 1] == c[j + 1];
    var lasso := c[..j + 2];
    LinkedPrefix(links, first, c, j + 2);
    var long := Pump(links, lasso, i + 1, j + 1, if fuel + 1 > |lasso| then fuel + 1 else |lasso|);
    if fuel + 1 < |long| {
      LinkedPrefix(links, first, long, fuel + 1);
      Unroll(links, long[..fuel + 1], 1, 0);
      assert long[..fuel + 1][..1] == [first];
    } else {
      Unroll(links, long, 1, fuel - (|long| - 1));
      assert long[..1] == [first];
    }
  }

  /** Fuel beyond `ChainFuel` never changes the outcome of the walk. */
  lemma FuelSuffices(links: Links, first: int, fuel: nat)
    requires FailsByReading(links)
    requires fuel >= ChainFuel
    ensures Walk(links, [first], fuel) == Walk(links, [first], ChainFuel)
  {
    if Walk(links, [first], ChainFuel) == Err(OutOfFuel) {
      OutOfFuelForever(links, first, fuel);
    } else {
      WalkMonotone(links, [first], ChainFuel, fuel);
    }
  }

  /** Some value repeats in a sequence longer than the range its values lie in. */
  lemma Pigeonhole(xs: seq<int>, lo: int, hi: int) returns (i: nat, j: nat)
    requires lo <= hi
    requires forall k :: 0 <= k < |xs| ==> lo <= xs[k] < hi
    requires |xs| > hi - lo
    ensures i < j < |xs| && xs[i] == xs[j]
  {
    if forall a, b :: 0 <= a < b < |xs| ==> xs[a] != xs[b] {
      var elems := set k | 0 <= k < |xs| :: xs[k];
      DistinctCard(xs);
      var range := Range(lo, hi);
      forall v | v in elems
        ensures v in range
      {
        RangeContains(lo, hi, v);
      }
      RangeCard(lo, hi);
      SubsetCard(elems, range);
      assert false;
    }
    i, j :| 0 <= i < j < |xs| && xs[i] == xs[j];
  }

  lemma {:induction false} DistinctCard(xs: seq<int>)
    requires forall a, b :: 0 <= a < b < |xs| ==> xs[a] != xs[b]
    ensures |set k | 0 <= k < |xs| :: xs[k]| == |xs|
  {
    if |xs| > 0 {
      var init := xs[..|xs| - 1];
      DistinctCard(init);
      var before := set k | 0 <= k < |init| :: init[k];
      var after := set k | 0 <= k < |xs| :: xs[k];
      assert after == before + {xs[|xs| - 1]};
      assert xs[|xs| - 1] !in before;
    }
  }

  /** The integers in [lo, hi). */
  function Range(lo: int, hi: int): set<int>
    decreases hi - lo
  {
    if hi <= lo then {} else Range(lo, hi - 1) + {hi - 1}
  }

  lemma {:induction false} RangeContains(lo: int, hi: int, v: int)
    decreases hi - lo
    ensures v in Range(lo, hi) <==> lo <= v < hi
  {
    if lo < hi {
      RangeContains(lo, hi - 1, v);
    }
  }

  lemma {:induction false} RangeCard(lo: int, hi: int)
    requires lo <= hi
    decreases hi - lo
    ensures |Range(lo, hi)| == hi - lo
  {
    if lo < hi {
      RangeCard(lo, hi - 1);
      RangeContains(lo, hi - 1, hi - 1);
    }
  }

  lemma SubsetCard(a: set<int>, b: set<int>)
    requires a <= b
    ensures |a| <= |b|
  {
    assert b == a + (b - a);
  }
}
