/**
 Choosing a Hypervisor for a VM: a capacity filter in 64-bit arithmetic, which wraps, and
 three stable sorts that together order by free CPU, then memory, then storage.
 */
module Placement {
  import opened Basics
  import opened StableSort

  type u64 = x: int | 0 <= x < TWO_TO_THE_64

  datatype Hypervisor = Hypervisor(
    hostname: string,
    memoryInMiB: u64,
    numCPUs: u64,
    totalVolumeBytes: u64,
    allocatedMemory: u64,
    allocatedMilliCPUs: u64,
    allocatedVolumeBytes: u64,
    availableMemory: u64,
    numFreeAddresses: map<string, nat>)

  datatype VmInfo = VmInfo(
    memoryInMiB: u64,
    milliCPUs: u64,
    volumes: seq<u64>,                     // their effective sizes
    subnetId: string,
    secondarySubnetIDs: seq<string>)

  function Wrap(n: nat): u64 {
    n % TWO_TO_THE_64
  }

  /** Go's + and - on uint64. */
  function Plus(a: u64, b: u64): u64 {
    if a + b >= TWO_TO_THE_64 then a + b - TWO_TO_THE_64 else a + b
  }

  function Minus(a: u64, b: u64): u64 {
    if a < b then a - b + TWO_TO_THE_64 else a - b
  }

  function TotalSize(volumes: seq<u64>): nat {
    if volumes == [] then 0 else TotalSize(volumes[..|volumes| - 1]) + volumes[|volumes| - 1]
  }

  lemma {:induction false} TotalSizeAdds(a: seq<u64>, b: seq<u64>)
    ensures TotalSize(a + b) == TotalSize(a) + TotalSize(b)
    ensures forall x: u64 :: TotalSize([x]) == x
  {
    if b == [] {
      assert a + b == a;
    } else {
      var n := |b| - 1;
      TotalSizeAdds(a, b[..n]);
      assert (a + b)[..|a + b| - 1] == a + b[..n];
    }
  }

  predicate SubnetHasRoom(h: Hypervisor, subnet: string) {
    subnet in h.numFreeAddresses ==> h.numFreeAddresses[subnet] >= 1
  }

  predicate SubnetsHaveRoom(h: Hypervisor, vm: VmInfo) {
    && SubnetHasRoom(h, vm.subnetId)
    && forall i :: 0 <= i < |vm.secondarySubnetIDs| ==> SubnetHasRoom(h, vm.secondarySubnetIDs[i])
  }

  /** The filter as the program computes it. */
  predicate Accepts(h: Hypervisor, vm: VmInfo) {
    && Plus(vm.memoryInMiB, h.allocatedMemory) <= h.memoryInMiB
    && Plus(vm.milliCPUs, h.allocatedMilliCPUs) <= Wrap(h.numCPUs * 1000)
    && !(h.availableMemory > 0 && vm.memoryInMiB >= h.availableMemory)
    && Plus(Wrap(TotalSize(vm.volumes)), h.allocatedVolumeBytes) <= h.totalVolumeBytes
    && SubnetsHaveRoom(h, vm)
  }

  method SumVolumes(volumes: seq<u64>) returns (total: u64)
    ensures total == Wrap(TotalSize(volumes))
  {
    total := 0;
    for i := 0 to |volumes|
      invariant total == Wrap(TotalSize(volumes[..i]))
    {
      assert volumes[..i + 1][..i] == volumes[..i];
      WrapPlus(TotalSize(volumes[..i]), volumes[i]);
      total := Plus(total, volumes[i]);
    }
    assert volumes[..|volumes|] == volumes;
  }

  lemma WrapPlus(n: nat, x: u64)
    ensures Plus(Wrap(n), x) == Wrap(n + x)
  {
    var q := n / TWO_TO_THE_64;
    assert n == q * TWO_TO_THE_64 + Wrap(n);
    if Wrap(n) + x >= TWO_TO_THE_64 {
      Remainder(n + x, q + 1, Wrap(n) + x - TWO_TO_THE_64);
    } else {
      Remainder(n + x, q, Wrap(n) + x);
    }
  }

  lemma Remainder(n: nat, q: nat, r: u64)
    requires n == q * TWO_TO_THE_64 + r
    ensures n % TWO_TO_THE_64 == r
  {
  }

  method CheckHypervisorCapacity(h: Hypervisor, vm: VmInfo) returns (ok: bool)
    ensures ok == Accepts(h, vm)
  {
    if Plus(vm.memoryInMiB, h.allocatedMemory) > h.memoryInMiB {
      return false;
    }
    if Plus(vm.milliCPUs, h.allocatedMilliCPUs) > Wrap(h.numCPUs * 1000) {
      return false;
    }
    if h.availableMemory > 0 && vm.memoryInMiB >= h.availableMemory {
      return false;
    }
    var totalVolumeSize := SumVolumes(vm.volumes);
    if Plus(totalVolumeSize, h.allocatedVolumeBytes) > h.totalVolumeBytes {
      return false;
    }
    if !SubnetHasRoom(h, vm.subnetId) {
      return false;
    }
    for i := 0 to |vm.secondarySubnetIDs|
      invariant forall j :: 0 <= j < i ==> SubnetHasRoom(h, vm.secondarySubnetIDs[j])
    {
      if !SubnetHasRoom(h, vm.secondarySubnetIDs[i]) {
        return false;
      }
    }
    return true;
  }

  function WithCapacity(l: seq<Hypervisor>, vm: VmInfo): seq<Hypervisor> {
    if l == [] then [] else
    WithCapacity(l[..|l| - 1], vm) + (if Accepts(l[|l| - 1], vm) then [l[|l| - 1]] else [])
  }

  /** The accepted ones are all there, each as often as listed and in the order of the list. */
  method FindHypervisorsWithCapacity(l: seq<Hypervisor>, vm: VmInfo)
    returns (out: seq<Hypervisor>, ghost at: seq<nat>)
    ensures out == WithCapacity(l, vm)
    ensures |at| == |out| && forall i :: 0 <= i < |at| ==> at[i] < |l| && out[i] == l[at[i]]
    ensures forall i, j :: 0 <= i < j < |at| ==> at[i] < at[j]
    ensures forall n :: 0 <= n < |l| ==> (n in at <==> Accepts(l[n], vm))
  {
    out, at := [], [];
    for i := 0 to |l|
      invariant out == WithCapacity(l[..i], vm)
      invariant |at| == |out| && forall k :: 0 <= k < |at| ==> at[k] < i && out[k] == l[at[k]]
      invariant forall j, k :: 0 <= j < k < |at| ==> at[j] < at[k]
      invariant forall n :: 0 <= n < i ==> (n in at <==> Accepts(l[n], vm))
    {
      assert l[..i + 1][..i] == l[..i];
      var ok := CheckHypervisorCapacity(l[i], vm);
      if ok {
        out, at := out + [l[i]], at + [i];
      }
    }
    assert l[..|l|] == l;
  }

  lemma {:induction false} CandidatesAreAccepted(l: seq<Hypervisor>, vm: VmInfo, h: Hypervisor)
    ensures h in WithCapacity(l, vm) <==> h in l && Accepts(h, vm)
  {
    if l != [] {
      var n := |l| - 1;
      CandidatesAreAccepted(l[..n], vm, h);
      assert l == l[..n] + [l[n]];
    }
  }

  // ---------------------------------------------------------------- Room, without wrapping

  /** The VM fits next to what is already allocated. */
  predicate Fits(h: Hypervisor, vm: VmInfo) {
    && vm.memoryInMiB + h.allocatedMemory <= h.memoryInMiB
    && vm.milliCPUs + h.allocatedMilliCPUs <= h.numCPUs * 1000
    && (h.availableMemory > 0 ==> vm.memoryInMiB < h.availableMemory)
    && TotalSize(vm.volumes) + h.allocatedVolumeBytes <= h.totalVolumeBytes
    && forall id :: id in [vm.subnetId] + vm.secondarySubnetIDs && id in h.numFreeAddresses ==>
         h.numFreeAddresses[id] > 0
  }

  /** Room in the subnets is a free address in every subnet of the VM that the Hypervisor counts. */
  lemma SubnetsHaveRoomIff(h: Hypervisor, vm: VmInfo)
    ensures SubnetsHaveRoom(h, vm) <==>
      forall id :: id in [vm.subnetId] + vm.secondarySubnetIDs && id in h.numFreeAddresses ==>
        h.numFreeAddresses[id] > 0
  {
    var all := [vm.subnetId] + vm.secondarySubnetIDs;
    assert all[0] == vm.subnetId;
    forall i | 0 <= i < |vm.secondarySubnetIDs|
      ensures vm.secondarySubnetIDs[i] in all
    {
      assert all[i + 1] == vm.secondarySubnetIDs[i];
    }
    forall id | id in all
      ensures id == vm.subnetId || exists i :: 0 <= i < |vm.secondarySubnetIDs| && vm.secondarySubnetIDs[i] == id
    {
      var i :| 0 <= i < |all| && all[i] == id;
      assert i > 0 ==> vm.secondarySubnetIDs[i - 1] == id;
    }
  }

  /** The three sums the filter forms stay below 2^64. */
  predicate SumsFit(h: Hypervisor, vm: VmInfo) {
    && vm.memoryInMiB + h.allocatedMemory < TWO_TO_THE_64
    && vm.milliCPUs + h.allocatedMilliCPUs < TWO_TO_THE_64
    && TotalSize(vm.volumes) + h.allocatedVolumeBytes < TWO_TO_THE_64
  }

  lemma WrapBelow(n: nat)
    ensures Wrap(n) <= n
    ensures n < TWO_TO_THE_64 ==> Wrap(n) == n
  {
  }

  /** The CPU total that Go computes is the real one. */
  predicate CpusFit(h: Hypervisor) {
    h.numCPUs * 1000 < TWO_TO_THE_64
  }

  /** An accepted Hypervisor has room if none of the sums wrapped. */
  lemma AcceptedFits(h: Hypervisor, vm: VmInfo)
    requires Accepts(h, vm) && SumsFit(h, vm)
    ensures Fits(h, vm)
  {
    SubnetsHaveRoomIff(h, vm);
    WrapBelow(TotalSize(vm.volumes));
    WrapBelow(h.numCPUs * 1000);
  }

  /** While the CPU total is real, an accepted Hypervisor has room exactly if none of the sums wrapped. */
  lemma AcceptedFitsIff(h: Hypervisor, vm: VmInfo)
    requires Accepts(h, vm) && CpusFit(h)
    ensures Fits(h, vm) <==> SumsFit(h, vm)
  {
    SubnetsHaveRoomIff(h, vm);
    if SumsFit(h, vm) {
      AcceptedFits(h, vm);
    }
  }

  /** While nothing wraps, the filter accepts exactly the Hypervisors with room. */
  lemma FilterIsExact(h: Hypervisor, vm: VmInfo)
    requires SumsFit(h, vm)
    ensures Accepts(h, vm) ==> Fits(h, vm)
    ensures CpusFit(h) && Fits(h, vm) ==> Accepts(h, vm)
  {
    SubnetsHaveRoomIff(h, vm);
    WrapBelow(TotalSize(vm.volumes));
    WrapBelow(h.numCPUs * 1000);
  }

  /** A sum that wraps fools the filter: a full Hypervisor is accepted for a VM of absurd size. */
  lemma WrappingFoolsTheFilter()
    ensures var h := Hypervisor("h", 1024, 1, 0, 1024, 0, 0, 0, map[]);
      var vm := VmInfo(TWO_TO_THE_64 - 1024, 0, [], "", []);
      Accepts(h, vm) && !Fits(h, vm)
  {
    assert TotalSize([]) == 0;
  }

  function FreeCPU(h: Hypervisor): u64 { Minus(Wrap(h.numCPUs * 1000), h.allocatedMilliCPUs) }
  function FreeMemory(h: Hypervisor): u64 { Minus(h.memoryInMiB, h.allocatedMemory) }
  function FreeStorage(h: Hypervisor): u64 { Minus(h.totalVolumeBytes, h.allocatedVolumeBytes) }

  /** On a candidate the free amounts do not wrap, and the VM fits into them. */
  lemma FreeAmountsAreReal(h: Hypervisor, vm: VmInfo)
    requires Accepts(h, vm) && SumsFit(h, vm)
    ensures vm.milliCPUs <= FreeCPU(h) <= h.numCPUs * 1000 - h.allocatedMilliCPUs
    ensures CpusFit(h) ==> FreeCPU(h) == h.numCPUs * 1000 - h.allocatedMilliCPUs
    ensures vm.memoryInMiB <= FreeMemory(h) == h.memoryInMiB - h.allocatedMemory
    ensures TotalSize(vm.volumes) <= FreeStorage(h) == h.totalVolumeBytes - h.allocatedVolumeBytes
  {
    AcceptedFits(h, vm);
    WrapBelow(h.numCPUs * 1000);
  }

  // ---------------------------------------------------------------- Sorting

  predicate LessCPU(x: Hypervisor, y: Hypervisor) { FreeCPU(x) < FreeCPU(y) }
  predicate LessMemory(x: Hypervisor, y: Hypervisor) { FreeMemory(x) < FreeMemory(y) }
  predicate LessStorage(x: Hypervisor, y: Hypervisor) { FreeStorage(x) < FreeStorage(y) }

  /** Less free CPU; or equal, and less free memory; or equal again, and less free storage. */
  predicate Fuller(x: Hypervisor, y: Hypervisor) {
    || FreeCPU(x) < FreeCPU(y)
    || (FreeCPU(x) == FreeCPU(y) && FreeMemory(x) < FreeMemory(y))
    || (FreeCPU(x) == FreeCPU(y) && FreeMemory(x) == FreeMemory(y) && FreeStorage(x) < FreeStorage(y))
  }

  function SortedHypervisors(s: seq<Hypervisor>): seq<Hypervisor> {
    SortBy(LessCPU, SortBy(LessMemory, SortBy(LessStorage, s)))
  }

  /** sort.SliceStable. */
  method SliceStable(a: array<Hypervisor>, less: (Hypervisor, Hypervisor) -> bool)
    modifies a
    ensures a[..] == SortBy(less, old(a[..]))
  {
    var r := SortBy(less, a[..]);
    for i := 0 to a.Length
      invariant a[..i] == r[..i]
    {
      a[i] := r[i];
    }
    assert a[..a.Length] == a[..] && r[..a.Length] == r;
  }

  method SortHypervisors(a: array<Hypervisor>)
    modifies a
    ensures a[..] == SortedHypervisors(old(a[..]))
  {
    SliceStable(a, LessStorage);
    SliceStable(a, LessMemory);
    SliceStable(a, LessCPU);
  }

  lemma FreeOrdersAreStrictWeak()
    ensures StrictWeak(LessCPU) && StrictWeak(LessMemory) && StrictWeak(LessStorage) && StrictWeak(Fuller)
  {
  }

  lemma TwoSorts(major: (Hypervisor, Hypervisor) -> bool, minor: (Hypervisor, Hypervisor) -> bool,
                 s: seq<Hypervisor>, r: seq<Hypervisor>, p: seq<nat>)
    returns (q: seq<nat>)
    requires StrictWeak(major) && IsStableSort(minor, s, r, p)
    ensures IsStableSort(Lexicographic(major, minor), s, SortBy(major, r), q)
  {
    SortByIsStable(major, r);
    var p' := SortIndices(major, r, |r|);
    StableSortsCompose(major, minor, s, r, p, SortBy(major, r), p');
    q := seq(|s|, i requires 0 <= i < |s| => p[p'[i]]);
  }

  /** Three stable sorts, the least important key first, are one stable lexicographic sort. */
  lemma ThreeSortsAreOne(s: seq<Hypervisor>) returns (p: seq<nat>)
    ensures IsStableSort(Fuller, s, SortedHypervisors(s), p)
    ensures SortedHypervisors(s) == SortBy(Fuller, s)
  {
    FreeOrdersAreStrictWeak();
    SortByIsStable(LessStorage, s);
    var r1 := SortBy(LessStorage, s);
    var p12 := TwoSorts(LessMemory, LessStorage, s, r1, SortIndices(LessStorage, s, |s|));
    var two := Lexicographic(LessMemory, LessStorage);
    p := TwoSorts(LessCPU, two, s, SortBy(LessMemory, r1), p12);
    SameOrder(Lexicographic(LessCPU, two), Fuller, s, SortedHypervisors(s), p);
    SortByIsStable(Fuller, s);
    StableSortIsUnique(Fuller, s, SortedHypervisors(s), p, SortBy(Fuller, s), SortIndices(Fuller, s, |s|));
  }

  lemma SameOrder(less: (Hypervisor, Hypervisor) -> bool, less': (Hypervisor, Hypervisor) -> bool,
                  s: seq<Hypervisor>, r: seq<Hypervisor>, p: seq<nat>)
    requires IsStableSort(less, s, r, p) && forall x, y :: less(x, y) == less'(x, y)
    ensures IsStableSort(less', s, r, p)
  {
  }

  // ---------------------------------------------------------------- Choosing

  datatype Choice = Any | Command | Emptiest | Fullest | Random

  datatype Selection = NoCapacity | UnknownPlacement | CommandFailed | Selected(hypervisor: Hypervisor)

  /** The first of the Hypervisors with the least free capacity. */
  ghost predicate IsFullest(s: seq<Hypervisor>, i: int) {
    && 0 <= i < |s|
    && (forall j :: 0 <= j < |s| ==> !Fuller(s[j], s[i]))
    && (forall j :: 0 <= j < i ==> Fuller(s[i], s[j]))
  }

  /** The last of the Hypervisors with the most free capacity. */
  ghost predicate IsEmptiest(s: seq<Hypervisor>, i: int) {
    && 0 <= i < |s|
    && (forall j :: 0 <= j < |s| ==> !Fuller(s[i], s[j]))
    && (forall j :: i < j < |s| ==> Fuller(s[j], s[i]))
  }

  /** The ends of the sorted list are the extremes of the unsorted one. */
  lemma EndsAreExtremes(s: seq<Hypervisor>) returns (first: int, last: int)
    requires s != []
    ensures IsFullest(s, first) && SortedHypervisors(s)[0] == s[first]
    ensures IsEmptiest(s, last) && SortedHypervisors(s)[|s| - 1] == s[last]
  {
    var p := ThreeSortsAreOne(s);
    var r := SortedHypervisors(s);
    first, last := p[0], p[|s| - 1];
    forall j | 0 <= j < |s|
      ensures !Fuller(s[j], s[first]) && (j < first ==> Fuller(s[first], s[j]))
      ensures !Fuller(s[last], s[j]) && (j > last ==> Fuller(s[j], s[last]))
    {
      assert j in p;
      var i :| 0 <= i < |p| && p[i] == j;
      assert r[i] == s[j];
    }
  }

  /**
   selectHypervisor. The placement command's answer and the random index come from outside.
   A single candidate is taken whatever the placement.
   */
  method SelectHypervisor(a: array<Hypervisor>, choice: Choice, commanded: Option<Hypervisor>, random: nat)
    returns (r: Selection)
    requires random < a.Length || a.Length == 0
    modifies a
    ensures r.NoCapacity? <==> a.Length == 0
    ensures a.Length == 1 ==> r == Selected(old(a[..])[0])
    ensures a.Length > 1 ==> match choice
      case Any => r == UnknownPlacement
      case Command => r == if commanded.Some? then Selected(commanded.value) else CommandFailed
      case Emptiest => exists i :: IsEmptiest(old(a[..]), i) && r == Selected(old(a[..])[i])
      case Fullest => exists i :: IsFullest(old(a[..]), i) && r == Selected(old(a[..])[i])
      case Random => r == Selected(old(a[..])[random])
  {
    if a.Length < 1 {
      return NoCapacity;
    } else if a.Length < 2 {
      return Selected(a[0]);
    }
    match choice {
      case Any =>
        return UnknownPlacement;
      case Command =>
        return if commanded.Some? then Selected(commanded.value) else CommandFailed;
      case Emptiest =>
        SortHypervisors(a);
        ghost var first, last := EndsAreExtremes(old(a[..]));
        return Selected(a[a.Length - 1]);
      case Fullest =>
        SortHypervisors(a);
        ghost var first, last := EndsAreExtremes(old(a[..]));
        return Selected(a[0]);
      case Random =>
        return Selected(a[random]);
    }
  }

  /** Filter and choice together: an extreme candidate has room, and none with room is more extreme. */
  lemma ChosenHasRoom(l: seq<Hypervisor>, vm: VmInfo, i: int)
    requires forall h :: h in l ==> SumsFit(h, vm) && CpusFit(h)
    requires IsFullest(WithCapacity(l, vm), i) || IsEmptiest(WithCapacity(l, vm), i)
    ensures var chosen := WithCapacity(l, vm)[i];
      && chosen in l && Fits(chosen, vm)
      && (IsFullest(WithCapacity(l, vm), i) ==> forall h :: h in l && Fits(h, vm) ==> !Fuller(h, chosen))
      && (IsEmptiest(WithCapacity(l, vm), i) ==> forall h :: h in l && Fits(h, vm) ==> !Fuller(chosen, h))
  {
    var c := WithCapacity(l, vm);
    CandidatesAreAccepted(l, vm, c[i]);
    FilterIsExact(c[i], vm);
    forall h | h in l && Fits(h, vm)
      ensures exists j :: 0 <= j < |c| && c[j] == h
    {
      FilterIsExact(h, vm);
      CandidatesAreAccepted(l, vm, h);
    }
  }
}
