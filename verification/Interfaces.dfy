/**
 The VPC-prefix branch of build_instance_request: one physical interface for each requested
 prefix, on the machine's Mellanox NICs in order, and the virtual ones spread over them.
 */
module Interfaces {
  import opened Wrappers

  datatype Pci = Pci(mellanox: bool, device: string)

  datatype Nic = Nic(pci: Option<Pci>)

  datatype Interface = Interface(
    virtual: bool,
    prefix: string,
    device: string,
    instance: nat,
    vfId: Option<nat>,
    ip: Option<string>,
    ipv6: Option<Ipv6>)

  datatype Ipv6 = Ipv6(prefix: string, ip: Option<string>)

  /** `pfs` and `vfs` are the requested prefixes; `vfSubnets` is the number of VF subnets also given. */
  datatype Request = Request(
    pfs: seq<string>,
    vfs: seq<string>,
    vfSubnets: nat,
    tenantOrg: Option<string>,
    ips: seq<string>,
    vfIps: seq<string>,
    ipv6Pfs: seq<string>,
    ipv6Ips: seq<string>,
    ipv6Vfs: seq<string>,
    ipv6VfIps: seq<string>)

  function At(s: seq<string>, i: nat): Option<string> {
    if i < |s| then Some(s[i]) else None
  }

  /** The IPv6 settings that go with an IPv6 prefix, if there is one. */
  function Dual(prefix: Option<string>, ip: Option<string>): Option<Ipv6> {
    if prefix.Some? then Some(Ipv6(prefix.value, ip)) else None
  }

  function Min(a: int, b: int): int {
    if a < b then a else b
  }

  /** vfs_per_pf */
  function PerPf(req: Request): (n: nat)
    requires req.pfs != []
    ensures n >= 1
  {
    if |req.vfs| < |req.pfs| then 1 else |req.vfs| / |req.pfs|
  }

  // ---- What is laid out

  /** The devices of the Mellanox NICs, in order. */
  function Devices(nics: seq<Nic>): seq<string> {
    if nics == [] then []
    else
      var n := |nics| - 1;
      var pci := nics[n].pci;
      Devices(nics[..n]) + (if pci.Some? && pci.value.mellanox then [pci.value.device] else [])
  }

  function Count(devices: seq<string>, d: string): nat {
    multiset(devices)[d]
  }

  /** The instance of the m-th device: how many before it are the same. */
  function Instance(devices: seq<string>, m: nat): nat
    requires m < |devices|
  {
    Count(devices[..m], devices[m])
  }

  function Pf(req: Request, devices: seq<string>, m: nat): Interface
    requires m < |devices| && m < |req.pfs|
  {
    Interface(false, req.pfs[m], devices[m], Instance(devices, m), None, At(req.ips, m),
              Dual(At(req.ipv6Pfs, m), At(req.ipv6Ips, m)))
  }

  /** The t-th virtual interface of the m-th physical one; its number is `id`. */
  function Vf(req: Request, devices: seq<string>, m: nat, t: nat, id: nat): Interface
    requires m < |devices| && id < |req.vfs|
  {
    Interface(true, req.vfs[id], devices[m], Instance(devices, m), Some(id), At(req.vfIps, t),
              Dual(At(req.ipv6Vfs, id), At(req.ipv6VfIps, t)))
  }

  /** How many virtual interfaces the first `m` physical ones take. */
  function Taken(req: Request, m: nat): (n: nat)
    requires req.pfs != []
    ensures n <= |req.vfs|
  {
    Min(|req.vfs|, m * PerPf(req))
  }

  lemma TakenStep(req: Request, m: nat)
    requires req.pfs != []
    ensures Taken(req, m) <= Taken(req, m + 1) == Min(|req.vfs|, Taken(req, m) + PerPf(req))
    ensures Taken(req, m) < |req.vfs| ==> Taken(req, m) == m * PerPf(req)
  {
    assert (m + 1) * PerPf(req) == m * PerPf(req) + PerPf(req);
  }

  /** The virtual interfaces numbered from `first` to `last`, all of the m-th physical one. */
  function Vfs(req: Request, devices: seq<string>, m: nat, first: nat, last: nat): (r: seq<Interface>)
    requires m < |devices| && first <= last <= |req.vfs|
    ensures |r| == last - first && forall t | 0 <= t < |r| :: r[t] == Vf(req, devices, m, t, first + t)
  {
    seq(last - first, t requires 0 <= t < last - first => Vf(req, devices, m, t, first + t))
  }

  /** The physical interfaces up to the m-th, each followed by its virtual ones. */
  function Layout(req: Request, devices: seq<string>, m: nat): seq<Interface>
    requires req.pfs != [] && m <= |devices| && m <= |req.pfs|
  {
    if m == 0 then []
    else
      TakenStep(req, m - 1);
      Layout(req, devices, m - 1) + [Pf(req, devices, m - 1)]
        + Vfs(req, devices, m - 1, Taken(req, m - 1), Taken(req, m))
  }

  lemma {:induction false} LayoutSize(req: Request, devices: seq<string>, m: nat)
    requires req.pfs != [] && m <= |devices| && m <= |req.pfs|
    ensures |Layout(req, devices, m)| == m + Taken(req, m)
  {
    if m > 0 {
      TakenStep(req, m - 1);
      LayoutSize(req, devices, m - 1);
    }
  }

  // ---- When the count is right

  /** All are placed exactly if there are fewer virtual than physical ones, or they divide evenly. */
  lemma TakesAllIff(req: Request)
    requires req.pfs != []
    ensures Taken(req, |req.pfs|) == |req.vfs| <==> |req.vfs| < |req.pfs| || |req.vfs| % |req.pfs| == 0
  {
    var p, v := |req.pfs|, |req.vfs|;
    if v >= p {
      assert v == p * (v / p) + v % p;
    }
  }

  lemma TakenMonotone(req: Request, m: nat, n: nat)
    requires req.pfs != [] && m <= n
    ensures Taken(req, m) <= Taken(req, n)
  {
    if m < n {
      TakenMonotone(req, m, n - 1);
      TakenStep(req, n - 1);
    }
  }

  predicate RightCount(req: Request, count: nat) {
    count == req.vfSubnets + |req.pfs| + |req.vfs|
  }

  predicate Fits(req: Request, nics: nat)
    requires req.pfs != []
  {
    req.vfSubnets == 0 && nics >= |req.pfs| && (|req.vfs| < |req.pfs| || |req.vfs| % |req.pfs| == 0)
  }

  lemma RightCountIff(req: Request, devices: seq<string>)
    requires req.pfs != []
    ensures var m := Min(|devices|, |req.pfs|);
            RightCount(req, |Layout(req, devices, m)|) <==> Fits(req, |devices|)
  {
    var m := Min(|devices|, |req.pfs|);
    LayoutSize(req, devices, m);
    TakenMonotone(req, m, |req.pfs|);
    TakesAllIff(req);
  }

  // ---- What the interfaces are

  /** The virtual interfaces, or the physical ones, in order. */
  function Pick(s: seq<Interface>, virtual: bool): seq<Interface> {
    if s == [] then []
    else
      var n := |s| - 1;
      Pick(s[..n], virtual) + (if s[n].virtual == virtual then [s[n]] else [])
  }

  lemma PickLast(s: seq<Interface>, x: Interface, virtual: bool)
    ensures Pick(s + [x], virtual) == Pick(s, virtual) + (if x.virtual == virtual then [x] else [])
  {
    assert (s + [x])[..|s|] == s;
  }

  lemma {:induction false} PickConcat(a: seq<Interface>, b: seq<Interface>, virtual: bool)
    ensures Pick(a + b, virtual) == Pick(a, virtual) + Pick(b, virtual)
  {
    if b == [] {
      assert a + b == a;
    } else {
      var front, x := b[..|b| - 1], b[|b| - 1];
      PickConcat(a, front, virtual);
      PickLast(a + front, x, virtual);
      PickLast(front, x, virtual);
      assert b == front + [x];
      Regroup(a, front, [x]);
      Regroup(Pick(a, virtual), Pick(front, virtual), if x.virtual == virtual then [x] else []);
    }
  }

  lemma Regroup(a: seq<Interface>, b: seq<Interface>, c: seq<Interface>)
    ensures (a + b) + c == a + (b + c)
  {
  }

  lemma {:induction false} PickAll(s: seq<Interface>, virtual: bool)
    requires forall x | x in s :: x.virtual
    ensures Pick(s, virtual) == if virtual then s else []
  {
    if s != [] {
      var n := |s| - 1;
      assert s[n] in s;
      PickAll(s[..n], virtual);
      assert s == s[..n] + [s[n]];
    }
  }

  lemma PickOne(x: Interface, virtual: bool)
    ensures Pick([x], virtual) == if x.virtual == virtual then [x] else []
  {
    assert [x][..0] == [];
  }

  lemma NothingAdded(s: seq<Interface>)
    ensures s + [] == s
  {
  }

  lemma PickBlock(before: seq<Interface>, pf: Interface, vfs: seq<Interface>, virtual: bool)
    requires !pf.virtual && forall x | x in vfs :: x.virtual
    ensures Pick(before + [pf] + vfs, virtual) == Pick(before, virtual) + (if virtual then vfs else [pf])
  {
    var some := before + [pf];
    PickConcat(some, vfs, virtual);
    PickConcat(before, [pf], virtual);
    PickAll(vfs, virtual);
    PickOne(pf, virtual);
    NothingAdded(Pick(before, virtual));
    NothingAdded(Pick(some, virtual));
  }

  lemma AtLeast(k: nat, n: nat)
    requires k >= 1
    ensures k * n >= n
  {
  }

  /** Division and remainder are the only way to write `x` as a multiple and a rest. */
  lemma ChunkIndex(x: nat, m: nat, per: nat, t: nat)
    requires t < per && x == m * per + t
    ensures x / per == m && x % per == t
  {
    var q, r := x / per, x % per;
    assert x == q * per + r;
    if q > m {
      assert q * per == m * per + (q - m) * per;
      AtLeast(q - m, per);
    } else if q < m {
      assert m * per == q * per + (m - q) * per;
      AtLeast(m - q, per);
    }
  }

  /** The option is the i-th element, if there is one. */
  predicate IsAt(o: Option<string>, s: seq<string>, i: nat) {
    if i < |s| then o == Some(s[i]) else o.None?
  }

  /** The IPv6 settings are the i-th prefix, if there is one, with the t-th address, if there is one. */
  predicate IsDual(o: Option<Ipv6>, prefixes: seq<string>, i: nat, ips: seq<string>, t: nat) {
    if i < |prefixes| then o.Some? && o.value.prefix == prefixes[i] && IsAt(o.value.ip, ips, t) else o.None?
  }

  /** As many before it are of the same device. */
  ghost predicate IsInstance(instance: nat, devices: seq<string>, m: nat) {
    m < |devices| && instance == |set k: nat | k < m && devices[k] == devices[m]|
  }

  lemma {:induction false} CountIsSet(devices: seq<string>, n: nat, d: string)
    requires n <= |devices|
    ensures Count(devices[..n], d) == |set k: nat | k < n && devices[k] == d|
  {
    var all := set k: nat | k < n && devices[k] == d;
    if n > 0 {
      CountIsSet(devices, n - 1, d);
      var some := set k: nat | k < n - 1 && devices[k] == d;
      assert devices[..n] == devices[..n - 1] + [devices[n - 1]];
      assert all == some + (if devices[n - 1] == d then {n - 1} else {});
    } else {
      assert all == {};
    }
  }

  lemma InstanceCounts(devices: seq<string>, m: nat)
    requires m < |devices|
    ensures IsInstance(Instance(devices, m), devices, m)
  {
    CountIsSet(devices, m, devices[m]);
  }

  /**
   Virtual interface number `j` is for the j-th requested prefix, on the device of the physical one
   that carries it; addresses are counted from the first one it carries.
   */
  ghost predicate VfPlaced(req: Request, devices: seq<string>, j: nat, x: Interface)
    requires req.pfs != []
  {
    var m, t := j / PerPf(req), j % PerPf(req);
    && j < |req.vfs| && m < |devices|
    && x.virtual && x.prefix == req.vfs[j] && x.vfId == Some(j)
    && x.device == devices[m] && IsInstance(x.instance, devices, m)
    && IsAt(x.ip, req.vfIps, t) && IsDual(x.ipv6, req.ipv6Vfs, j, req.ipv6VfIps, t)
  }

  /** Physical interface number `i` is for the i-th requested prefix, on the i-th device. */
  ghost predicate PfPlaced(req: Request, devices: seq<string>, i: nat, x: Interface) {
    && i < |req.pfs| && i < |devices|
    && !x.virtual && x.prefix == req.pfs[i] && x.vfId.None?
    && x.device == devices[i] && IsInstance(x.instance, devices, i)
    && IsAt(x.ip, req.ips, i) && IsDual(x.ipv6, req.ipv6Pfs, i, req.ipv6Ips, i)
  }

  lemma PfIsPlaced(req: Request, devices: seq<string>, i: nat)
    requires i < |devices| && i < |req.pfs|
    ensures PfPlaced(req, devices, i, Pf(req, devices, i))
  {
    InstanceCounts(devices, i);
  }

  lemma VfIsPlaced(req: Request, devices: seq<string>, m: nat, t: nat)
    requires req.pfs != [] && m < |devices| && t < PerPf(req) && m * PerPf(req) + t < |req.vfs|
    ensures VfPlaced(req, devices, m * PerPf(req) + t, Vf(req, devices, m, t, m * PerPf(req) + t))
  {
    ChunkIndex(m * PerPf(req) + t, m, PerPf(req), t);
    InstanceCounts(devices, m);
  }

  ghost predicate VfsPlaced(req: Request, devices: seq<string>, vfs: seq<Interface>)
    requires req.pfs != []
  {
    forall j | 0 <= j < |vfs| :: VfPlaced(req, devices, j, vfs[j])
  }

  /** The virtual interfaces of the first `m` physical ones. */
  ghost predicate VfsDone(req: Request, devices: seq<string>, m: nat, vfs: seq<Interface>)
    requires req.pfs != []
  {
    |vfs| == Taken(req, m) && VfsPlaced(req, devices, vfs)
  }

  ghost predicate PfsPlaced(req: Request, devices: seq<string>, pfs: seq<Interface>) {
    forall i | 0 <= i < |pfs| :: PfPlaced(req, devices, i, pfs[i])
  }

  /** What the m-th physical interface adds to the picked ones. */
  lemma PickLayout(req: Request, devices: seq<string>, m: nat, virtual: bool)
    requires req.pfs != [] && m < |devices| && m < |req.pfs|
    ensures Taken(req, m) <= Taken(req, m + 1)
    ensures Pick(Layout(req, devices, m + 1), virtual) ==
            Pick(Layout(req, devices, m), virtual) +
            (if virtual then Vfs(req, devices, m, Taken(req, m), Taken(req, m + 1)) else [Pf(req, devices, m)])
  {
    TakenStep(req, m);
    PickBlock(Layout(req, devices, m), Pf(req, devices, m), Vfs(req, devices, m, Taken(req, m), Taken(req, m + 1)),
              virtual);
  }

  lemma VfsPlacedMore(req: Request, devices: seq<string>, vfs: seq<Interface>, m: nat, last: nat)
    requires req.pfs != [] && m < |devices| && VfsPlaced(req, devices, vfs) && |vfs| <= last <= |req.vfs|
    requires last <= |vfs| + PerPf(req) && (|vfs| < last ==> |vfs| == m * PerPf(req))
    ensures VfsPlaced(req, devices, vfs + Vfs(req, devices, m, |vfs|, last))
  {
    var more := Vfs(req, devices, m, |vfs|, last);
    forall t | 0 <= t < |more|
      ensures VfPlaced(req, devices, |vfs| + t, more[t])
    {
      VfIsPlaced(req, devices, m, t);
    }
  }

  lemma VfsStep(req: Request, devices: seq<string>, before: seq<Interface>, after: seq<Interface>, m: nat)
    requires req.pfs != [] && m < |devices| && VfsPlaced(req, devices, before)
    requires |before| == Taken(req, m) <= Taken(req, m + 1)
    requires after == before + Vfs(req, devices, m, Taken(req, m), Taken(req, m + 1))
    ensures |after| == Taken(req, m + 1) && VfsPlaced(req, devices, after)
  {
    TakenStep(req, m);
    VfsPlacedMore(req, devices, before, m, Taken(req, m + 1));
  }

  lemma VirtualsStep(req: Request, devices: seq<string>, m: nat)
    requires req.pfs != [] && m < |devices| && m < |req.pfs|
    requires VfsDone(req, devices, m, Pick(Layout(req, devices, m), true))
    ensures VfsDone(req, devices, m + 1, Pick(Layout(req, devices, m + 1), true))
  {
    PickLayout(req, devices, m, true);
    VfsStep(req, devices, Pick(Layout(req, devices, m), true), Pick(Layout(req, devices, m + 1), true), m);
  }

  lemma {:induction false} VirtualsInOrder(req: Request, devices: seq<string>, m: nat)
    requires req.pfs != [] && m <= |devices| && m <= |req.pfs|
    ensures VfsDone(req, devices, m, Pick(Layout(req, devices, m), true))
  {
    if m > 0 {
      VirtualsInOrder(req, devices, m - 1);
      VirtualsStep(req, devices, m - 1);
    }
  }

  lemma PfsPlacedMore(req: Request, devices: seq<string>, pfs: seq<Interface>)
    requires PfsPlaced(req, devices, pfs) && |pfs| < |devices| && |pfs| < |req.pfs|
    ensures PfsPlaced(req, devices, pfs + [Pf(req, devices, |pfs|)])
  {
    PfIsPlaced(req, devices, |pfs|);
  }

  lemma PhysicalsStep(req: Request, devices: seq<string>, m: nat, before: seq<Interface>, after: seq<Interface>)
    requires req.pfs != [] && m < |devices| && m < |req.pfs|
    requires |before| == m && PfsPlaced(req, devices, before) && after == before + [Pf(req, devices, m)]
    ensures |after| == m + 1 && PfsPlaced(req, devices, after)
  {
    PfsPlacedMore(req, devices, before);
  }

  lemma {:induction false} PhysicalsInOrder(req: Request, devices: seq<string>, m: nat)
    requires req.pfs != [] && m <= |devices| && m <= |req.pfs|
    ensures |Pick(Layout(req, devices, m), false)| == m
    ensures PfsPlaced(req, devices, Pick(Layout(req, devices, m), false))
  {
    if m > 0 {
      PhysicalsInOrder(req, devices, m - 1);
      PickLayout(req, devices, m - 1, false);
      PhysicalsStep(req, devices, m - 1, Pick(Layout(req, devices, m - 1), false),
                    Pick(Layout(req, devices, m), false));
    }
  }

  // ---- Where each of them is

  /** The physical interface number `i` comes after `i` physical ones and all that they carry. */
  ghost predicate PfAt(req: Request, devices: seq<string>, s: seq<Interface>, i: nat)
    requires req.pfs != []
  {
    var at := i + Min(|req.vfs|, i * PerPf(req));
    at < |s| && PfPlaced(req, devices, i, s[at])
  }

  /** The virtual interface number `j` comes after `j` virtual ones and the physical ones up to its own. */
  ghost predicate VfAt(req: Request, devices: seq<string>, s: seq<Interface>, j: nat)
    requires req.pfs != []
  {
    var at := j / PerPf(req) + 1 + j;
    at < |s| && VfPlaced(req, devices, j, s[at])
  }

  lemma PlacesStay(req: Request, devices: seq<string>, s: seq<Interface>, more: seq<Interface>)
    requires req.pfs != []
    ensures forall i: nat :: PfAt(req, devices, s, i) ==> PfAt(req, devices, s + more, i)
    ensures forall j: nat :: VfAt(req, devices, s, j) ==> VfAt(req, devices, s + more, j)
  {
  }

  lemma NextVfs(req: Request, devices: seq<string>, s: seq<Interface>, m: nat, first: nat, last: nat)
    requires req.pfs != [] && m < |devices| && first <= last <= |req.vfs| && |s| == m + first + 1
    requires last <= first + PerPf(req) && (first < last ==> first == m * PerPf(req))
    ensures forall j | first <= j < last :: VfAt(req, devices, s + Vfs(req, devices, m, first, last), j)
  {
    forall j | first <= j < last
      ensures VfAt(req, devices, s + Vfs(req, devices, m, first, last), j)
    {
      ChunkIndex(j, m, PerPf(req), j - first);
      VfIsPlaced(req, devices, m, j - first);
    }
  }

  /** Every interface is where it should be, and there are no others. */
  lemma {:induction false} LayoutInPlace(req: Request, devices: seq<string>, m: nat)
    requires req.pfs != [] && m <= |devices| && m <= |req.pfs|
    ensures |Layout(req, devices, m)| == m + Min(|req.vfs|, m * PerPf(req))
    ensures forall i | 0 <= i < m :: PfAt(req, devices, Layout(req, devices, m), i)
    ensures forall j | 0 <= j < Min(|req.vfs|, m * PerPf(req)) :: VfAt(req, devices, Layout(req, devices, m), j)
  {
    LayoutSize(req, devices, m);
    if m > 0 {
      var n := m - 1;
      TakenStep(req, n);
      LayoutInPlace(req, devices, n);
      var before, vfs := Layout(req, devices, n), Vfs(req, devices, n, Taken(req, n), Taken(req, m));
      var some := before + [Pf(req, devices, n)];
      PfIsPlaced(req, devices, n);
      PlacesStay(req, devices, before, [Pf(req, devices, n)]);
      PlacesStay(req, devices, some, vfs);
      assert PfAt(req, devices, some, n);
      NextVfs(req, devices, some, n, Taken(req, n), Taken(req, m));
    }
  }

  /** A virtual interface comes after one of the same device and instance, so after its physical one. */
  predicate VfsFollow(s: seq<Interface>) {
    forall q | 0 <= q < |s| && s[q].virtual ::
             q > 0 && s[q - 1].device == s[q].device && s[q - 1].instance == s[q].instance
  }

  lemma FollowBlock(before: seq<Interface>, pf: Interface, vfs: seq<Interface>)
    requires VfsFollow(before) && !pf.virtual && forall x | x in vfs ::
               x.device == pf.device && x.instance == pf.instance
    ensures VfsFollow(before + [pf] + vfs)
  {
    var s := before + [pf] + vfs;
    forall q | 0 <= q < |s| && s[q].virtual
      ensures q > 0 && s[q - 1].device == s[q].device && s[q - 1].instance == s[q].instance
    {
      if q > |before| {
        assert s[q] in vfs && (q - 1 > |before| ==> s[q - 1] in vfs);
      }
    }
  }

  lemma {:induction false} VirtualsFollow(req: Request, devices: seq<string>, m: nat)
    requires req.pfs != [] && m <= |devices| && m <= |req.pfs|
    ensures VfsFollow(Layout(req, devices, m))
  {
    if m > 0 {
      TakenStep(req, m - 1);
      VirtualsFollow(req, devices, m - 1);
      FollowBlock(Layout(req, devices, m - 1), Pf(req, devices, m - 1),
                  Vfs(req, devices, m - 1, Taken(req, m - 1), Taken(req, m)));
    }
  }

  lemma {:induction false} CountGrows(devices: seq<string>, i: nat, j: nat, d: string)
    requires i <= j <= |devices|
    ensures Count(devices[..i], d) <= Count(devices[..j], d)
    decreases j
  {
    if i < j {
      CountGrows(devices, i, j - 1, d);
      assert devices[..j] == devices[..j - 1] + [devices[j - 1]];
    }
  }

  /** No two physical interfaces have the same device and instance. */
  lemma PhysicalsDiffer(req: Request, devices: seq<string>, i: nat, j: nat)
    requires i < j < |devices| && j < |req.pfs|
    ensures var a, b := Pf(req, devices, i), Pf(req, devices, j);
            (a.device, a.instance) != (b.device, b.instance)
  {
    if devices[i] == devices[j] {
      assert devices[..i + 1] == devices[..i] + [devices[i]];
      CountGrows(devices, i + 1, j, devices[j]);
    }
  }

  // ---- Which address a virtual interface gets

  /** Every virtual interface gets its own address of the list. */
  ghost predicate OwnAddresses(req: Request, s: seq<Interface>) {
    forall x | x in s && x.virtual && x.vfId.Some? :: x.ip == At(req.vfIps, x.vfId.value)
  }

  lemma OwnAddress(req: Request, devices: seq<string>, j: nat, x: Interface)
    requires req.pfs != [] && VfPlaced(req, devices, j, x) && j < PerPf(req)
    ensures x.vfId == Some(j) && x.ip == At(req.vfIps, j)
  {
    ChunkIndex(j, 0, PerPf(req), j);
  }

  /** The first virtual interface of the second physical one gets the first address again. */
  lemma RepeatedAddress(req: Request, devices: seq<string>, x: Interface)
    requires req.pfs != [] && VfPlaced(req, devices, PerPf(req), x)
    ensures x.vfId == Some(PerPf(req)) && x.ip == At(req.vfIps, 0)
  {
    ChunkIndex(PerPf(req), 1, PerPf(req), 0);
  }

  /**
   Given one address, all different, for each virtual interface, they get their own exactly
   if one physical interface carries them all: the list is read from its start for each one.
   */
  lemma OwnAddressesIff(req: Request, devices: seq<string>)
    requires req.pfs != [] && Fits(req, |devices|) && |req.vfIps| == |req.vfs|
    requires forall i, j | 0 <= i < j < |req.vfIps| :: req.vfIps[i] != req.vfIps[j]
    ensures OwnAddresses(req, Pick(Layout(req, devices, |req.pfs|), true)) <==> |req.pfs| == 1 || |req.vfs| <= 1
  {
    VirtualsInOrder(req, devices, |req.pfs|);
    TakesAllIff(req);
    PerPfIsAllIff(req);
    OwnAddressesOf(req, devices, Pick(Layout(req, devices, |req.pfs|), true));
  }

  lemma OwnAddressesOf(req: Request, devices: seq<string>, vfs: seq<Interface>)
    requires req.pfs != [] && |vfs| == |req.vfs| == |req.vfIps|
    requires forall j | 0 <= j < |vfs| :: VfPlaced(req, devices, j, vfs[j])
    requires forall i, j | 0 <= i < j < |req.vfIps| :: req.vfIps[i] != req.vfIps[j]
    ensures OwnAddresses(req, vfs) <==> |req.vfs| <= PerPf(req)
  {
    var per := PerPf(req);
    if |vfs| <= per {
      forall x | x in vfs
        ensures x.vfId.Some? && x.ip == At(req.vfIps, x.vfId.value)
      {
        var j :| 0 <= j < |vfs| && vfs[j] == x;
        OwnAddress(req, devices, j, x);
      }
    } else {
      RepeatedAddress(req, devices, vfs[per]);
      assert vfs[per] in vfs && vfs[per].virtual;
    }
  }

  lemma PerPfIsAllIff(req: Request)
    requires req.pfs != [] && (|req.vfs| < |req.pfs| || |req.vfs| % |req.pfs| == 0)
    ensures |req.vfs| <= PerPf(req) <==> |req.pfs| == 1 || |req.vfs| <= 1
  {
    var p, v := |req.pfs|, |req.vfs|;
    if v >= p {
      assert v == p * (v / p) + v % p;
      SharedEvenly(p, v, v / p);
    }
  }

  lemma SharedEvenly(p: nat, v: nat, k: nat)
    requires 1 <= p <= v && v == p * k
    ensures v <= k <==> p == 1
  {
    if p > 1 {
      assert p * k == k + (p - 1) * k;
      AtLeast(p - 1, k);
    }
  }

  // ---- Building them

  lemma {:induction false} DevicesPrefix(nics: seq<Nic>, x: nat)
    requires x <= |nics|
    ensures Devices(nics[..x]) <= Devices(nics)
    decreases |nics| - x
  {
    if x == |nics| {
      assert nics[..x] == nics;
    } else {
      assert nics[..x + 1][..x] == nics[..x];
      DevicesPrefix(nics, x + 1);
    }
  }

  /** The next NIC is Mellanox: it has the next device. */
  lemma NextDevice(nics: seq<Nic>, x: nat)
    requires x < |nics|
    ensures var done, pci := Devices(nics[..x]), nics[x].pci;
            if pci.Some? && pci.value.mellanox
            then |done| < |Devices(nics)| && Devices(nics)[|done|] == pci.value.device
              && |Devices(nics[..x + 1])| == |done| + 1
            else Devices(nics[..x + 1]) == done
  {
    assert nics[..x + 1][..x] == nics[..x];
    DevicesPrefix(nics, x + 1);
  }

  predicate IsMellanox(nics: seq<Nic>, x: nat) {
    x < |nics| && nics[x].pci.Some? && nics[x].pci.value.mellanox
  }

  /** The positions of the Mellanox NICs, in order, and their devices. */
  ghost predicate AreDevices(nics: seq<Nic>, at: seq<nat>, devices: seq<string>) {
    && |at| == |devices|
    && (forall i | 0 <= i < |at| :: IsMellanox(nics, at[i]) && devices[i] == nics[at[i]].pci.value.device)
    && (forall i, j | 0 <= i < j < |at| :: at[i] < at[j])
    && (forall x: nat | IsMellanox(nics, x) :: x in at)
  }

  lemma AreDevicesMore(nics: seq<Nic>, at: seq<nat>, devices: seq<string>)
    requires nics != [] && AreDevices(nics[..|nics| - 1], at, devices)
    ensures var n := |nics| - 1;
            if IsMellanox(nics, n) then AreDevices(nics, at + [n], devices + [nics[n].pci.value.device])
            else AreDevices(nics, at, devices)
  {
    var n := |nics| - 1;
    forall x: nat | IsMellanox(nics, x) && x < n
      ensures x in at
    {
      assert IsMellanox(nics[..n], x);
    }
    forall i | 0 <= i < |at|
      ensures at[i] < n && IsMellanox(nics, at[i]) && devices[i] == nics[at[i]].pci.value.device
    {
      assert IsMellanox(nics[..n], at[i]);
    }
  }

  /** The devices are those of the Mellanox NICs, each once, and in their order. */
  lemma {:induction false} DevicesAre(nics: seq<Nic>) returns (at: seq<nat>)
    ensures AreDevices(nics, at, Devices(nics))
  {
    at := [];
    if nics != [] {
      var n := |nics| - 1;
      at := DevicesAre(nics[..n]);
      AreDevicesMore(nics, at, Devices(nics[..n]));
      if IsMellanox(nics, n) {
        at := at + [n];
      }
    }
  }

  /** The last instance given to each device so far. */
  ghost predicate Indexed(index: map<string, nat>, devices: seq<string>) {
    forall d :: if d in index then index[d] + 1 == Count(devices, d) else Count(devices, d) == 0
  }

  function NextInstance(index: map<string, nat>, d: string): nat {
    if d in index then index[d] + 1 else 0
  }

  lemma IndexStep(index: map<string, nat>, devices: seq<string>, d: string)
    requires Indexed(index, devices)
    ensures NextInstance(index, d) == Count(devices, d)
    ensures Indexed(index[d := NextInstance(index, d)], devices + [d])
  {
  }

  /** The chunk of a list that starts at `first`; empty past its end. */
  function Chunk(s: seq<string>, first: nat, per: nat): (r: seq<string>)
    ensures forall t: nat | t < per :: At(r, t) == At(s, first + t)
  {
    if first >= |s| then [] else s[first..Min(|s|, first + per)]
  }

  /** The loop over a chunk of virtual interfaces. */
  method AddVfs(req: Request, ghost devices: seq<string>, ghost m: nat, device: string, instance: nat, first: nat,
                last: nat, per: nat)
    returns (vfs: seq<Interface>)
    requires m < |devices| && device == devices[m] && instance == Instance(devices, m)
    requires first <= last <= |req.vfs| && last <= first + per
    ensures vfs == Vfs(req, devices, m, first, last)
  {
    vfs := [];
    var chunk := req.vfs[first..last];
    var ipv6Chunk := Chunk(req.ipv6Vfs, first, per);
    var vfId := first;
    for t := 0 to |chunk|
      invariant vfId == first + t && vfs == Vfs(req, devices, m, first, first + t)
    {
      vfs := vfs + [Interface(true, chunk[t], device, instance, Some(vfId), At(req.vfIps, t),
                              Dual(At(ipv6Chunk, t), At(req.ipv6VfIps, t)))];
      vfId := vfId + 1;
    }
  }

  /** The loop over the machine's NICs. */
  method PlaceAll(req: Request, nics: seq<Nic>) returns (configs: seq<Interface>)
    requires req.pfs != []
    ensures configs == Layout(req, Devices(nics), Min(|Devices(nics)|, |req.pfs|))
  {
    configs := [];
    ghost var devices := Devices(nics);
    var per := PerPf(req);
    var index: map<string, nat> := map[];
    var m, vfId := 0, 0;
    for x := 0 to |nics|
      invariant m == |Devices(nics[..x])| <= |req.pfs| && m <= |devices|
      invariant configs == Layout(req, devices, m) && vfId == Taken(req, m)
      invariant Indexed(index, devices[..m])
    {
      NextDevice(nics, x);
      var pci := nics[x].pci;
      if pci.Some? && pci.value.mellanox {
        if m >= |req.pfs| {
          break;
        }
        var device := pci.value.device;
        IndexStep(index, devices[..m], device);
        assert devices[..m + 1] == devices[..m] + [device];
        var instance := NextInstance(index, device);
        index := index[device := instance];
        TakenStep(req, m);
        var last := Min(|req.vfs|, vfId + per);
        var vfs := AddVfs(req, devices, m, device, instance, vfId, last, per);
        configs := configs + [Interface(false, req.pfs[m], device, instance, None, At(req.ips, m),
                                        Dual(At(req.ipv6Pfs, m), At(req.ipv6Ips, m)))] + vfs;
        vfId := last;
        m := m + 1;
      }
    }
    DevicesPrefix(nics, |nics|);
    assert nics[..|nics|] == nics;
  }

  /** Succeeds exactly if the machine is known and the request fits it, with the interfaces laid out in order. */
  method BuildInterfaces(req: Request, discovered: Option<seq<Nic>>) returns (r: Result<seq<Interface>, string>)
    ensures r.Ok? <==>
              req.pfs != [] && discovered.Some? && req.tenantOrg.Some? && Fits(req, |Devices(discovered.value)|)
    ensures r.Ok? ==> r.value == Layout(req, Devices(discovered.value), |req.pfs|)
    ensures r.Ok? ==> && |r.value| == |req.pfs| + |req.vfs|
                      && (forall i | 0 <= i < |req.pfs| :: PfAt(req, Devices(discovered.value), r.value, i))
                      && (forall j | 0 <= j < |req.vfs| :: VfAt(req, Devices(discovered.value), r.value, j))
    ensures r.Err? ==>
              r == Err(if req.pfs == [] then "Either network segment id or vpc_prefix id is needed."
                       else if discovered.None? then "Machine discovery info is required for VPC prefix allocation."
                       else if req.tenantOrg.None? then "Tenant org is mandatory in case of vpc_prefix."
                       else "Could not create the correct number of interface configs to satisfy request.")
  {
    if req.pfs == [] {
      return Err("Either network segment id or vpc_prefix id is needed.");
    }
    if discovered.None? {
      return Err("Machine discovery info is required for VPC prefix allocation.");
    }
    ghost var devices := Devices(discovered.value);
    var configs := PlaceAll(req, discovered.value);
    if req.tenantOrg.None? {
      return Err("Tenant org is mandatory in case of vpc_prefix.");
    }
    RightCountIff(req, devices);
    if |configs| != req.vfSubnets + |req.pfs| + |req.vfs| {
      return Err("Could not create the correct number of interface configs to satisfy request.");
    }
    TakesAllIff(req);
    LayoutInPlace(req, devices, |req.pfs|);
    r := Ok(configs);
  }
}
