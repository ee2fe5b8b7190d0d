/** Choosing among the listed devices: the first one online, and going round those online. */
module DeviceSelection {
  import opened Text
  import opened Numerals
  import opened Devices

  predicate IsOnline(devices: seq<DeviceEntry>, i: nat) {
    i < |devices| && devices[i].online
  }

  method FirstOnlineDeviceIndex(devices: seq<DeviceEntry>) returns (r: Option<nat>)
    ensures r.None? ==> forall i: nat :: !IsOnline(devices, i)
    ensures r.Some? ==> IsOnline(devices, r.value) && forall i :: 0 <= i < r.value ==> !IsOnline(devices, i)
  {
    for i := 0 to |devices|
      invariant forall j :: 0 <= j < i ==> !IsOnline(devices, j)
    {
      if devices[i].online { return Some(i); }
    }
    r := None;
  }

  /** The first index online from `start + offset` on, going round. */
  function Search(devices: seq<DeviceEntry>, start: nat, offset: nat): Option<nat>
    decreases |devices| - offset
  {
    if offset >= |devices| then None
    else
      var index := (start + offset) % |devices|;
      if devices[index].online then Some(index) else Search(devices, start, offset + 1)
  }

  function NextOnline(devices: seq<DeviceEntry>, current: Option<nat>): Option<nat> {
    Search(devices, if current.Some? && current.value < |devices| then current.value + 1 else 0, 0)
  }

  method NextOnlineDeviceIndex(devices: seq<DeviceEntry>, current: Option<nat>) returns (r: Option<nat>)
    ensures r == NextOnline(devices, current)
  {
    if devices == [] { return None; }
    var start := if current.Some? && current.value < |devices| then current.value + 1 else 0;
    for offset := 0 to |devices|
      invariant Search(devices, start, offset) == Search(devices, start, 0)
    {
      var index := (start + offset) % |devices|;
      if devices[index].online { return Some(index); }
    }
    r := None;
  }

  /** The current device if it is online, else the first one online. */
  method SelectedOnlineDevice(devices: seq<DeviceEntry>, current: Option<nat>) returns (r: Option<DeviceEntry>)
    ensures current.Some? && IsOnline(devices, current.value) ==> r == Some(devices[current.value])
    ensures current.None? || !IsOnline(devices, current.value) ==>
      if r.None? then forall i: nat :: !IsOnline(devices, i)
      else exists i: nat :: IsOnline(devices, i) && r == Some(devices[i]) && forall j :: 0 <= j < i ==> !IsOnline(devices, j)
  {
    if current.Some? && current.value < |devices| && devices[current.value].online {
      return Some(devices[current.value]);
    }
    var fallback := FirstOnlineDeviceIndex(devices);
    r := if fallback.None? then None else Some(devices[fallback.value]);
  }

  // ---------- Going round ----------

  /** The index `offset` steps behind `i`, going round once at most. */
  function Behind(n: nat, i: nat, offset: nat): (r: nat)
    requires i < n && offset <= n
    ensures r < n
  {
    if i + offset < n then i + offset else i + offset - n
  }

  /** How far `j` is behind `i`. */
  function Distance(n: nat, i: nat, j: nat): (d: nat)
    requires i < n && j < n
    ensures d < n && Behind(n, i, d) == j
  {
    if i <= j then j - i else j - i + n
  }

  /** The indices reached from `i` by `k` times asking for the next one. */
  function Visited(devices: seq<DeviceEntry>, i: nat, k: nat): Option<nat> {
    if k == 0 then Some(i)
    else
      var before :- Visited(devices, i, k - 1);
      NextOnline(devices, Some(before))
  }

  /** How many of the indices from `a` up to `b` are online. */
  function Count(devices: seq<DeviceEntry>, a: nat, b: nat): nat
    requires a <= b <= |devices|
  {
    if a == b then 0 else Count(devices, a, b - 1) + (if devices[b - 1].online then 1 else 0)
  }

  function OnlineCount(devices: seq<DeviceEntry>): nat {
    Count(devices, 0, |devices|)
  }

  /** How many of the first `p` indices behind `i`, itself included, are online. */
  function CountBehind(devices: seq<DeviceEntry>, i: nat, p: nat): nat
    requires i < |devices| && p <= |devices|
  {
    if p == 0 then 0
    else CountBehind(devices, i, p - 1) + (if devices[Behind(|devices|, i, p - 1)].online then 1 else 0)
  }

  lemma {:induction false} CountSplits(devices: seq<DeviceEntry>, a: nat, b: nat, c: nat)
    requires a <= b <= c <= |devices|
    ensures Count(devices, a, c) == Count(devices, a, b) + Count(devices, b, c)
    decreases c
  {
    if b < c { CountSplits(devices, a, b, c - 1); }
  }

  lemma {:induction false} CountBehindIs(devices: seq<DeviceEntry>, i: nat, p: nat)
    requires i < |devices| && p <= |devices|
    ensures CountBehind(devices, i, p)
         == if i + p <= |devices| then Count(devices, i, i + p)
            else Count(devices, i, |devices|) + Count(devices, 0, i + p - |devices|)
  {
    if p > 0 { CountBehindIs(devices, i, p - 1); }
  }

  /** Going round once from anywhere counts every device online. */
  lemma RoundCountsAll(devices: seq<DeviceEntry>, i: nat)
    requires i < |devices|
    ensures CountBehind(devices, i, |devices|) == OnlineCount(devices)
  {
    CountBehindIs(devices, i, |devices|);
    CountSplits(devices, 0, i, |devices|);
  }

  lemma {:induction false} CountGrows(devices: seq<DeviceEntry>, i: nat, p: nat, q: nat)
    requires i < |devices| && p <= q <= |devices|
    ensures CountBehind(devices, i, p) <= CountBehind(devices, i, q)
    ensures p < q && devices[Behind(|devices|, i, p)].online ==> CountBehind(devices, i, p) < CountBehind(devices, i, q)
    decreases q
  {
    if p < q { CountGrows(devices, i, p, q - 1); }
  }

  /** The first offset from `p` on that is online; the round ends at `i` itself. */
  function NextOffset(devices: seq<DeviceEntry>, i: nat, p: nat): (q: nat)
    requires IsOnline(devices, i) && p <= |devices|
    ensures p <= q <= |devices| && devices[Behind(|devices|, i, q)].online
    ensures CountBehind(devices, i, q) == CountBehind(devices, i, p)
    decreases |devices| - p
  {
    if devices[Behind(|devices|, i, p)].online then p else NextOffset(devices, i, p + 1)
  }

  lemma Wraps(n: nat, i: nat, p: nat, t: nat)
    requires i < n && p < n && p + 1 + t <= n
    ensures (Behind(n, i, p) + 1 + t) % n == Behind(n, i, p + 1 + t)
  {
    var x := Behind(n, i, p) + 1 + t;
    if x < n { DivModUnique(x, n, 0, x); } else { DivModUnique(x, n, 1, x - n); }
  }

  /** Asking for the next device goes to the next offset online. */
  lemma {:induction false} NextIsNextOffset(devices: seq<DeviceEntry>, i: nat, p: nat, t: nat)
    requires IsOnline(devices, i) && p < |devices| && p + 1 + t <= |devices|
    ensures Search(devices, Behind(|devices|, i, p) + 1, t)
         == Some(Behind(|devices|, i, NextOffset(devices, i, p + 1 + t)))
    decreases |devices| - t
  {
    Wraps(|devices|, i, p, t);
    if !devices[Behind(|devices|, i, p + 1 + t)].online { NextIsNextOffset(devices, i, p, t + 1); }
  }

  lemma NoneBehind(devices: seq<DeviceEntry>, i: nat)
    requires i < |devices|
    ensures CountBehind(devices, i, 0) == 0
  {
  }

  lemma OneMoreBehind(devices: seq<DeviceEntry>, i: nat, p: nat)
    requires i < |devices| && p < |devices| && devices[Behind(|devices|, i, p)].online
    ensures CountBehind(devices, i, p + 1) == CountBehind(devices, i, p) + 1
  {
  }

  /** After `k` steps, at an offset with `k` devices online before it. */
  lemma {:induction false} VisitedIs(devices: seq<DeviceEntry>, i: nat, k: nat) returns (p: nat)
    requires IsOnline(devices, i) && k <= OnlineCount(devices)
    ensures p <= |devices| && devices[Behind(|devices|, i, p)].online && CountBehind(devices, i, p) == k
    ensures Visited(devices, i, k) == Some(Behind(|devices|, i, p))
    ensures p == |devices| <==> k == OnlineCount(devices)
  {
    hide Search, Count, CountBehind, NextOffset;
    RoundCountsAll(devices, i);
    if k == 0 {
      p := 0;
      NoneBehind(devices, i);
      CountGrows(devices, i, 0, |devices|);
    } else {
      var q := VisitedIs(devices, i, k - 1);
      NextIsNextOffset(devices, i, q, 0);
      OneMoreBehind(devices, i, q);
      p := NextOffset(devices, i, q + 1);
      CountGrows(devices, i, p, |devices|);
    }
  }

  /** Fewer than `m` steps from `i` lead to `d`. */
  ghost predicate IsVisited(devices: seq<DeviceEntry>, i: nat, d: nat, m: nat) {
    exists k :: 0 <= k < m && Visited(devices, i, k) == Some(d)
  }

  /** Starting at a device online and asking for the next one as often as there are devices online
      visits each of them exactly once, in cyclic order, and comes back to the start. */
  lemma GoingRound(devices: seq<DeviceEntry>, i: nat)
    requires IsOnline(devices, i)
    ensures var m, n := OnlineCount(devices), |devices|;
            && Visited(devices, i, m) == Some(i)
            && (forall k :: 0 <= k < m ==> Visited(devices, i, k).Some? && IsOnline(devices, Visited(devices, i, k).value))
            && (forall j, k :: 0 <= j < k < m ==>
                  Distance(n, i, Visited(devices, i, j).value) < Distance(n, i, Visited(devices, i, k).value))
            && (forall d :: 0 <= d < n && devices[d].online ==> IsVisited(devices, i, d, m))
  {
    hide Visited, Count, CountBehind, IsVisited;
    var m, n := OnlineCount(devices), |devices|;
    var last := VisitedIs(devices, i, m);
    forall k | 0 <= k < m ensures Visited(devices, i, k).Some? && IsOnline(devices, Visited(devices, i, k).value) {
      var p := VisitedIs(devices, i, k);
    }
    forall j, k | 0 <= j < k < m
      ensures Distance(n, i, Visited(devices, i, j).value) < Distance(n, i, Visited(devices, i, k).value)
    {
      var p := VisitedIs(devices, i, j);
      var q := VisitedIs(devices, i, k);
      if q <= p { CountGrows(devices, i, q, p); }
    }
    forall d | 0 <= d < n && devices[d].online ensures IsVisited(devices, i, d, m) {
      EachIsVisited(devices, i, d);
    }
  }

  lemma EachIsVisited(devices: seq<DeviceEntry>, i: nat, d: nat)
    requires IsOnline(devices, i) && IsOnline(devices, d)
    ensures IsVisited(devices, i, d, OnlineCount(devices))
  {
    hide Visited, Count, CountBehind;
    var p := Distance(|devices|, i, d);
    RoundCountsAll(devices, i);
    CountGrows(devices, i, p, |devices|);
    var k := CountBehind(devices, i, p);
    var q := VisitedIs(devices, i, k);
    CountGrows(devices, i, if p < q then p else q, if p < q then q else p);
    assert Visited(devices, i, k) == Some(d);
  }

  // ---------- The next device from anywhere ----------

  /** `d` steps behind the current device, or in front of none at the `d`-th: the place looked at. */
  function Place(n: nat, current: Option<nat>, d: nat): (i: nat)
    requires d < n
    ensures i < n
  {
    if current.Some? && current.value < n then Behind(n, current.value, d + 1) else d
  }

  function From(n: nat, current: Option<nat>): nat {
    if current.Some? && current.value < n then current.value + 1 else 0
  }

  lemma PlaceIs(n: nat, current: Option<nat>, d: nat)
    requires d < n
    ensures (From(n, current) + d) % n == Place(n, current, d)
  {
    if current.Some? && current.value < n {
      Wraps(n, current.value, 0, d);
    } else {
      DivModUnique(d, n, 0, d);
    }
  }

  /** The nearest place online from the `d`-th on. */
  ghost predicate IsNearest(devices: seq<DeviceEntry>, current: Option<nat>, d: nat, r: Option<nat>) {
    var n := |devices|;
    if r.None? then forall e :: d <= e < n ==> !IsOnline(devices, Place(n, current, e))
    else exists e :: d <= e < n && r == Some(Place(n, current, e)) && IsOnline(devices, Place(n, current, e))
                     && forall f :: d <= f < e ==> !IsOnline(devices, Place(n, current, f))
  }

  lemma {:induction false} SearchFinds(devices: seq<DeviceEntry>, current: Option<nat>, d: nat)
    requires d <= |devices|
    ensures IsNearest(devices, current, d, Search(devices, From(|devices|, current), d))
    decreases |devices| - d
  {
    hide Place, From;
    if d < |devices| {
      PlaceIs(|devices|, current, d);
      if !IsOnline(devices, Place(|devices|, current, d)) { SearchFinds(devices, current, d + 1); }
    }
  }

  /** The next device is the nearest one online behind the current one, which comes last itself; without
      a current device, or with one that is gone, the first one online. */
  lemma NextExactly(devices: seq<DeviceEntry>, current: Option<nat>)
    ensures IsNearest(devices, current, 0, NextOnline(devices, current))
    ensures NextOnline(devices, current).None? <==> forall i: nat :: !IsOnline(devices, i)
  {
    hide Search, Place;
    SearchFinds(devices, current, 0);
    if NextOnline(devices, current).None? {
      forall i: nat ensures !IsOnline(devices, i) {
        if i < |devices| { PlaceOf(|devices|, current, i); }
      }
    }
  }

  /** Every index is a place looked at. */
  lemma PlaceOf(n: nat, current: Option<nat>, i: nat)
    requires i < n
    ensures exists d: nat :: d < n && Place(n, current, d) == i
  {
    if current.Some? && current.value < n {
      var d := Distance(n, current.value, i);
      var e := if d == 0 then n - 1 else d - 1;
      assert Place(n, current, e) == i;
    } else {
      assert Place(n, current, i) == i;
    }
  }
}
