/** The known devices: a list keyed by fingerprint or endpoint, and its view for the user. */
module Devices {
  import opened Text
  import opened Numerals
  import opened Protocol

  datatype Device = Device(ip: string, version: string, port: int, https: bool, fingerprint: string, alias: string,
                           deviceModel: string, deviceType: DeviceType, download: bool)

  datatype Source = Discovered | Manual

  datatype DeviceEntry = DeviceEntry(key: string, device: Device, source: Source, online: bool, firstSeen: int, lastSeen: int)

  // ---------- Keys ----------

  const BY_FINGERPRINT := "fingerprint:"
  const BY_ENDPOINT := "endpoint:"

  function EndpointKey(ip: string, port: int): string {
    ip + ":" + IntText(port)
  }

  function KeyOf(ip: string, port: int, fingerprint: string): string {
    if fingerprint != "" then BY_FINGERPRINT + fingerprint else BY_ENDPOINT + EndpointKey(ip, port)
  }

  function DeviceKey(d: Device): string {
    KeyOf(d.ip, d.port, d.fingerprint)
  }

  lemma IntTextsDiffer(m: int, n: int)
    ensures ':' !in IntText(n)
    ensures IntText(m) == IntText(n) ==> m == n
  {
    hide Numeral, Value;
    var a, b := Numeral(if m < 0 then -m else m, 10), Numeral(if n < 0 then -n else n, 10);
    assert ':' !in b && '-' !in a && '-' !in b;
    assert Value(a, 10) == (if m < 0 then -m else m) && Value(b, 10) == (if n < 0 then -n else n);
    if IntText(m) == IntText(n) {
      assert m < 0 ==> IntText(m)[0] == '-' && IntText(m)[1..] == a;
      assert n < 0 ==> IntText(n)[0] == '-' && IntText(n)[1..] == b;
      assert m >= 0 ==> a[0] in a;
      assert n >= 0 ==> b[0] in b;
    }
  }

  /** Endpoints have different keys, whatever the address text contains. */
  lemma EndpointsDiffer(ip: string, port: int, other: string, otherPort: int)
    requires EndpointKey(ip, port) == EndpointKey(other, otherPort)
    ensures ip == other && port == otherPort
  {
    hide IntText;
    var a, b := IntText(port), IntText(otherPort);
    var k := EndpointKey(ip, port);
    IntTextsDiffer(port, otherPort);
    IntTextsDiffer(otherPort, port);
    assert k[|ip|] == ':' && k[|other|] == ':';
    assert forall i :: |ip| < i < |k| ==> k[i] == a[i - |ip| - 1] && k[i] in a;
    assert forall i :: |other| < i < |k| ==> k[i] == b[i - |other| - 1] && k[i] in b;
    assert |ip| == |other|;
    assert k[..|ip|] == ip && k[..|other|] == other && k[|ip| + 1..] == a && k[|other| + 1..] == b;
  }

  /** Two devices have one key exactly when they have one fingerprint, or none has and they have one
      endpoint. */
  lemma KeysDiffer(ip: string, port: int, fingerprint: string, ip2: string, port2: int, fingerprint2: string)
    ensures KeyOf(ip, port, fingerprint) == KeyOf(ip2, port2, fingerprint2)
       <==> fingerprint == fingerprint2 && (fingerprint == "" ==> ip == ip2 && port == port2)
  {
    hide EndpointKey;
    var k, k2 := KeyOf(ip, port, fingerprint), KeyOf(ip2, port2, fingerprint2);
    assert (BY_FINGERPRINT + fingerprint)[0] == 'f' && (BY_FINGERPRINT + fingerprint2)[0] == 'f';
    assert (BY_ENDPOINT + EndpointKey(ip, port))[0] == 'e' && (BY_ENDPOINT + EndpointKey(ip2, port2))[0] == 'e';
    if k == k2 {
      if fingerprint != "" && fingerprint2 != "" {
        assert k[|BY_FINGERPRINT|..] == fingerprint && k2[|BY_FINGERPRINT|..] == fingerprint2;
      } else if fingerprint == "" && fingerprint2 == "" {
        assert k[|BY_ENDPOINT|..] == EndpointKey(ip, port) && k2[|BY_ENDPOINT|..] == EndpointKey(ip2, port2);
        EndpointsDiffer(ip, port, ip2, port2);
      }
    }
  }

  // ---------- The list ----------

  function Index(devices: seq<DeviceEntry>, key: string): (r: Option<nat>)
    ensures r.Some? ==> r.value < |devices| && devices[r.value].key == key
    ensures r.Some? ==> forall j :: 0 <= j < r.value ==> devices[j].key != key
    ensures r.None? ==> forall e <- devices :: e.key != key
  {
    if devices == [] then None
    else if devices[0].key == key then Some(0)
    else match Index(devices[1..], key) case None => None case Some(i) => Some(i + 1)
  }

  function Get(devices: seq<DeviceEntry>, key: string): Option<DeviceEntry> {
    match Index(devices, key) case None => None case Some(i) => Some(devices[i])
  }

  datatype Op =
    | Upsert(device: Device, source: Source, now: int)
    | Remove(key: string)
    | MarkOffline(key: string)
    | MarkStale(now: int, maxAge: int)
    | Clear

  function Seen(entry: DeviceEntry, op: Op): DeviceEntry
    requires op.Upsert?
  {
    entry.(device := op.device, source := if op.source == Manual then Manual else entry.source, online := true, lastSeen := op.now)
  }

  function Without(devices: seq<DeviceEntry>, key: string): seq<DeviceEntry> {
    if devices == [] then []
    else if devices[0].key == key then Without(devices[1..], key)
    else [devices[0]] + Without(devices[1..], key)
  }

  predicate IsStale(e: DeviceEntry, now: int, maxAge: int) {
    e.source == Discovered && e.online && now - e.lastSeen > maxAge
  }

  function Aged(devices: seq<DeviceEntry>, now: int, maxAge: int): (r: seq<DeviceEntry>)
    ensures |r| == |devices|
  {
    seq(|devices|, i requires 0 <= i < |devices| =>
      if IsStale(devices[i], now, maxAge) then devices[i].(online := false) else devices[i])
  }

  function Apply(devices: seq<DeviceEntry>, op: Op): seq<DeviceEntry> {
    match op
    case Upsert(device, source, now) =>
      (match Index(devices, DeviceKey(device))
       case None => devices + [DeviceEntry(DeviceKey(device), device, source, true, now, now)]
       case Some(i) => devices[i := Seen(devices[i], op)])
    case Remove(key) => Without(devices, key)
    case MarkOffline(key) =>
      (match Index(devices, key)
       case None => devices
       case Some(i) => devices[i := devices[i].(online := false)])
    case MarkStale(now, maxAge) => Aged(devices, now, maxAge)
    case Clear => []
  }

  function Run(devices: seq<DeviceEntry>, ops: seq<Op>): seq<DeviceEntry>
    decreases |ops|
  {
    if ops == [] then devices else Run(Apply(devices, ops[0]), ops[1..])
  }

  // ---------- What every run keeps ----------

  /** Keys are pairwise distinct and are those of the stored devices. */
  ghost predicate Keyed(devices: seq<DeviceEntry>) {
    && (forall i, j :: 0 <= i < j < |devices| ==> devices[i].key != devices[j].key)
    && (forall e <- devices :: e.key == DeviceKey(e.device))
  }

  lemma {:induction false} WithoutHas(devices: seq<DeviceEntry>, key: string)
    ensures forall e :: e in Without(devices, key) <==> e in devices && e.key != key
  {
    if devices != [] {
      WithoutHas(devices[1..], key);
      assert forall e :: e in devices <==> e == devices[0] || e in devices[1..];
    }
  }

  lemma {:induction false} WithoutIs(devices: seq<DeviceEntry>, key: string)
    requires Keyed(devices)
    ensures Keyed(Without(devices, key))
    ensures forall e :: e in Without(devices, key) <==> e in devices && e.key != key
  {
    hide DeviceKey;
    WithoutHas(devices, key);
    if devices != [] {
      var more, r := Without(devices[1..], key), Without(devices, key);
      assert forall e <- devices[1..] :: e in devices;
      WithoutIs(devices[1..], key);
      forall e <- more ensures e.key != devices[0].key {
        var j :| 0 <= j < |devices[1..]| && devices[1..][j] == e;
        assert devices[j + 1] == e;
      }
      assert r == more || r == [devices[0]] + more;
      forall i, j | 0 <= i < j < |r| ensures r[i].key != r[j].key {
        assert r == [devices[0]] + more ==> r[j] == more[j - 1];
        assert r[j] in more || r == more;
      }
    }
  }

  lemma ApplyKeepsKeyed(devices: seq<DeviceEntry>, op: Op)
    requires Keyed(devices)
    ensures Keyed(Apply(devices, op))
  {
    hide DeviceKey;
    match op
    case Upsert(device, _, _) =>
      var i := Index(devices, DeviceKey(device));
      if i.Some? {
        assert devices[i.value] in devices;
        assert forall e <- Apply(devices, op) :: e in devices || e == Seen(devices[i.value], op);
      }
    case Remove(key) => WithoutIs(devices, key);
    case MarkOffline(key) =>
      var i := Index(devices, key);
      if i.Some? {
        assert devices[i.value] in devices;
        assert forall e <- Apply(devices, op) :: e in devices || e == devices[i.value].(online := false);
      }
    case MarkStale(now, maxAge) =>
      var r := Aged(devices, now, maxAge);
      forall e <- r ensures e.key == DeviceKey(e.device) {
        var i :| 0 <= i < |r| && r[i] == e;
        assert devices[i] in devices;
      }
    case Clear =>
  }

  lemma GetIs(devices: seq<DeviceEntry>, e: DeviceEntry)
    requires Keyed(devices)
    ensures Get(devices, e.key) == Some(e) <==> e in devices
  {
    hide DeviceKey;
    if e in devices {
      var i :| 0 <= i < |devices| && devices[i] == e;
    }
  }

  lemma GetNone(devices: seq<DeviceEntry>, key: string)
    ensures Get(devices, key).None? <==> forall e <- devices :: e.key != key
    ensures Get(devices, key).Some? ==> Get(devices, key).value in devices && Get(devices, key).value.key == key
  {
  }

  /** What an operation makes of the entry under a key. */
  function EntryAfter(e: Option<DeviceEntry>, op: Op, key: string): Option<DeviceEntry> {
    match op
    case Upsert(device, source, now) =>
      if DeviceKey(device) != key then e
      else if e.None? then Some(DeviceEntry(key, device, source, true, now, now))
      else
        var manual := source == Manual || e.value.source == Manual;
        Some(DeviceEntry(e.value.key, device, if manual then Manual else Discovered, true, e.value.firstSeen, now))
    case Remove(k) => if k == key then None else e
    case MarkOffline(k) => if k == key && e.Some? then Some(e.value.(online := false)) else e
    case MarkStale(now, maxAge) =>
      if e.Some? && e.value.source == Discovered && now - e.value.lastSeen > maxAge
      then Some(e.value.(online := false)) else e
    case Clear => None
  }

  /** The list behaves as a map from keys to entries. */
  lemma ApplyAt(devices: seq<DeviceEntry>, op: Op, key: string)
    requires Keyed(devices)
    ensures Get(Apply(devices, op), key) == EntryAfter(Get(devices, key), op, key)
  {
    hide DeviceKey, Index, Without, IsStale;
    var t := Apply(devices, op);
    ApplyKeepsKeyed(devices, op);
    GetNone(devices, key);
    GetNone(t, key);
    match op {
      case Upsert(device, source, now) =>
        var k := DeviceKey(device);
        GetNone(devices, k);
        UpsertedIs(devices, op);
        if k == key { GetIs(t, EntryAfter(Get(devices, key), op, key).value); }
        else if Get(devices, key).Some? { GetIs(t, Get(devices, key).value); }
      case Remove(k) =>
        WithoutIs(devices, k);
        if Get(devices, key).Some? { GetIs(t, Get(devices, key).value); }
      case MarkOffline(k) => OfflineAt(devices, k, key);
      case MarkStale(now, maxAge) => StaleAt(devices, now, maxAge, key);
      case Clear =>
    }
  }

  lemma UpsertedIs(devices: seq<DeviceEntry>, op: Op)
    requires Keyed(devices) && op.Upsert?
    ensures var k := DeviceKey(op.device);
            var put := EntryAfter(Get(devices, k), op, k).value;
            forall e :: e in Apply(devices, op) <==> (e in devices && e.key != k) || e == put
  {
    hide DeviceKey;
    var k, t := DeviceKey(op.device), Apply(devices, op);
    var i := Index(devices, k);
    if i.Some? {
      assert t[i.value] in t;
      forall e | e in devices && e.key != k ensures e in t {
        var j :| 0 <= j < |devices| && devices[j] == e;
        assert t[j] == e;
      }
    }
  }

  lemma OfflineAt(devices: seq<DeviceEntry>, k: string, key: string)
    requires Keyed(devices) && Keyed(Apply(devices, MarkOffline(k)))
    ensures Get(Apply(devices, MarkOffline(k)), key) == EntryAfter(Get(devices, key), MarkOffline(k), key)
  {
    hide DeviceKey;
    var t := Apply(devices, MarkOffline(k));
    SameKeysSameIndex(devices, t, key);
    SameKeysSameIndex(devices, devices, k);
  }

  lemma StaleAt(devices: seq<DeviceEntry>, now: int, maxAge: int, key: string)
    ensures Get(Aged(devices, now, maxAge), key) == EntryAfter(Get(devices, key), MarkStale(now, maxAge), key)
  {
    SameKeysSameIndex(devices, Aged(devices, now, maxAge), key);
  }

  lemma {:induction false} SameKeysSameIndex(devices: seq<DeviceEntry>, other: seq<DeviceEntry>, key: string)
    requires |devices| == |other| && forall i :: 0 <= i < |devices| ==> devices[i].key == other[i].key
    ensures Index(devices, key) == Index(other, key)
  {
    if devices != [] { SameKeysSameIndex(devices[1..], other[1..], key); }
  }

  lemma {:induction false} RunKeepsKeyed(devices: seq<DeviceEntry>, ops: seq<Op>)
    requires Keyed(devices)
    ensures Keyed(Run(devices, ops))
    decreases |ops|
  {
    if ops != [] {
      ApplyKeepsKeyed(devices, ops[0]);
      RunKeepsKeyed(Apply(devices, ops[0]), ops[1..]);
    }
  }

  /** An entry added by hand stays one until it is removed or everything is cleared: being seen by
      discovery does not demote it, and no age puts it offline. */
  lemma {:induction false} ManualStays(devices: seq<DeviceEntry>, ops: seq<Op>, key: string)
    requires Keyed(devices) && Get(devices, key).Some? && Get(devices, key).value.source == Manual
    requires forall op <- ops :: op != Remove(key) && op != Clear
    ensures var e := Get(Run(devices, ops), key); e.Some? && e.value.source == Manual
    ensures (forall op <- ops :: op != MarkOffline(key)) && Get(devices, key).value.online
            ==> Get(Run(devices, ops), key).value.online
    decreases |ops|
  {
    hide Apply, Get, Keyed, DeviceKey;
    if ops != [] {
      assert ops[0] in ops && forall op <- ops[1..] :: op in ops;
      ApplyAt(devices, ops[0], key);
      ApplyKeepsKeyed(devices, ops[0]);
      ManualStays(Apply(devices, ops[0]), ops[1..], key);
    }
  }

  // ---------- The view ----------

  /** The comparison of the sort. */
  predicate Before(a: DeviceEntry, b: DeviceEntry) {
    if a.source != b.source then a.source == Manual
    else if a.online != b.online then a.online
    else false
  }

  /** Manual devices come before discovered ones, and among each the ones online first. */
  function Rank(e: DeviceEntry): nat {
    (if e.source == Manual then 0 else 2) + (if e.online then 0 else 1)
  }

  lemma RanksDecide(a: DeviceEntry, b: DeviceEntry)
    ensures Before(a, b) <==> Rank(a) < Rank(b)
  {
  }

  predicate Alike(a: DeviceEntry, b: DeviceEntry) {
    a.source == b.source && a.online == b.online
  }

  function Only(devices: seq<DeviceEntry>, source: Source, online: bool): seq<DeviceEntry> {
    if devices == [] then []
    else if devices[0].source == source && devices[0].online == online then [devices[0]] + Only(devices[1..], source, online)
    else Only(devices[1..], source, online)
  }

  /** `std::stable_sort` with that comparison. */
  function Sorted(devices: seq<DeviceEntry>): seq<DeviceEntry> {
    Only(devices, Manual, true) + Only(devices, Manual, false) + Only(devices, Discovered, true) + Only(devices, Discovered, false)
  }

  ghost predicate InOrder(devices: seq<DeviceEntry>) {
    forall i, j :: 0 <= i < j < |devices| ==> !Before(devices[j], devices[i])
  }

  /** Entries the comparison does not tell apart keep their order. */
  ghost predicate KeepsOrder(devices: seq<DeviceEntry>, view: seq<DeviceEntry>) {
    forall source, online :: Only(view, source, online) == Only(devices, source, online)
  }

  lemma {:induction false} OnlyIs(devices: seq<DeviceEntry>, source: Source, online: bool)
    ensures forall e :: e in Only(devices, source, online) <==> e in devices && e.source == source && e.online == online
  {
    if devices != [] { OnlyIs(devices[1..], source, online); }
  }

  lemma {:induction false} OnlyOfConcat(a: seq<DeviceEntry>, b: seq<DeviceEntry>, source: Source, online: bool)
    ensures Only(a + b, source, online) == Only(a, source, online) + Only(b, source, online)
  {
    if a == [] {
      assert a + b == b;
    } else {
      assert (a + b)[1..] == a[1..] + b;
      OnlyOfConcat(a[1..], b, source, online);
    }
  }

  lemma {:induction false} OnlyOfOnly(devices: seq<DeviceEntry>, s: Source, o: bool, source: Source, online: bool)
    ensures Only(Only(devices, s, o), source, online)
         == if s == source && o == online then Only(devices, source, online) else []
  {
    if devices != [] {
      OnlyOfOnly(devices[1..], s, o, source, online);
      var rest := Only(devices[1..], s, o);
      assert ([devices[0]] + rest)[1..] == rest;
    }
  }

  lemma SortedKeepsOrder(devices: seq<DeviceEntry>)
    ensures KeepsOrder(devices, Sorted(devices))
  {
    hide Only;
    forall source, online ensures Only(Sorted(devices), source, online) == Only(devices, source, online) {
      var a, b := Only(devices, Manual, true), Only(devices, Manual, false);
      var c, d := Only(devices, Discovered, true), Only(devices, Discovered, false);
      OnlyOfConcat(a + b + c, d, source, online);
      OnlyOfConcat(a + b, c, source, online);
      OnlyOfConcat(a, b, source, online);
      OnlyOfOnly(devices, Manual, true, source, online);
      OnlyOfOnly(devices, Manual, false, source, online);
      OnlyOfOnly(devices, Discovered, true, source, online);
      OnlyOfOnly(devices, Discovered, false, source, online);
    }
  }

  lemma SortedIsInOrder(devices: seq<DeviceEntry>)
    ensures InOrder(Sorted(devices))
  {
    hide Only;
    OnlyIs(devices, Manual, true);
    OnlyIs(devices, Manual, false);
    OnlyIs(devices, Discovered, true);
    OnlyIs(devices, Discovered, false);
    var a, b := Only(devices, Manual, true), Only(devices, Manual, false);
    var c, d := Only(devices, Discovered, true), Only(devices, Discovered, false);
    InOrderJoin(a, b);
    InOrderJoin(a + b, c);
    InOrderJoin(a + b + c, d);
  }

  lemma InOrderJoin(a: seq<DeviceEntry>, b: seq<DeviceEntry>)
    requires InOrder(a) && (forall x <- b, y <- b :: Alike(x, y)) && forall x <- a, y <- b :: !Before(y, x)
    ensures InOrder(a + b)
  {
    hide Before;
    var t := a + b;
    forall i, j | 0 <= i < j < |t| ensures !Before(t[j], t[i]) {
      if j < |a| {
        assert t[i] == a[i] && t[j] == a[j];
      } else if i < |a| {
        assert t[i] in a && t[j] in b;
      } else {
        assert t[i] in b && t[j] in b;
        AlikeIsUnordered(t[j], t[i]);
      }
    }
  }

  lemma AlikeIsUnordered(a: DeviceEntry, b: DeviceEntry)
    requires Alike(a, b)
    ensures !Before(a, b)
  {
  }

  lemma {:induction false} SortedIsPermutation(devices: seq<DeviceEntry>)
    ensures multiset(Sorted(devices)) == multiset(devices)
  {
    if devices == [] {
    } else {
      SortedIsPermutation(devices[1..]);
      assert devices == [devices[0]] + devices[1..];
    }
  }

  lemma {:induction false} OrderedIsSorted(view: seq<DeviceEntry>)
    requires InOrder(view)
    ensures Sorted(view) == view
  {
    hide Before, Only, Sorted;
    if view == [] {
      NothingIsSorted();
    } else {
      var h, rest := view[0], view[1..];
      OrderedIsSorted(rest);
      forall e <- rest ensures !Before(e, h) {
        var j :| 0 <= j < |rest| && rest[j] == e;
        assert view[j + 1] == e;
      }
      AddedInFront(h, rest);
      assert view == [h] + rest;
    }
  }

  lemma NothingIsSorted()
    ensures Sorted([]) == []
  {
  }

  lemma AddedInFront(h: DeviceEntry, rest: seq<DeviceEntry>)
    requires forall e <- rest :: !Before(e, h)
    ensures Sorted([h] + rest) == [h] + Sorted(rest)
  {
    hide Only;
    OnlyWithFront(h, rest, Manual, true);
    OnlyWithFront(h, rest, Manual, false);
    OnlyWithFront(h, rest, Discovered, true);
    OnlyWithFront(h, rest, Discovered, false);
    LowerIsEmpty(h, rest, Manual, true);
    LowerIsEmpty(h, rest, Manual, false);
    LowerIsEmpty(h, rest, Discovered, true);
  }

  lemma OnlyWithFront(h: DeviceEntry, rest: seq<DeviceEntry>, source: Source, online: bool)
    ensures Only([h] + rest, source, online)
         == (if h.source == source && h.online == online then [h] else []) + Only(rest, source, online)
  {
    assert ([h] + rest)[1..] == rest;
  }

  lemma LowerIsEmpty(h: DeviceEntry, rest: seq<DeviceEntry>, source: Source, online: bool)
    requires forall e <- rest :: !Before(e, h)
    ensures Before(h.(source := source, online := online), h) ==> Only(rest, source, online) == []
  {
    OnlyIs(rest, source, online);
    var r := Only(rest, source, online);
    assert r != [] ==> r[0] in r;
    assert forall e <- r :: e in rest && !Before(e, h);
  }

  /** The view is the one list with the same entries, in the order of the comparison, in which
      entries it does not tell apart keep their order. */
  lemma SortedIsTheStableSort(devices: seq<DeviceEntry>, view: seq<DeviceEntry>)
    ensures multiset(Sorted(devices)) == multiset(devices)
    ensures view == Sorted(devices) <==> InOrder(view) && KeepsOrder(devices, view)
  {
    hide Only, InOrder;
    SortedIsPermutation(devices);
    SortedIsInOrder(devices);
    SortedKeepsOrder(devices);
    if InOrder(view) && KeepsOrder(devices, view) { OrderedIsSorted(view); }
  }

  // ---------- The store of the program ----------

  class DeviceStore {
    var devices: seq<DeviceEntry>

    constructor ()
      ensures devices == []
    {
      devices := [];
    }

    method UpsertDevice(device: Device, source: Source, now: int) returns (key: string)
      modifies this
      ensures key == DeviceKey(device) && devices == Apply(old(devices), Upsert(device, source, now))
    {
      key := DeviceKey(device);
      var existing := Index(devices, key);
      if existing.Some? {
        var entry := devices[existing.value].(device := device);
        if source == Manual { entry := entry.(source := Manual); }
        entry := entry.(online := true, lastSeen := now);
        devices := devices[existing.value := entry];
        return;
      }
      devices := devices + [DeviceEntry(key, device, source, true, now, now)];
    }

    method Remove(key: string) returns (removed: bool)
      modifies this
      ensures devices == Apply(old(devices), Op.Remove(key))
      ensures removed == Get(old(devices), key).Some?
    {
      var size := |devices|;
      WithoutShrinks(devices, key);
      devices := Without(devices, key);
      removed := |devices| != size;
    }

    method MarkOffline(key: string) returns (found: bool)
      modifies this
      ensures devices == Apply(old(devices), Op.MarkOffline(key)) && found == Get(old(devices), key).Some?
    {
      var at := Index(devices, key);
      if at.None? { return false; }
      devices := devices[at.value := devices[at.value].(online := false)];
      found := true;
    }

    /** The entries marked are those discovered, online and older than `maxAge`; `changed` counts them. */
    method MarkStaleOffline(now: int, maxAge: int) returns (changed: nat)
      modifies this
      ensures devices == Apply(old(devices), MarkStale(now, maxAge))
      ensures changed == |Stale(old(devices), now, maxAge)|
    {
      hide IsStale, Stale, Aged;
      StaleStep(devices, |devices|, now, maxAge);
      changed := 0;
      ghost var was, aged := devices, Aged(devices, now, maxAge);
      for i := 0 to |devices|
        invariant devices == aged[..i] + was[i..]
        invariant changed + |Stale(was[i..], now, maxAge)| == |Stale(was, now, maxAge)|
      {
        StaleStep(was, i, now, maxAge);
        Overwritten(aged, was, i);
        if IsStale(devices[i], now, maxAge) {
          devices := devices[i := devices[i].(online := false)];
          changed := changed + 1;
        }
      }
    }

    method GetEntry(key: string) returns (entry: Option<DeviceEntry>)
      ensures entry == Get(devices, key)
    {
      var at := Index(devices, key);
      entry := if at.None? then None else Some(devices[at.value]);
    }

    method Snapshot() returns (snapshot: seq<DeviceEntry>)
      ensures multiset(snapshot) == multiset(devices) && InOrder(snapshot) && KeepsOrder(devices, snapshot)
    {
      hide Sorted, InOrder, KeepsOrder;
      snapshot := Sorted(devices);
      SortedIsTheStableSort(devices, snapshot);
    }

    method ClearAll()
      modifies this
      ensures devices == Apply(old(devices), Clear)
    {
      devices := [];
    }
  }

  function Stale(devices: seq<DeviceEntry>, now: int, maxAge: int): seq<DeviceEntry> {
    if devices == [] then []
    else (if IsStale(devices[0], now, maxAge) then [devices[0]] else []) + Stale(devices[1..], now, maxAge)
  }

  lemma StaleStep(devices: seq<DeviceEntry>, i: nat, now: int, maxAge: int)
    requires i <= |devices|
    ensures devices[0..] == devices && |Stale(devices[|devices|..], now, maxAge)| == 0
    ensures i < |devices| ==>
      var e := devices[i];
      && |Stale(devices[i..], now, maxAge)|
         == |Stale(devices[i + 1..], now, maxAge)| + (if IsStale(e, now, maxAge) then 1 else 0)
      && Aged(devices, now, maxAge)[i] == if IsStale(e, now, maxAge) then e.(online := false) else e
  {
    if i < |devices| { assert devices[i..][1..] == devices[i + 1..]; }
  }

  lemma {:induction false} WithoutShrinks(devices: seq<DeviceEntry>, key: string)
    ensures |Without(devices, key)| <= |devices|
    ensures |Without(devices, key)| == |devices| <==> Get(devices, key).None?
  {
    if devices != [] { WithoutShrinks(devices[1..], key); }
  }
}
