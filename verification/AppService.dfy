/** The devices the user added by hand: the list kept in the configuration and the entries of the
    device store that must agree with it. */
module AppService {
  import opened Text
  import opened Numerals
  import opened Protocol
  import opened Devices

  datatype ManualDevice = ManualDevice(ip: string, port: int, https: bool, alias: string, fingerprint: string)

  predicate SameManualDevice(a: ManualDevice, b: ManualDevice) {
    if a.fingerprint != "" && b.fingerprint != "" then a.fingerprint == b.fingerprint
    else a.ip == b.ip && a.port == b.port
  }

  function DeviceFromManual(m: ManualDevice): Device {
    Device(m.ip, "2.1", m.port, m.https, m.fingerprint, m.alias, "", Desktop, false)
  }

  function ManualFromDevice(d: Device): ManualDevice {
    ManualDevice(d.ip, d.port, d.https, d.alias, d.fingerprint)
  }

  function ManualKey(m: ManualDevice): string {
    KeyOf(m.ip, m.port, m.fingerprint)
  }

  // ---------- The operations on values ----------

  datatype State = State(config: seq<ManualDevice>, devices: seq<DeviceEntry>)

  datatype Event =
    | Add(manual: ManualDevice, now: int)
    | Forget(key: string)
    | Discover(device: Device, now: int)
    | GoStale(now: int, maxAge: int)
    | GoOffline(key: string)

  /** The first configured device that counts as the same. */
  function Match(config: seq<ManualDevice>, m: ManualDevice): (r: Option<nat>)
    ensures r.Some? ==> r.value < |config| && SameManualDevice(config[r.value], m)
    ensures r.None? ==> forall c <- config :: !SameManualDevice(c, m)
  {
    if config == [] then None
    else if SameManualDevice(config[0], m) then Some(0)
    else match Match(config[1..], m) case None => None case Some(i) => Some(i + 1)
  }

  function Others(config: seq<ManualDevice>, m: ManualDevice): (r: seq<ManualDevice>)
    ensures |r| <= |config|
  {
    if config == [] then []
    else if SameManualDevice(config[0], m) then Others(config[1..], m)
    else [config[0]] + Others(config[1..], m)
  }

  /** The key whose entry an added device takes the place of, if that is not its own. */
  function Replaced(config: seq<ManualDevice>, m: ManualDevice): Option<string> {
    match Match(config, m)
    case None => None
    case Some(i) => if ManualKey(config[i]) == ManualKey(m) then None else Some(ManualKey(config[i]))
  }

  function Step(s: State, e: Event): State {
    match e
    case Add(m, now) =>
      var config := match Match(s.config, m) case None => s.config + [m] case Some(i) => s.config[i := m];
      var devices := match Replaced(s.config, m) case None => s.devices case Some(k) => Without(s.devices, k);
      State(config, Devices.Apply(devices, Upsert(DeviceFromManual(m), Manual, now)))
    case Forget(key) =>
      (match Get(s.devices, key)
       case None => s
       case Some(entry) =>
         var rest := Others(s.config, ManualFromDevice(entry.device));
         if entry.source != Manual || |rest| == |s.config| then s else State(rest, Without(s.devices, key)))
    case Discover(device, now) => s.(devices := Devices.Apply(s.devices, Upsert(device, Discovered, now)))
    case GoStale(now, maxAge) => s.(devices := Aged(s.devices, now, maxAge))
    case GoOffline(key) => s.(devices := Devices.Apply(s.devices, MarkOffline(key)))
  }

  function Run(s: State, events: seq<Event>): State
    decreases |events|
  {
    if events == [] then s else Run(Step(s, events[0]), events[1..])
  }

  /** The store after loading the configured devices, in order. */
  function Loaded(config: seq<ManualDevice>, now: int): seq<DeviceEntry> {
    if config == [] then []
    else Devices.Apply(Loaded(config[..|config| - 1], now), Upsert(DeviceFromManual(config[|config| - 1]), Manual, now))
  }

  // ---------- Agreement ----------

  ghost predicate DistinctKeys(config: seq<ManualDevice>) {
    forall i, j :: 0 <= i < j < |config| ==> ManualKey(config[i]) != ManualKey(config[j])
  }

  predicate HasKey(config: seq<ManualDevice>, key: string) {
    exists c <- config :: ManualKey(c) == key
  }

  predicate IsManual(devices: seq<DeviceEntry>, key: string) {
    var e := Get(devices, key);
    e.Some? && e.value.source == Manual
  }

  /** The keys of the configured devices are distinct, and are those of the manual entries. */
  ghost predicate InStep(s: State) {
    && Keyed(s.devices) && DistinctKeys(s.config)
    && forall key :: HasKey(s.config, key) <==> IsManual(s.devices, key)
  }

  /** Devices that count as the same have one key, unless one has a fingerprint and the other not. */
  lemma SameIsSameKey(a: ManualDevice, b: ManualDevice)
    ensures ManualKey(a) == ManualKey(b) ==> SameManualDevice(a, b)
    ensures (a.fingerprint == "" <==> b.fingerprint == "") ==> (SameManualDevice(a, b) <==> ManualKey(a) == ManualKey(b))
  {
    hide KeyOf;
    KeysDiffer(a.ip, a.port, a.fingerprint, b.ip, b.port, b.fingerprint);
  }

  // ---------- Adding ----------

  /** The manual entries after an addition. */
  lemma AddedEntries(s: State, m: ManualDevice, now: int)
    requires Keyed(s.devices)
    ensures var t := Step(s, Add(m, now));
            Keyed(t.devices)
            && forall key :: IsManual(t.devices, key)
                 <==> key == ManualKey(m) || (IsManual(s.devices, key) && Replaced(s.config, m) != Some(key))
  {
    hide KeyOf, Devices.Apply, Keyed, Get, Match;
    var gone := Replaced(s.config, m);
    var left := match gone case None => s.devices case Some(k) => Without(s.devices, k);
    RemovedIs(s.devices, gone);
    var op := Upsert(DeviceFromManual(m), Manual, now);
    ApplyKeepsKeyed(left, op);
    forall key
      ensures IsManual(Devices.Apply(left, op), key) <==> key == ManualKey(m) || (IsManual(s.devices, key) && gone != Some(key))
    {
      ApplyAt(left, op, key);
    }
  }

  lemma RemovedIs(devices: seq<DeviceEntry>, gone: Option<string>)
    requires Keyed(devices)
    ensures var left := match gone case None => devices case Some(k) => Without(devices, k);
            Keyed(left) && forall key :: Get(left, key) == if gone == Some(key) then None else Get(devices, key)
  {
    hide Keyed, Get;
    if gone.Some? {
      WithoutIs(devices, gone.value);
      forall key ensures Get(Without(devices, gone.value), key) == if gone == Some(key) then None else Get(devices, key) {
        ApplyAt(devices, Remove(gone.value), key);
      }
    }
  }

  lemma HasKeyOfMore(config: seq<ManualDevice>, m: ManualDevice)
    ensures forall key :: HasKey(config + [m], key) <==> key == ManualKey(m) || HasKey(config, key)
  {
    hide KeyOf;
    assert (config + [m])[|config|] == m;
    assert forall c :: c in config + [m] <==> c in config || c == m;
  }

  lemma AppendedKeys(config: seq<ManualDevice>, m: ManualDevice)
    requires DistinctKeys(config) && forall c <- config :: ManualKey(c) != ManualKey(m)
    ensures DistinctKeys(config + [m])
    ensures forall key :: HasKey(config + [m], key) <==> key == ManualKey(m) || HasKey(config, key)
  {
    hide KeyOf;
    var more := config + [m];
    forall i, j | 0 <= i < j < |more| ensures ManualKey(more[i]) != ManualKey(more[j]) {
      assert more[i] in config;
    }
    HasKeyOfMore(config, m);
  }

  lemma ReplacedKeys(config: seq<ManualDevice>, i: nat, m: ManualDevice)
    requires DistinctKeys(config) && i < |config|
    ensures DistinctKeys(config[i := m])
       <==> forall j :: 0 <= j < |config| && j != i ==> ManualKey(config[j]) != ManualKey(m)
    ensures forall key :: HasKey(config[i := m], key)
                          <==> key == ManualKey(m) || (HasKey(config, key) && key != ManualKey(config[i]))
  {
    hide KeyOf;
    var more := config[i := m];
    assert more[i] == m && forall j :: 0 <= j < |config| && j != i ==> more[j] == config[j];
    forall key ensures HasKey(more, key) <==> key == ManualKey(m) || (HasKey(config, key) && key != ManualKey(config[i])) {
      if HasKey(more, key) && key != ManualKey(m) {
        var j :| 0 <= j < |more| && ManualKey(more[j]) == key;
        assert config[j] in config;
      }
      if HasKey(config, key) && key != ManualKey(config[i]) {
        var j :| 0 <= j < |config| && ManualKey(config[j]) == key;
        assert more[j] in more;
      }
      assert m in more;
    }
    if j :| 0 <= j < |config| && j != i && ManualKey(config[j]) == ManualKey(m) {
      assert more[j] == config[j];
    }
  }

  /** When the configuration and the store agree, adding a device keeps them in step exactly when no
      configured device but the one replaced has its key. */
  lemma AddKeepsInStep(s: State, m: ManualDevice, now: int)
    requires InStep(s)
    ensures InStep(Step(s, Add(m, now))) <==>
            var i := Match(s.config, m);
            forall j :: 0 <= j < |s.config| && Some(j) != i ==> ManualKey(s.config[j]) != ManualKey(m)
  {
    hide KeyOf, Devices.Apply, Without, Keyed, Get;
    var t, i, k := Step(s, Add(m, now)), Match(s.config, m), ManualKey(m);
    AddedEntries(s, m, now);
    if i.None? {
      forall j | 0 <= j < |s.config| ensures ManualKey(s.config[j]) != k {
        assert s.config[j] in s.config;
        SameIsSameKey(s.config[j], m);
      }
      AppendedKeys(s.config, m);
    } else {
      ReplacedKeys(s.config, i.value, m);
      assert s.config[i.value] in s.config;
      assert t.config == s.config[i.value := m];
      var was := ManualKey(s.config[i.value]);
      assert Replaced(s.config, m) == if was == k then None else Some(was);
      forall key ensures HasKey(t.config, key) <==> IsManual(t.devices, key) {
        assert HasKey(s.config, key) <==> IsManual(s.devices, key);
      }
    }
  }

  /** The added device is configured and listed with its own data, online and as manual; a device it
      does not replace stays configured. */
  lemma AddedIsListed(s: State, m: ManualDevice, now: int)
    requires Keyed(s.devices)
    ensures var t := Step(s, Add(m, now));
            var e := Get(t.devices, ManualKey(m));
            && m in t.config && (forall c <- s.config :: c in t.config || SameManualDevice(c, m))
            && e.Some? && e.value.source == Manual && e.value.online && e.value.lastSeen == now
            && e.value.device == Device(m.ip, "2.1", m.port, m.https, m.fingerprint, m.alias, "", Desktop, false)
            && ManualFromDevice(e.value.device) == m
  {
    hide KeyOf, Devices.Apply, Keyed, Get, Match, SameManualDevice;
    var t, gone, i := Step(s, Add(m, now)), Replaced(s.config, m), Match(s.config, m);
    var left := match gone case None => s.devices case Some(k) => Without(s.devices, k);
    RemovedIs(s.devices, gone);
    ApplyAt(left, Upsert(DeviceFromManual(m), Manual, now), ManualKey(m));
    if i.Some? { assert t.config[i.value] == m; }
    forall c <- s.config ensures c in t.config || SameManualDevice(c, m) {
      var j :| 0 <= j < |s.config| && s.config[j] == c;
      if i != Some(j) { assert t.config[j] == c; }
    }
  }

  // ---------- Removing ----------

  lemma {:induction false} OthersAre(config: seq<ManualDevice>, m: ManualDevice)
    ensures forall c :: c in Others(config, m) <==> c in config && !SameManualDevice(c, m)
    ensures |Others(config, m)| == |config| <==> forall c <- config :: !SameManualDevice(c, m)
  {
    hide SameManualDevice;
    if config != [] {
      OthersAre(config[1..], m);
      assert forall c :: c in config <==> c == config[0] || c in config[1..];
    }
  }

  lemma {:induction false} OthersStayDistinct(config: seq<ManualDevice>, m: ManualDevice)
    requires DistinctKeys(config)
    ensures DistinctKeys(Others(config, m))
  {
    hide DistinctKeys, ManualKey, SameManualDevice;
    if config == [] {
      NoneAreDistinct();
    } else {
      var more := Others(config[1..], m);
      DistinctInTail(config);
      OthersStayDistinct(config[1..], m);
      OthersAre(config[1..], m);
      DistinctWithFront(config[0], more);
    }
  }

  lemma NoneAreDistinct()
    ensures DistinctKeys([])
  {
  }

  lemma DistinctInTail(config: seq<ManualDevice>)
    requires config != [] && DistinctKeys(config)
    ensures DistinctKeys(config[1..]) && forall c <- config[1..] :: ManualKey(c) != ManualKey(config[0])
  {
    hide ManualKey;
    assert forall i :: 0 <= i < |config[1..]| ==> config[1..][i] == config[i + 1];
  }

  lemma DistinctWithFront(c: ManualDevice, more: seq<ManualDevice>)
    requires DistinctKeys(more)
    ensures (forall d <- more :: ManualKey(d) != ManualKey(c)) ==> DistinctKeys([c] + more)
  {
    hide ManualKey;
    var r := [c] + more;
    assert forall i :: 0 < i < |r| ==> r[i] == more[i - 1] && r[i] in more;
  }

  /** Removing a manual entry keeps configuration and store in step exactly when every configured
      device that counts as the same has its key. */
  lemma ForgetKeepsInStep(s: State, key: string)
    requires InStep(s) && IsManual(s.devices, key)
    ensures var m := ManualFromDevice(Get(s.devices, key).value.device);
            ManualKey(m) == key
            && (InStep(Step(s, Forget(key))) <==> forall c <- s.config :: SameManualDevice(c, m) ==> ManualKey(c) == key)
  {
    hide KeyOf, Get, Keyed, SameManualDevice, Others;
    var m := ManualFromDevice(Get(s.devices, key).value.device);
    EntryHasKey(s.devices, key);
    assert HasKey(s.config, key);
    var c :| c in s.config && ManualKey(c) == key;
    SameIsSameKey(c, m);
    OthersAre(s.config, m);
    OthersStayDistinct(s.config, m);
    RemovedIs(s.devices, Some(key));
    var t := Step(s, Forget(key));
    assert t == State(Others(s.config, m), Without(s.devices, key));
    KeysLeft(s.config, m, key);
    if x :| x in s.config && SameManualDevice(x, m) && ManualKey(x) != key {
      assert HasKey(s.config, ManualKey(x)) && IsManual(t.devices, ManualKey(x));
    }
  }

  lemma EntryHasKey(devices: seq<DeviceEntry>, key: string)
    requires Keyed(devices) && IsManual(devices, key)
    ensures ManualKey(ManualFromDevice(Get(devices, key).value.device)) == key
  {
    GetNone(devices, key);
  }

  lemma KeysLeft(config: seq<ManualDevice>, m: ManualDevice, key: string)
    requires DistinctKeys(config)
    ensures (forall c <- config :: SameManualDevice(c, m) <==> ManualKey(c) == key)
            ==> forall k :: HasKey(Others(config, m), k) <==> HasKey(config, k) && k != key
    ensures forall c <- config :: SameManualDevice(c, m) ==> !HasKey(Others(config, m), ManualKey(c))
  {
    hide KeyOf, SameManualDevice, Others;
    OthersAre(config, m);
    forall c <- config | SameManualDevice(c, m) ensures !HasKey(Others(config, m), ManualKey(c)) {
      if HasKey(Others(config, m), ManualKey(c)) {
        var d :| d in Others(config, m) && ManualKey(d) == ManualKey(c);
        OneDeviceForAKey(config, c, d);
      }
    }
  }

  lemma OneDeviceForAKey(config: seq<ManualDevice>, c: ManualDevice, d: ManualDevice)
    requires DistinctKeys(config) && c in config && d in config && ManualKey(c) == ManualKey(d)
    ensures c == d
  {
    hide KeyOf;
    var i :| 0 <= i < |config| && config[i] == c;
    var j :| 0 <= j < |config| && config[j] == d;
  }

  // ---------- Whole runs ----------

  /** Either all the devices carry a fingerprint or none does. */
  ghost predicate Uniform(config: seq<ManualDevice>, events: seq<Event>) {
    || ((forall c <- config :: c.fingerprint != "") && forall e <- events :: e.Add? ==> e.manual.fingerprint != "")
    || ((forall c <- config :: c.fingerprint == "") && forall e <- events :: e.Add? ==> e.manual.fingerprint == "")
  }

  /** Events other than adding and removing by hand leave the manual entries as they are. */
  lemma OtherEventsKeepInStep(s: State, e: Event)
    requires InStep(s) && !e.Add? && !e.Forget?
    ensures InStep(Step(s, e))
  {
    hide KeyOf, Get, Keyed, Devices.Apply, IsStale;
    var op := match e
      case Discover(device, now) => Upsert(device, Discovered, now)
      case GoStale(now, maxAge) => MarkStale(now, maxAge)
      case GoOffline(key) => MarkOffline(key);
    var t := Step(s, e);
    assert t.devices == Devices.Apply(s.devices, op) by { StaleIsApply(s.devices, op); }
    ApplyKeepsKeyed(s.devices, op);
    forall key ensures IsManual(t.devices, key) <==> IsManual(s.devices, key) {
      ApplyAt(s.devices, op, key);
    }
  }

  lemma StaleIsApply(devices: seq<DeviceEntry>, op: Op)
    ensures op.MarkStale? ==> Devices.Apply(devices, op) == Aged(devices, op.now, op.maxAge)
  {
  }

  lemma StepKeepsInStep(s: State, e: Event, rest: seq<Event>)
    requires InStep(s) && Uniform(s.config, [e] + rest)
    ensures InStep(Step(s, e)) && Uniform(Step(s, e).config, rest)
  {
    hide KeyOf, Get, Keyed, Devices.Apply, SameManualDevice, Others, InStep, Match;
    assert ([e] + rest)[0] == e && forall x <- rest :: x in [e] + rest;
    match e {
      case Add(m, now) =>
        AddKeepsInStep(s, m, now);
        UniformAdd(s, m);
        assert forall c <- Step(s, e).config :: c in s.config || c == m;
      case Forget(key) =>
        if IsManual(s.devices, key) {
          ForgetKeepsInStep(s, key);
          UniformForget(s, key);
          OthersAre(s.config, ManualFromDevice(Get(s.devices, key).value.device));
        }
      case _ => OtherEventsKeepInStep(s, e);
    }
  }

  lemma UniformAdd(s: State, m: ManualDevice)
    requires InStep(s) && forall c <- s.config :: (c.fingerprint == "" <==> m.fingerprint == "")
    ensures forall j :: 0 <= j < |s.config| && Some(j) != Match(s.config, m) ==> ManualKey(s.config[j]) != ManualKey(m)
  {
    hide KeyOf, Get, Keyed, SameManualDevice;
    var i := Match(s.config, m);
    forall j | 0 <= j < |s.config| && Some(j) != i ensures ManualKey(s.config[j]) != ManualKey(m) {
      assert s.config[j] in s.config;
      SameIsSameKey(s.config[j], m);
      if i.Some? {
        assert s.config[i.value] in s.config;
        SameIsSameKey(s.config[i.value], m);
      }
    }
  }

  lemma UniformForget(s: State, key: string)
    requires InStep(s) && IsManual(s.devices, key)
    requires (forall c <- s.config :: c.fingerprint == "") || forall c <- s.config :: c.fingerprint != ""
    ensures var m := ManualFromDevice(Get(s.devices, key).value.device);
            forall c <- s.config :: SameManualDevice(c, m) ==> ManualKey(c) == key
  {
    hide KeyOf, Get, Keyed, SameManualDevice;
    var m := ManualFromDevice(Get(s.devices, key).value.device);
    EntryHasKey(s.devices, key);
    assert HasKey(s.config, key);
    var d :| d in s.config && ManualKey(d) == key;
    KeysDiffer(d.ip, d.port, d.fingerprint, m.ip, m.port, m.fingerprint);
    forall c <- s.config | SameManualDevice(c, m) ensures ManualKey(c) == key { SameIsSameKey(c, m); }
  }

  /** If all the devices ever configured or added carry fingerprints, or none does, every run of
      additions, removals, discoveries and ageing keeps the configuration and the store in step. */
  lemma {:induction false} RunKeepsInStep(s: State, events: seq<Event>)
    requires InStep(s) && Uniform(s.config, events)
    ensures InStep(Run(s, events))
    decreases |events|
  {
    hide InStep, Uniform, Step;
    if events != [] {
      assert [events[0]] + events[1..] == events;
      StepKeepsInStep(s, events[0], events[1..]);
      RunKeepsInStep(Step(s, events[0]), events[1..]);
    }
  }

  /** What an event must meet to keep configuration and store in step; all of it can be looked up
      before the event. */
  predicate Fits(s: State, e: Event) {
    match e
    case Add(m, _) =>
      forall j :: 0 <= j < |s.config| && Some(j) != Match(s.config, m) ==> ManualKey(s.config[j]) != ManualKey(m)
    case Forget(key) =>
      IsManual(s.devices, key) ==>
        var m := ManualFromDevice(Get(s.devices, key).value.device);
        forall c <- s.config :: SameManualDevice(c, m) ==> ManualKey(c) == key
    case _ => true
  }

  lemma StepStaysInStep(s: State, e: Event)
    requires InStep(s)
    ensures InStep(Step(s, e)) <==> Fits(s, e)
  {
    hide KeyOf, Get, Keyed, Devices.Apply, SameManualDevice, Others, InStep, Match;
    match e {
      case Add(m, now) => AddKeepsInStep(s, m, now);
      case Forget(key) => if IsManual(s.devices, key) { ForgetKeepsInStep(s, key); }
      case _ => OtherEventsKeepInStep(s, e);
    }
  }

  /** Over every run: configuration and store are in step throughout exactly when each event fits. */
  lemma {:induction false} RunStaysInStep(s: State, events: seq<Event>)
    requires InStep(s)
    ensures (forall n :: 0 <= n <= |events| ==> InStep(Run(s, events[..n])))
       <==> (forall n :: 0 <= n < |events| ==> Fits(Run(s, events[..n]), events[n]))
    decreases |events|
  {
    hide InStep, Fits, Step;
    if events == [] {
      assert events[..0] == [];
    } else {
      var t, rest := Step(s, events[0]), events[1..];
      StepStaysInStep(s, events[0]);
      PrefixesOfRun(s, events);
      if !Fits(s, events[0]) {
        assert !InStep(Run(s, events[..1]));
        assert !Fits(Run(s, events[..0]), events[0]);
      } else {
        RunStaysInStep(t, rest);
        if forall n :: 0 <= n <= |rest| ==> InStep(Run(t, rest[..n])) {
          forall n | 0 <= n <= |events| ensures InStep(Run(s, events[..n])) {
            if n > 0 { assert InStep(Run(t, rest[..n - 1])); }
          }
          forall n | 0 <= n < |events| ensures Fits(Run(s, events[..n]), events[n]) {
            if n > 0 { assert Fits(Run(t, rest[..n - 1]), rest[n - 1]); }
          }
        } else {
          var n :| 0 <= n <= |rest| && !InStep(Run(t, rest[..n]));
          assert !InStep(Run(s, events[..n + 1]));
          var k :| 0 <= k < |rest| && !Fits(Run(t, rest[..k]), rest[k]);
          assert !Fits(Run(s, events[..k + 1]), events[k + 1]);
        }
      }
    }
  }

  lemma PrefixesOfRun(s: State, events: seq<Event>)
    requires events != []
    ensures Run(s, events[..0]) == s && Run(s, events[..1]) == Step(s, events[0])
    ensures forall n :: 0 < n <= |events| ==> Run(s, events[..n]) == Run(Step(s, events[0]), events[1..][..n - 1])
    ensures forall n :: 0 <= n <= |events[1..]| ==> Run(s, events[..n + 1]) == Run(Step(s, events[0]), events[1..][..n])
  {
    hide Step;
    assert events[..0] == [] && events[..1] == [events[0]] && [events[0]][1..] == [];
    forall n | 0 < n <= |events| ensures Run(s, events[..n]) == Run(Step(s, events[0]), events[1..][..n - 1]) {
      assert events[..n][0] == events[0] && events[..n][1..] == events[1..][..n - 1];
    }
    forall n | 0 <= n <= |events[1..]| ensures Run(s, events[..n + 1]) == Run(Step(s, events[0]), events[1..][..n]) {
      assert events[..n + 1][0] == events[0] && events[..n + 1][1..] == events[1..][..n];
    }
  }

  /** Loading starts in step exactly when the configured keys are distinct. */
  lemma {:induction false} LoadedIsInStep(config: seq<ManualDevice>, now: int)
    ensures InStep(State(config, Loaded(config, now))) <==> DistinctKeys(config)
    ensures Keyed(Loaded(config, now))
    ensures forall key :: HasKey(config, key) <==> IsManual(Loaded(config, now), key)
  {
    hide KeyOf, Keyed, Devices.Apply;
    if config == [] {
      NothingIsLoaded();
    } else {
      hide Get;
      var front, last := config[..|config| - 1], config[|config| - 1];
      LoadedIsInStep(front, now);
      var op := Upsert(DeviceFromManual(last), Manual, now);
      ApplyKeepsKeyed(Loaded(front, now), op);
      assert config == front + [last];
      HasKeyOfMore(front, last);
      forall key ensures HasKey(config, key) <==> IsManual(Loaded(config, now), key) {
        ApplyAt(Loaded(front, now), op, key);
      }
    }
  }

  lemma NothingIsLoaded()
    ensures Keyed([]) && forall key :: Get([], key).None?
  {
  }

  /** Without that condition it fails: of two configured devices, one without and one with a
      fingerprint, the first is replaced by an addition that has its endpoint and the fingerprint of
      the second, and two configured devices have one key. */
  lemma MixedGoesOutOfStep(now: int)
    ensures var a, b := ManualDevice("10.0.0.1", 53317, false, "", ""), ManualDevice("10.0.0.2", 53317, false, "", "X");
            var s := State([a, b], Loaded([a, b], now));
            InStep(s) && !InStep(Step(s, Add(ManualDevice("10.0.0.1", 53317, false, "", "X"), now)))
  {
    hide KeyOf, Keyed, Loaded, Devices.Apply, Get;
    var a, b := ManualDevice("10.0.0.1", 53317, false, "", ""), ManualDevice("10.0.0.2", 53317, false, "", "X");
    var m := ManualDevice("10.0.0.1", 53317, false, "", "X");
    var s := State([a, b], Loaded([a, b], now));
    KeysDiffer(a.ip, a.port, a.fingerprint, b.ip, b.port, b.fingerprint);
    KeysDiffer(b.ip, b.port, b.fingerprint, m.ip, m.port, m.fingerprint);
    LoadedIsInStep([a, b], now);
    AddKeepsInStep(s, m, now);
    assert Match(s.config, m) == Some(0);
    assert s.config[1] == b && ManualKey(b) == ManualKey(m);
  }

  // ---------- The service of the program ----------

  class AppService {
    var manualDevices: seq<ManualDevice>
    const devices: DeviceStore

    ghost function Now(): State
      reads this, devices
    {
      State(manualDevices, devices.devices)
    }

    /** `load_configured_manual_devices` into a new store. */
    constructor (configured: seq<ManualDevice>, now: int)
      ensures fresh(devices) && Now() == State(configured, Loaded(configured, now))
      ensures InStep(Now()) <==> DistinctKeys(configured)
    {
      manualDevices := configured;
      devices := new DeviceStore();
      new;
      for i := 0 to |configured|
        invariant manualDevices == configured && devices.devices == Loaded(configured[..i], now)
      {
        var key := devices.UpsertDevice(DeviceFromManual(configured[i]), Manual, now);
        assert configured[..i + 1][..i] == configured[..i];
      }
      assert configured[..|configured|] == configured;
      LoadedIsInStep(configured, now);
    }

    method AddManualDevice(manual: ManualDevice, now: int) returns (key: string)
      modifies this, devices
      ensures key == ManualKey(manual) && Now() == Step(old(Now()), Add(manual, now))
      ensures old(InStep(Now())) ==>
        (InStep(Now()) <==> var i := Match(old(manualDevices), manual);
          forall j :: 0 <= j < |old(manualDevices)| && Some(j) != i ==> ManualKey(old(manualDevices)[j]) != ManualKey(manual))
    {
      hide InStep, Without, Devices.Apply, KeyOf, SameManualDevice;
      ghost var before := Now();
      if InStep(before) { AddKeepsInStep(before, manual, now); }
      var existing := Match(manualDevices, manual);
      var previous: Option<string> := None;
      if existing.Some? {
        previous := Some(ManualKey(manualDevices[existing.value]));
        manualDevices := manualDevices[existing.value := manual];
      } else {
        manualDevices := manualDevices + [manual];
      }
      key := ManualKey(manual);
      if previous.Some? && previous.value != key {
        var removed := devices.Remove(previous.value);
        RemoveIsWithout(before.devices, previous.value);
      }
      var upserted := devices.UpsertDevice(DeviceFromManual(manual), Manual, now);
    }

    method RemoveManualDevice(key: string) returns (removed: bool)
      modifies this, devices
      ensures Now() == Step(old(Now()), Forget(key))
      ensures old(InStep(Now())) ==> removed == old(IsManual(devices.devices, key))
      ensures removed <==> Now() != old(Now())
    {
      hide InStep, Without, Devices.Apply, KeyOf, SameManualDevice, Others, Get;
      ghost var before := Now();
      var entry := devices.GetEntry(key);
      if entry.None? || entry.value.source != Manual { return false; }
      var manual := ManualFromDevice(entry.value.device);
      if InStep(before) { SomeIsRemoved(before, key); }
      var size := |manualDevices|;
      var rest := Others(manualDevices, manual);
      manualDevices := rest;
      if |manualDevices| == size {
        NoneIsRemoved(before.config, manual);
        return false;
      }
      var gone := devices.Remove(key);
      RemoveIsWithout(before.devices, key);
      removed := true;
    }
  }

  lemma RemoveIsWithout(devices: seq<DeviceEntry>, key: string)
    ensures Devices.Apply(devices, Remove(key)) == Without(devices, key)
  {
  }

  lemma {:induction false} NoneIsRemoved(config: seq<ManualDevice>, m: ManualDevice)
    ensures |Others(config, m)| == |config| ==> Others(config, m) == config
  {
    if config != [] { NoneIsRemoved(config[1..], m); }
  }

  /** In step, a manual entry has a configured device that counts as the same. */
  lemma SomeIsRemoved(s: State, key: string)
    requires InStep(s) && IsManual(s.devices, key)
    ensures |Others(s.config, ManualFromDevice(Get(s.devices, key).value.device))| < |s.config|
  {
    hide KeyOf, Get, Keyed, SameManualDevice, Others;
    var m := ManualFromDevice(Get(s.devices, key).value.device);
    EntryHasKey(s.devices, key);
    assert HasKey(s.config, key);
    var c :| c in s.config && ManualKey(c) == key;
    SameIsSameKey(c, m);
    OthersAre(s.config, m);
  }
}
