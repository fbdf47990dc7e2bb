/** Device discovery: a reply to the multicast `ID;` request names a device by
    position (second field: model, third field: serial), and the registry
    keeps the first reply for every distinct (model, serial) key. */
module Discovery {
  import opened Wrappers
  import opened Text
  import opened Net

  const DEFAULT_MCAST_GROUP: string := "224.3.11.15"
  const DEFAULT_MCAST_PORT: int := 31115
  const DISCOVERY_REQUEST: string := "ID;"

  /** The registry key, the tuple `(model, serial)`. */
  datatype Key = Key(model: string, serial: string)

  /** The `Device` record; its `running` flag starts out false and is never
      changed by the code modelled here. */
  datatype Device = Device(modelNum: string, serialNum: string, ipAddress: string, port: int, running: bool)

  /** Where the `IndexError` of a malformed reply comes from: a missing
      `;`-field, or a field without `=`. */
  datatype ReplyError = MissingField(index: nat) | MissingValue(index: nat)

  /** `v` is what `field.split('=')[1]` gives: the text after the first `=`
      of `field`, up to the next `=` or the end. */
  predicate ValueAfterFirstEquals(field: string, v: string)
  {
    match Find(field, "=")
    case None => false
    case Some(k) =>
      && k + 1 + |v| <= |field|
      && field[k + 1..k + 1 + |v|] == v
      && '=' !in v
      && (k + 1 + |v| == |field| || field[k + 1 + |v|] == '=')
  }

  /** The model and serial of a discovery reply, read by position; key names
      are not looked at. */
  function ParseReply(payload: string): (r: Result<Key, ReplyError>)
  {
    var fields := Split(payload, ";");
    if |fields| < 2 then Err(MissingField(1))
    else
      var m := Split(fields[1], "=");
      if |m| < 2 then Err(MissingValue(1))
      else if |fields| < 3 then Err(MissingField(2))
      else
        var s := Split(fields[2], "=");
        if |s| < 2 then Err(MissingValue(2))
        else Ok(Key(m[1], s[1]))
  }

  /** A reply parses exactly when it has at least three `;`-fields and the
      second and third both hold an `=`; the model is then the value after
      the first `=` of the second field and the serial that of the third. */
  lemma ParseReplyByPosition(payload: string)
    ensures var fields := Split(payload, ";");
      ParseReply(payload).Ok? <==> |fields| >= 3 && '=' in fields[1] && '=' in fields[2]
    ensures var fields := Split(payload, ";");
      ParseReply(payload).Ok? ==>
        && ValueAfterFirstEquals(fields[1], ParseReply(payload).value.model)
        && ValueAfterFirstEquals(fields[2], ParseReply(payload).value.serial)
  {
    var fields := Split(payload, ";");
    if |fields| >= 2 {
      ContainsChar(fields[1], '=');
      if '=' in fields[1] {
        SecondPieceIsValue(fields[1]);
      }
    }
    if |fields| >= 3 {
      ContainsChar(fields[2], '=');
      if '=' in fields[2] {
        SecondPieceIsValue(fields[2]);
      }
    }
  }

  lemma SecondPieceIsValue(field: string)
    requires '=' in field
    ensures |Split(field, "=")| >= 2 && ValueAfterFirstEquals(field, Split(field, "=")[1])
  {
    ContainsChar(field, '=');
    SecondPiece(field, '=');
    var k := |Split(field, "=")[0]|;
    FirstPiece(field[k + 1..], '=');
  }

  /** A reply laid out as `<tag>;<name>=<model>;<name>=<serial>` followed by
      nothing or by further `;`-fields yields that model and serial,
      whatever the two key names are. */
  lemma ParseReplyPositional(tag: string, modelName: string, model: string,
                             serialName: string, serial: string, tail: string)
    requires ';' !in tag && ';' !in modelName && ';' !in model && ';' !in serialName && ';' !in serial
    requires '=' !in modelName && '=' !in model && '=' !in serialName && '=' !in serial
    requires tail == [] || tail[0] == ';'
    ensures ParseReply(tag + ";" + modelName + "=" + model + ";" + serialName + "=" + serial + tail)
            == Ok(Key(model, serial))
  {
    var mf := modelName + "=" + model;
    var sf := serialName + "=" + serial;
    var payload := tag + ";" + modelName + "=" + model + ";" + serialName + "=" + serial + tail;
    assert payload == tag + ";" + (mf + ";" + (sf + tail));
    SplitFirstChar(tag, ';', mf + ";" + (sf + tail));
    SplitFirstChar(mf, ';', sf + tail);
    if tail == [] {
      assert sf + tail == sf;
      SplitNoChar(sf, ';');
    } else {
      assert sf + tail == sf + ";" + tail[1..];
      SplitFirstChar(sf, ';', tail[1..]);
    }
    var fields := Split(payload, ";");
    assert fields[1] == mf && fields[2] == sf;
    SplitFirstChar(modelName, '=', model);
    SplitNoChar(model, '=');
    SplitFirstChar(serialName, '=', serial);
    SplitNoChar(serial, '=');
  }

  /** A reply with no second `;` has too few fields and fails. */
  lemma ParseReplyNeedsThreeFields(payload: string)
    requires |Split(payload, ";")| < 3
    ensures ParseReply(payload).Err?
  {
  }

  /** A received reply as the registry sees it: the outcome of parsing its
      payload, and the source address `recvfrom` reported. */
  datatype Reply = Reply(key: Result<Key, ReplyError>, host: string, port: int)

  function Received(d: Inbound): Reply
  {
    Reply(ParseReply(d.payload), d.host, d.port)
  }

  function ReceivedAll(ds: seq<Inbound>): (rs: seq<Reply>)
    ensures |rs| == |ds|
  {
    if ds == [] then [] else [Received(ds[0])] + ReceivedAll(ds[1..])
  }

  lemma {:induction false} ReceivedAt(ds: seq<Inbound>, i: nat)
    requires i < |ds|
    ensures ReceivedAll(ds)[i] == Received(ds[i])
  {
    if i > 0 {
      ReceivedAt(ds[1..], i - 1);
    }
  }

  /** `DeviceDiscovery.devices` together with `DeviceDiscovery.devicesList`. */
  datatype Registry = Registry(devices: map<Key, Device>, devicesList: seq<Key>)

  predicate NoDuplicates<T(==)>(s: seq<T>)
  {
    forall i, j :: 0 <= i < j < |s| ==> s[i] != s[j]
  }

  /** What the registry promises at all times: one list entry per dictionary
      key and no other, and every device stored under its own key. */
  ghost predicate RegistryInvariant(reg: Registry)
  {
    && NoDuplicates(reg.devicesList)
    && (forall k :: k in reg.devices <==> k in reg.devicesList)
    && (forall k :: k in reg.devices ==>
          reg.devices[k].modelNum == k.model && reg.devices[k].serialNum == k.serial)
  }

  /** How a discovery run ends: by the receive timeout (with the "No devices
      found." case flagged) or by the `IndexError` of a malformed reply. */
  datatype DiscoveryOutcome = TimedOut(noDevicesFound: bool) | Malformed(error: ReplyError)

  /** The registry after a run, the devices emitted by `deviceFound` in
      order, and how the run ended. */
  datatype DiscoveryRun = DiscoveryRun(registry: Registry, found: seq<Device>, outcome: DiscoveryOutcome)

  function NewDevice(key: Key, reply: Reply): Device
  {
    Device(key.model, key.serial, reply.host, reply.port, false)
  }

  /** The registry with `key` added for `reply`. */
  function Add(reg: Registry, key: Key, reply: Reply): Registry
  {
    Registry(reg.devices[key := NewDevice(key, reply)], reg.devicesList + [key])
  }

  /** The receive loop of `sendDiscovery` over the replies that arrive
      before the timeout, in arrival order. */
  function Discover(reg: Registry, replies: seq<Reply>): DiscoveryRun
    decreases |replies|
  {
    if replies == [] then DiscoveryRun(reg, [], TimedOut(reg.devicesList == []))
    else
      match replies[0].key
      case Err(e) => DiscoveryRun(reg, [], Malformed(e))
      case Ok(key) =>
        if key in reg.devices then Discover(reg, replies[1..])
        else
          var run := Discover(Add(reg, key, replies[0]), replies[1..]);
          run.(found := [NewDevice(key, replies[0])] + run.found)
  }

  /** A reply with an unseen key adds exactly one entry to each of `devices`
      and `devicesList` and emits exactly one device. */
  lemma RegisterUnseen(reg: Registry, reply: Reply, key: Key)
    requires RegistryInvariant(reg)
    requires reply.key == Ok(key) && key !in reg.devices
    ensures var run := Discover(reg, [reply]);
      && |run.registry.devices| == |reg.devices| + 1
      && run.registry.devicesList == reg.devicesList + [key]
      && run.registry.devices == reg.devices[key := NewDevice(key, reply)]
      && run.found == [NewDevice(key, reply)]
      && RegistryInvariant(run.registry)
  {
    assert [reply][1..] == [];
  }

  /** A reply with a key already present changes nothing and emits nothing. */
  lemma RegisterKnown(reg: Registry, reply: Reply, key: Key)
    requires reply.key == Ok(key) && key in reg.devices
    ensures Discover(reg, [reply]) == DiscoveryRun(reg, [], TimedOut(reg.devicesList == []))
  {
    assert [reply][1..] == [];
  }

  /** Receiving the same reply twice is the same as receiving it once: a
      known key is skipped, and a malformed reply ends the run at once. */
  lemma ReplayIgnored(reg: Registry, reply: Reply)
    ensures Discover(reg, [reply, reply]) == Discover(reg, [reply])
  {
    assert [reply, reply][1..] == [reply];
    assert [reply][1..] == [];
  }

  lemma {:induction false} DiscoverKeepsInvariant(reg: Registry, replies: seq<Reply>)
    requires RegistryInvariant(reg)
    ensures RegistryInvariant(Discover(reg, replies).registry)
    decreases |replies|
  {
    if replies != [] && replies[0].key.Ok? {
      var key := replies[0].key.value;
      if key in reg.devices {
        DiscoverKeepsInvariant(reg, replies[1..]);
      } else {
        AddKeepsInvariant(reg, key, replies[0]);
        DiscoverKeepsInvariant(Add(reg, key, replies[0]), replies[1..]);
      }
    }
  }

  lemma AddKeepsInvariant(reg: Registry, key: Key, reply: Reply)
    requires RegistryInvariant(reg) && key !in reg.devices
    ensures RegistryInvariant(Add(reg, key, reply))
  {
    var after := Add(reg, key, reply);
    forall i, j | 0 <= i < j < |after.devicesList|
      ensures after.devicesList[i] != after.devicesList[j]
    {
      if j == |reg.devicesList| {
        assert reg.devicesList[i] in reg.devices;
      }
    }
  }

  /** Entries are only ever appended: earlier list entries stay where they
      were and an existing device (its address included) is never replaced. */
  lemma {:induction false} DiscoverNeverOverwrites(reg: Registry, replies: seq<Reply>)
    ensures var after := Discover(reg, replies).registry;
      && |reg.devicesList| <= |after.devicesList|
      && after.devicesList[..|reg.devicesList|] == reg.devicesList
      && (forall k :: k in reg.devices ==> k in after.devices && after.devices[k] == reg.devices[k])
    decreases |replies|
  {
    if replies != [] && replies[0].key.Ok? {
      var key := replies[0].key.value;
      if key in reg.devices {
        DiscoverNeverOverwrites(reg, replies[1..]);
      } else {
        var next := Add(reg, key, replies[0]);
        DiscoverNeverOverwrites(next, replies[1..]);
        var after := Discover(next, replies[1..]).registry;
        assert after.devicesList[..|reg.devicesList|] == after.devicesList[..|next.devicesList|][..|reg.devicesList|];
      }
    }
  }

  /** The devices emitted are exactly the devices of the newly appended list
      entries, in list order. */
  lemma {:induction false} DiscoverFoundMatchesList(reg: Registry, replies: seq<Reply>)
    ensures var run := Discover(reg, replies);
      && |run.registry.devicesList| == |reg.devicesList| + |run.found|
      && forall j :: |reg.devicesList| <= j < |run.registry.devicesList| ==>
           run.registry.devicesList[j] in run.registry.devices
           && run.found[j - |reg.devicesList|] == run.registry.devices[run.registry.devicesList[j]]
    decreases |replies|
  {
    if replies != [] && replies[0].key.Ok? {
      var key := replies[0].key.value;
      if key in reg.devices {
        DiscoverFoundMatchesList(reg, replies[1..]);
      } else {
        var next := Add(reg, key, replies[0]);
        DiscoverFoundMatchesList(next, replies[1..]);
        DiscoverNeverOverwrites(next, replies[1..]);
        var rest := Discover(next, replies[1..]);
        var run := Discover(reg, replies);
        assert run.found == [NewDevice(key, replies[0])] + rest.found;
        assert rest.registry.devicesList[|reg.devicesList|] == next.devicesList[|reg.devicesList|];
      }
    }
  }

  /** Index of the first reply carrying `key`, or `|replies|` if none does. */
  function FirstWith(replies: seq<Reply>, key: Key): (i: nat)
    ensures i <= |replies|
    ensures i < |replies| ==> replies[i].key == Ok(key)
    ensures forall j :: 0 <= j < i ==> replies[j].key != Ok(key)
  {
    if replies == [] then 0
    else if replies[0].key == Ok(key) then 0
    else 1 + FirstWith(replies[1..], key)
  }

  /** Every newly registered device comes from the first reply that carried
      its key, so it has that reply's address. */
  lemma {:induction false} DiscoverKeepsFirstAddress(reg: Registry, replies: seq<Reply>)
    ensures var after := Discover(reg, replies).registry;
      forall k :: k in after.devices && k !in reg.devices ==>
        FirstWith(replies, k) < |replies| && after.devices[k] == NewDevice(k, replies[FirstWith(replies, k)])
    decreases |replies|
  {
    if replies != [] && replies[0].key.Ok? {
      var key := replies[0].key.value;
      var rest := replies[1..];
      var next := if key in reg.devices then reg else Add(reg, key, replies[0]);
      assert Discover(reg, replies).registry == Discover(next, rest).registry;
      DiscoverKeepsFirstAddress(next, rest);
      DiscoverNeverOverwrites(next, rest);
      var after := Discover(next, rest).registry;
      forall k | k in after.devices && k !in reg.devices
        ensures FirstWith(replies, k) < |replies| && after.devices[k] == NewDevice(k, replies[FirstWith(replies, k)])
      {
        if k != key {
          assert FirstWith(replies, k) == 1 + FirstWith(rest, k);
        }
      }
    }
  }

  /** First-arrival order: new list entries are ordered by the arrival of
      the first reply carrying each of them. */
  lemma {:induction false} DiscoverFirstArrivalOrder(reg: Registry, replies: seq<Reply>)
    requires RegistryInvariant(reg)
    ensures var after := Discover(reg, replies).registry;
      forall i, j :: |reg.devicesList| <= i < j < |after.devicesList| ==>
        FirstWith(replies, after.devicesList[i]) < FirstWith(replies, after.devicesList[j])
    decreases |replies|
  {
    if replies != [] && replies[0].key.Ok? {
      var key := replies[0].key.value;
      var rest := replies[1..];
      var next := if key in reg.devices then reg else Add(reg, key, replies[0]);
      if key !in reg.devices {
        AddKeepsInvariant(reg, key, replies[0]);
      }
      assert Discover(reg, replies).registry == Discover(next, rest).registry;
      DiscoverFirstArrivalOrder(next, rest);
      DiscoverKeepsInvariant(next, rest);
      DiscoverNeverOverwrites(next, rest);
      var after := Discover(next, rest).registry;
      forall i | |next.devicesList| <= i < |after.devicesList|
        ensures FirstWith(replies, after.devicesList[i]) == 1 + FirstWith(rest, after.devicesList[i])
      {
        NewEntryIsNew(next, after, i);
      }
      if key !in reg.devices {
        assert after.devicesList[|reg.devicesList|] == next.devicesList[|reg.devicesList|] == key;
        assert FirstWith(replies, key) == 0;
      }
    }
  }

  /** A list entry past the old list's length is a key the old registry
      did not have. */
  lemma NewEntryIsNew(reg: Registry, after: Registry, i: int)
    requires RegistryInvariant(reg) && RegistryInvariant(after)
    requires |reg.devicesList| <= i < |after.devicesList|
    requires after.devicesList[..|reg.devicesList|] == reg.devicesList
    ensures after.devicesList[i] !in reg.devices
  {
  }

  /** A run that ends by timeout has seen only well-formed replies and has
      registered every key among them. */
  lemma {:induction false} DiscoverComplete(reg: Registry, replies: seq<Reply>)
    requires Discover(reg, replies).outcome.TimedOut?
    ensures forall i :: 0 <= i < |replies| ==>
      replies[i].key.Ok? && replies[i].key.value in Discover(reg, replies).registry.devices
    decreases |replies|
  {
    if replies != [] {
      var key := replies[0].key.value;
      var rest := replies[1..];
      var next := if key in reg.devices then reg else Add(reg, key, replies[0]);
      assert Discover(reg, replies) == Discover(next, rest).(found := Discover(reg, replies).found);
      DiscoverComplete(next, rest);
      DiscoverNeverOverwrites(next, rest);
      forall i | 1 <= i < |replies|
        ensures replies[i] == rest[i - 1]
      {
      }
    }
  }

  /** Running discovery again continues from the registry the first run left
      behind: two runs that end by timeout are one run over both reply
      sequences. */
  lemma {:induction false} DiscoverRerun(reg: Registry, first: seq<Reply>, second: seq<Reply>)
    requires Discover(reg, first).outcome.TimedOut?
    ensures var run1 := Discover(reg, first);
      var run2 := Discover(run1.registry, second);
      Discover(reg, first + second) == run2.(found := run1.found + run2.found)
    decreases |first|
  {
    if first == [] {
      assert first + second == second;
    } else {
      assert (first + second)[0] == first[0];
      assert (first + second)[1..] == first[1..] + second;
      var key := first[0].key.value;
      if key in reg.devices {
        DiscoverRerun(reg, first[1..], second);
      } else {
        DiscoverRerun(Add(reg, key, first[0]), first[1..], second);
      }
    }
  }

  /** A run ends by timeout exactly when every reply it receives is well
      formed. */
  lemma {:induction false} DiscoverTimesOutIff(reg: Registry, replies: seq<Reply>)
    ensures Discover(reg, replies).outcome.TimedOut? <==> forall i :: 0 <= i < |replies| ==> replies[i].key.Ok?
    decreases |replies|
  {
    if replies != [] {
      var rest := replies[1..];
      if (forall i :: 0 <= i < |replies| ==> replies[i].key.Ok?) {
        assert forall i :: 0 <= i < |rest| ==> rest[i] == replies[i + 1];
      }
      if (forall i :: 0 <= i < |rest| ==> rest[i].key.Ok?) && replies[0].key.Ok? {
        forall i | 0 <= i < |replies|
          ensures replies[i].key.Ok?
        {
          if i > 0 {
            assert replies[i] == rest[i - 1];
          }
        }
      }
      match replies[0].key
      case Err(_) =>
      case Ok(key) =>
        if key in reg.devices {
          DiscoverTimesOutIff(reg, rest);
        } else {
          DiscoverTimesOutIff(Add(reg, key, replies[0]), rest);
        }
    }
  }

  /** The `IndexError` of a malformed reply ends the run: the devices
      registered and emitted before it stay, and nothing after it is looked
      at. */
  lemma DiscoverStopsAtMalformed(reg: Registry, before: seq<Reply>, bad: Reply, rest: seq<Reply>)
    requires bad.key.Err? && Discover(reg, before).outcome.TimedOut?
    ensures Discover(reg, before + [bad] + rest) == Discover(reg, before).(outcome := Malformed(bad.key.error))
  {
    DiscoverRerun(reg, before, [bad] + rest);
    assert before + [bad] + rest == before + ([bad] + rest);
    assert ([bad] + rest)[0] == bad;
  }

  /** `DeviceDiscovery`: the registry a discovery run fills in place. */
  class DeviceDiscovery {
    var devices: map<Key, Device>
    var devicesList: seq<Key>
    /** The devices emitted through the `deviceFound` signal, in order. */
    var found: seq<Device>
    /** The datagrams sent. */
    var outbox: seq<Outbound>

    function State(): Registry
      reads this
    {
      Registry(devices, devicesList)
    }

    ghost predicate Valid()
      reads this
    {
      RegistryInvariant(State())
    }

    constructor ()
      ensures Valid()
      ensures devices == map[] && devicesList == [] && found == [] && outbox == []
    {
      devices := map[];
      devicesList := [];
      found := [];
      outbox := [];
    }

    /** `sendDiscovery`: sends `message` (to the default group and port,
        whatever `group` and `port` say), then registers the datagrams in
        arrival order until the timeout (the end of `datagrams`) or the
        first malformed reply, whose `IndexError` ends the call. Parsing a
        payload changes no state, so the replies are parsed as one sequence
        and the receive loop is `Register`. */
    method SendDiscovery(group: string, port: int, message: string, datagrams: seq<Inbound>)
      returns (outcome: DiscoveryOutcome)
      requires Valid()
      modifies this
      ensures Valid()
      ensures outbox == old(outbox) + [Outbound(message, DEFAULT_MCAST_GROUP, DEFAULT_MCAST_PORT)]
      ensures var run := Discover(old(State()), ReceivedAll(datagrams));
        && State() == run.registry
        && found == old(found) + run.found
        && outcome == run.outcome
    {
      outbox := outbox + [Outbound(message, DEFAULT_MCAST_GROUP, DEFAULT_MCAST_PORT)];
      outcome := Register(ReceivedAll(datagrams));
    }

    /** `sendDiscovery` as `startDiscovery` and `discoverDevices` call it:
        the default group and port and the default message `ID;`. */
    method DiscoverDevices(datagrams: seq<Inbound>) returns (outcome: DiscoveryOutcome)
      requires Valid()
      modifies this
      ensures Valid()
      ensures outbox == old(outbox) + [Outbound(DISCOVERY_REQUEST, DEFAULT_MCAST_GROUP, DEFAULT_MCAST_PORT)]
      ensures var run := Discover(old(State()), ReceivedAll(datagrams));
        && State() == run.registry
        && found == old(found) + run.found
        && outcome == run.outcome
    {
      outcome := SendDiscovery(DEFAULT_MCAST_GROUP, DEFAULT_MCAST_PORT, DISCOVERY_REQUEST, datagrams);
    }

    /** The receive loop of `sendDiscovery`: one step per reply, in order. */
    method Register(replies: seq<Reply>) returns (outcome: DiscoveryOutcome)
      requires Valid()
      modifies this
      ensures Valid()
      ensures outbox == old(outbox)
      ensures var run := Discover(old(State()), replies);
        && State() == run.registry
        && found == old(found) + run.found
        && outcome == run.outcome
    {
      ghost var emitted: seq<Device> := [];
      var i := 0;
      while i < |replies|
        invariant 0 <= i <= |replies|
        invariant Valid()
        invariant outbox == old(outbox)
        invariant found == old(found) + emitted
        invariant Discover(old(State()), replies) == Discover(State(), replies[i..]).(found := emitted + Discover(State(), replies[i..]).found)
      {
        var reply := replies[i];
        ghost var before := State();
        assert replies[i..] == [reply] + replies[i + 1..];
        match reply.key
        case Err(e) =>
          return Malformed(e);
        case Ok(key) =>
          if key !in devices {
            AddKeepsInvariant(before, key, reply);
            var device := Device(key.model, key.serial, reply.host, reply.port, false);
            devices := devices[key := device];
            devicesList := devicesList + [key];
            found := found + [device];
            emitted := emitted + [device];
            assert State() == Add(before, key, reply);
          }
        i := i + 1;
      }
      outcome := TimedOut(devicesList == []);
    }
  }
}
