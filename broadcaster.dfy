/**
 * The scan-and-publish cycle of `brewblox_tilt/broadcaster.py`: advertisements
 * are staged per address while the radio listens; each run hands the staged
 * events to the parser, adapts the pause before the next scan to the number
 * of devices seen, and publishes a presence message, a history message and
 * one state message per device, plus a setpoint patch for every temperature
 * sync rule of a device. The message broker is modelled by the list of the
 * publications made, oldest first.
 */
module Broadcaster {
  import opened Wrappers
  import opened Models
  import Naming
  import Scanner

  /** One publication of a run. */
  datatype Publication =
    | Presence(key: string)
    | History(key: string, history: map<string, map<string, real>>)
    | DeviceState(key: string, color: string, mac: string, name: string, data: map<string, real>)
    | SyncPatch(block: string, service: string, setting: real)

  /** The only sync rule type that yields a patch. */
  const ExternalSensor := "TempSensorExternal"
  /** The quantity a sync patch carries. */
  const TempC := "temperature[degC]"

  /** `max(value, low)` on the configured durations and intervals. */
  function AtLeast(value: int, low: int): (r: int)
    ensures r >= low && r >= value
    ensures r == value || r == low
  {
    if value < low then low else value
  }

  /**
   * The pause before the next scan: the inactive interval when no device was
   * seen or fewer than in the previous run, the active interval otherwise.
   */
  function NextScanInterval(curr: nat, prev: nat, inactive: int, active: int): (r: int)
    ensures curr == 0 ==> r == inactive
    ensures curr < prev ==> r == inactive
    ensures 0 < curr && prev <= curr ==> r == active
  {
    if curr == 0 || curr < prev then inactive else active
  }

  /** After a run that saw nothing, any run that sees a device scans at the active pace. */
  lemma IntervalRecovers(curr: nat, inactive: int, active: int)
    requires curr > 0
    ensures NextScanInterval(curr, 0, inactive, active) == active
  {
  }

  /**
   * `{msg.name: msg.data for msg in messages}`: the names of the messages,
   * each with the data of the last message of that name.
   */
  function HistoryData(msgs: seq<TiltMessage>): (r: map<string, map<string, real>>)
    ensures r.Keys == set m | m in msgs :: m.name
    decreases |msgs|
  {
    if msgs == [] then map[]
    else
      var init := msgs[..|msgs| - 1];
      var last := msgs[|msgs| - 1];
      assert forall m :: m in msgs <==> m in init || m == last;
      HistoryData(init)[last.name := last.data]
  }

  /** Devices that share a name share one history entry: the one of the last message with that name. */
  lemma {:induction false} HistoryLastWins(msgs: seq<TiltMessage>, i: nat)
    requires i < |msgs|
    requires forall j :: i < j < |msgs| ==> msgs[j].name != msgs[i].name
    ensures HistoryData(msgs)[msgs[i].name] == msgs[i].data
  {
    if i < |msgs| - 1 {
      var init := msgs[..|msgs| - 1];
      assert forall j :: i < j < |init| ==> init[j] == msgs[j];
      HistoryLastWins(init, i);
      assert init[i] == msgs[i];
    }
  }

  /** A `temperature[degC]` value is there for every rule that needs one. */
  predicate SyncReadable(sync: seq<TiltTemperatureSync>, data: map<string, real>) {
    forall k :: 0 <= k < |sync| ==> sync[k].kind == ExternalSensor ==> TempC in data
  }

  predicate AllSyncReadable(msgs: seq<TiltMessage>) {
    forall i :: 0 <= i < |msgs| ==> SyncReadable(msgs[i].sync, msgs[i].data)
  }

  /** The patches of one message's sync rules, in rule order. */
  function SyncPatches(sync: seq<TiltTemperatureSync>, data: map<string, real>): (r: seq<Publication>)
    requires SyncReadable(sync, data)
    ensures |r| <= |sync|
    ensures forall p :: p in r ==> p.SyncPatch? && TempC in data && p.setting == data[TempC]
    decreases |sync|
  {
    if sync == [] then []
    else
      var init := sync[..|sync| - 1];
      var rule := sync[|sync| - 1];
      assert SyncReadable(init, data) by {
        assert forall k :: 0 <= k < |init| ==> init[k] == sync[k];
      }
      SyncPatches(init, data)
        + (if rule.kind == ExternalSensor then [SyncPatch(rule.block, rule.service, data[TempC])] else [])
  }

  /** One step of the patching loop. */
  lemma SyncPatchesStep(sync: seq<TiltTemperatureSync>, data: map<string, real>, j: nat)
    requires SyncReadable(sync, data) && j < |sync|
    ensures SyncReadable(sync[..j], data) && SyncReadable(sync[..j + 1], data)
    ensures SyncPatches(sync[..j + 1], data) == SyncPatches(sync[..j], data)
      + (if sync[j].kind == ExternalSensor then [SyncPatch(sync[j].block, sync[j].service, data[TempC])] else [])
  {
    assert sync[..j + 1][..j] == sync[..j] && sync[..j + 1][j] == sync[j];
  }

  /**
   * A patch is published for exactly the rules of type TempSensorExternal:
   * each such rule's block and service get the message's Celsius temperature,
   * and every patch comes from such a rule.
   */
  lemma {:induction false} SyncPatchesRule(sync: seq<TiltTemperatureSync>, data: map<string, real>)
    requires SyncReadable(sync, data)
    ensures forall k :: 0 <= k < |sync| && sync[k].kind == ExternalSensor ==>
      SyncPatch(sync[k].block, sync[k].service, data[TempC]) in SyncPatches(sync, data)
    ensures forall p :: p in SyncPatches(sync, data) ==>
      exists k :: 0 <= k < |sync| && sync[k].kind == ExternalSensor && p == SyncPatch(sync[k].block, sync[k].service, data[TempC])
  {
    if sync != [] {
      var init := sync[..|sync| - 1];
      assert forall k :: 0 <= k < |init| ==> init[k] == sync[k];
      SyncPatchesRule(init, data);
    }
  }

  /** What a run publishes for one message: its state, then its patches. */
  function DevicePublications(key: string, msg: TiltMessage): (r: seq<Publication>)
    requires SyncReadable(msg.sync, msg.data)
    ensures |r| >= 1 && r[0] == DeviceState(key, msg.color, msg.mac, msg.name, msg.data)
    ensures forall p :: p in r[1..] ==> p.SyncPatch?
  {
    [DeviceState(key, msg.color, msg.mac, msg.name, msg.data)] + SyncPatches(msg.sync, msg.data)
  }

  /** The per-device publications of a list of messages, message by message. */
  function AllDevicePublications(key: string, msgs: seq<TiltMessage>): (r: seq<Publication>)
    requires AllSyncReadable(msgs)
    decreases |msgs|
  {
    if msgs == [] then []
    else
      var init := msgs[..|msgs| - 1];
      assert AllSyncReadable(init) by {
        assert forall i :: 0 <= i < |init| ==> init[i] == msgs[i];
      }
      AllDevicePublications(key, init) + DevicePublications(key, msgs[|msgs| - 1])
  }

  lemma AllDevicePublicationsStep(key: string, msgs: seq<TiltMessage>, i: nat)
    requires AllSyncReadable(msgs) && i < |msgs|
    ensures AllSyncReadable(msgs[..i]) && AllSyncReadable(msgs[..i + 1])
    ensures AllDevicePublications(key, msgs[..i + 1]) == AllDevicePublications(key, msgs[..i]) + DevicePublications(key, msgs[i])
  {
    assert msgs[..i + 1][..i] == msgs[..i];
  }

  /**
   * Every message gets its state publication, and the state publications are
   * the messages', one per message.
   */
  lemma {:induction false} AllDevicePublicationsStates(key: string, msgs: seq<TiltMessage>)
    requires AllSyncReadable(msgs)
    ensures forall i :: 0 <= i < |msgs| ==>
      DeviceState(key, msgs[i].color, msgs[i].mac, msgs[i].name, msgs[i].data) in AllDevicePublications(key, msgs)
    ensures forall p :: p in AllDevicePublications(key, msgs) && p.DeviceState? ==>
      exists i :: 0 <= i < |msgs| && p == DeviceState(key, msgs[i].color, msgs[i].mac, msgs[i].name, msgs[i].data)
    ensures forall p :: p in AllDevicePublications(key, msgs) ==> p.DeviceState? || p.SyncPatch?
  {
    if msgs != [] {
      var init := msgs[..|msgs| - 1];
      assert forall i :: 0 <= i < |init| ==> init[i] == msgs[i];
      AllDevicePublicationsStates(key, init);
      var last := msgs[|msgs| - 1];
      var d := DevicePublications(key, last);
      assert d == [d[0]] + d[1..];
    }
  }

  /**
   * What one run publishes for a parse result: always the presence message;
   * then, only when there are messages, the history message and the
   * per-device publications.
   */
  function RunPublications(key: string, msgs: seq<TiltMessage>): (r: seq<Publication>)
    requires AllSyncReadable(msgs)
    ensures |r| >= 1 && r[0] == Presence(key)
    ensures |r| == 1 <==> msgs == []
    ensures msgs != [] ==> r[1] == History(key, HistoryData(msgs))
  {
    [Presence(key)] + (if msgs == [] then [] else [History(key, HistoryData(msgs))] + AllDevicePublications(key, msgs))
  }

  /** The publications of a non-empty run, appended in three steps: presence, history, then per device. */
  lemma RunPublicationsOfSome(key: string, msgs: seq<TiltMessage>, start: seq<Publication>,
                              mid: seq<Publication>, end: seq<Publication>)
    requires AllSyncReadable(msgs) && msgs != []
    requires mid == start + [Presence(key)] + [History(key, HistoryData(msgs))]
    requires end == mid + AllDevicePublications(key, msgs)
    ensures end == start + RunPublications(key, msgs)
  {
    var h := [History(key, HistoryData(msgs))] + AllDevicePublications(key, msgs);
    assert RunPublications(key, msgs) == [Presence(key)] + h;
    assert end == start + ([Presence(key)] + h);
  }

  /** Each message's own publications are among the per-device publications of its list. */
  lemma {:induction false} DevicePublicationsIncluded(key: string, msgs: seq<TiltMessage>, i: nat)
    requires AllSyncReadable(msgs) && i < |msgs|
    ensures forall p :: p in DevicePublications(key, msgs[i]) ==> p in AllDevicePublications(key, msgs)
  {
    var init := msgs[..|msgs| - 1];
    if i < |msgs| - 1 {
      assert forall j :: 0 <= j < |init| ==> init[j] == msgs[j];
      DevicePublicationsIncluded(key, init, i);
    }
  }

  /**
   * A run publishes the state of every message it parsed and, for every
   * TempSensorExternal rule of a message, the patch carrying that message's
   * Celsius temperature to the rule's block and service.
   */
  lemma RunPublicationsContent(key: string, msgs: seq<TiltMessage>)
    requires AllSyncReadable(msgs)
    ensures forall i :: 0 <= i < |msgs| ==>
      DeviceState(key, msgs[i].color, msgs[i].mac, msgs[i].name, msgs[i].data) in RunPublications(key, msgs)
    ensures forall i, k :: 0 <= i < |msgs| && 0 <= k < |msgs[i].sync| && msgs[i].sync[k].kind == ExternalSensor ==>
      SyncPatch(msgs[i].sync[k].block, msgs[i].sync[k].service, msgs[i].data[TempC]) in RunPublications(key, msgs)
  {
    var r := RunPublications(key, msgs);
    forall i | 0 <= i < |msgs|
      ensures DeviceState(key, msgs[i].color, msgs[i].mac, msgs[i].name, msgs[i].data) in r
      ensures forall k :: 0 <= k < |msgs[i].sync| && msgs[i].sync[k].kind == ExternalSensor ==>
        SyncPatch(msgs[i].sync[k].block, msgs[i].sync[k].service, msgs[i].data[TempC]) in r
    {
      DevicePublicationsIncluded(key, msgs, i);
      SyncPatchesRule(msgs[i].sync, msgs[i].data);
      var d := DevicePublications(key, msgs[i]);
      assert d[0] in d;
      assert forall p :: p in SyncPatches(msgs[i].sync, msgs[i].data) ==> p in d;
    }
  }

  class Broadcaster {
    const name: string
    const scanDuration: int
    const inactiveScanInterval: int
    const activeScanInterval: int
    var scanInterval: int
    var prevNumMessages: nat
    /** The staged events, one per address, in the order the addresses were first seen. */
    var events: seq<TiltEvent>
    /** Everything published so far, oldest first. */
    var published: seq<Publication>

    /**
     * The clamped configuration, the pause always one of the configured ones
     * (or the initial 1 s), and one staged event per address.
     */
    predicate Valid()
      reads this
    {
      && scanDuration >= 1 && inactiveScanInterval >= 0 && activeScanInterval >= 0
      && (scanInterval == 1 || scanInterval == inactiveScanInterval || scanInterval == activeScanInterval)
      && DistinctMacs(events)
    }

    /** `Broadcaster(app)`: the configuration is clamped; nothing is staged or published yet. */
    constructor (name: string, scanDuration: int, inactiveScanInterval: int, activeScanInterval: int)
      ensures Valid()
      ensures this.name == name
      ensures this.scanDuration == AtLeast(scanDuration, 1)
      ensures this.inactiveScanInterval == AtLeast(inactiveScanInterval, 0)
      ensures this.activeScanInterval == AtLeast(activeScanInterval, 0)
      ensures scanInterval == 1 && prevNumMessages == 0 && events == [] && published == []
    {
      this.name := name;
      this.scanDuration := AtLeast(scanDuration, 1);
      this.inactiveScanInterval := AtLeast(inactiveScanInterval, 0);
      this.activeScanInterval := AtLeast(activeScanInterval, 0);
      scanInterval, prevNumMessages, events, published := 1, 0, [], [];
    }

    /** `device_callback`: the scanner's drop rules and staging. */
    method DeviceCallback(mac: string, adv: Scanner.Advertisement)
      requires Valid() && Scanner.Decodable(adv)
      modifies this
      ensures Valid()
      ensures events == match Scanner.CallbackEvent(mac, adv)
        case None => old(events)
        case Some(e) => Stage(old(events), e)
      ensures published == old(published) && scanInterval == old(scanInterval) && prevNumMessages == old(prevNumMessages)
    {
      var e := Scanner.CallbackEvent(mac, adv);
      if e.Some? {
        StageKeepsOnePerMac(events, e.value);
        events := Stage(events, e.value);
      }
    }

    /** The state publication of one message, then a patch for each of its TempSensorExternal rules. */
    method PublishDevice(msg: TiltMessage)
      requires SyncReadable(msg.sync, msg.data)
      modifies this
      ensures published == old(published) + DevicePublications(name, msg)
      ensures events == old(events) && scanInterval == old(scanInterval) && prevNumMessages == old(prevNumMessages)
    {
      published := published + [DeviceState(name, msg.color, msg.mac, msg.name, msg.data)];
      ghost var start := published;
      var j := 0;
      while j < |msg.sync|
        invariant 0 <= j <= |msg.sync|
        invariant SyncReadable(msg.sync[..j], msg.data)
        invariant published == start + SyncPatches(msg.sync[..j], msg.data)
        invariant events == old(events) && scanInterval == old(scanInterval) && prevNumMessages == old(prevNumMessages)
      {
        var rule := msg.sync[j];
        SyncPatchesStep(msg.sync, msg.data, j);
        ghost var done := SyncPatches(msg.sync[..j], msg.data);
        if rule.kind == ExternalSensor {
          published := published + [SyncPatch(rule.block, rule.service, msg.data[TempC])];
          assert published == start + (done + [SyncPatch(rule.block, rule.service, msg.data[TempC])]);
        }
        j := j + 1;
      }
      assert msg.sync[..j] == msg.sync;
    }

    /**
     * `run()`, after the radio has listened: the staged events are parsed and
     * cleared, the pause is adapted, and the run's publications are made. When
     * parsing raises, nothing else happens.
     */
    method Run(parse: seq<TiltEvent> -> Result<seq<TiltMessage>, Naming.Error>) returns (err: Option<Naming.Error>)
      requires Valid()
      requires parse(events).Success? ==> AllSyncReadable(parse(events).value)
      modifies this
      ensures Valid()
      ensures match parse(old(events))
        case Failure(e) =>
          && err == Some(e) && events == old(events) && published == old(published)
          && scanInterval == old(scanInterval) && prevNumMessages == old(prevNumMessages)
        case Success(msgs) =>
          && err == None && events == []
          && prevNumMessages == |msgs|
          && scanInterval == NextScanInterval(|msgs|, old(prevNumMessages), inactiveScanInterval, activeScanInterval)
          && published == old(published) + RunPublications(name, msgs)
    {
      var result := parse(events);
      if result.Failure? {
        return Some(result.error);
      }
      var messages := result.value;
      events := [];

      var curr := |messages|;
      var prev := prevNumMessages;
      prevNumMessages := curr;
      if curr == 0 || curr < prev {
        scanInterval := inactiveScanInterval;
      } else {
        scanInterval := activeScanInterval;
      }

      Publish(messages);
      return None;
    }

    /** The per-device publications of every message, message by message. */
    method PublishDevices(messages: seq<TiltMessage>)
      requires AllSyncReadable(messages)
      modifies this
      ensures published == old(published) + AllDevicePublications(name, messages)
      ensures events == old(events) && scanInterval == old(scanInterval) && prevNumMessages == old(prevNumMessages)
    {
      var i := 0;
      while i < |messages|
        invariant 0 <= i <= |messages|
        invariant AllSyncReadable(messages[..i])
        invariant published == old(published) + AllDevicePublications(name, messages[..i])
        invariant events == old(events) && scanInterval == old(scanInterval) && prevNumMessages == old(prevNumMessages)
      {
        AllDevicePublicationsStep(name, messages, i);
        ghost var done := AllDevicePublications(name, messages[..i]);
        PublishDevice(messages[i]);
        assert published == old(published) + (done + DevicePublications(name, messages[i]));
        i := i + 1;
      }
      assert messages[..i] == messages;
    }

    /** The publications of a run, in the order they are made. */
    method Publish(messages: seq<TiltMessage>)
      requires AllSyncReadable(messages)
      modifies this
      ensures published == old(published) + RunPublications(name, messages)
      ensures events == old(events) && scanInterval == old(scanInterval) && prevNumMessages == old(prevNumMessages)
    {
      published := published + [Presence(name)];
      if messages == [] {
        assert RunPublications(name, messages) == [Presence(name)];
        return;
      }
      published := published + [History(name, HistoryData(messages))];
      ghost var before := published;
      PublishDevices(messages);
      RunPublicationsOfSome(name, messages, old(published), before, published);
    }
  }
}
