/**
 * The records the service passes between its components: a received Tilt
 * advertisement, a temperature-sync rule, and the message produced for one
 * device (`brewblox_tilt/models.py`).
 */
module Models {
  /** One received advertisement of a Tilt: address, beacon uuid and payload fields. */
  datatype TiltEvent = TiltEvent(mac: string, uuid: string, major: int, minor: int, txpower: int, rssi: int)

  /** A rule that forwards a Tilt's temperature to a block of another service. */
  datatype TiltTemperatureSync = TiltTemperatureSync(kind: string, service: string, block: string)

  /**
   * The message for one device. The values of `data` are the numbers the
   * service publishes, keyed by their quantity and unit.
   */
  datatype TiltMessage = TiltMessage(
    name: string, mac: string, color: string, data: map<string, real>, sync: seq<TiltTemperatureSync>)

  /** The events staged for one scan cycle, in the order their addresses were first seen. */
  predicate DistinctMacs(events: seq<TiltEvent>) {
    forall i, j :: 0 <= i < j < |events| ==> events[i].mac != events[j].mac
  }

  /**
   * `events[e.mac] = e` on a dict keyed by address: an event for an address
   * already present replaces that entry in place, otherwise it is appended.
   */
  function Stage(events: seq<TiltEvent>, e: TiltEvent): (r: seq<TiltEvent>)
    requires DistinctMacs(events)
    ensures |r| == |events| || |r| == |events| + 1
    ensures |r| == |events| <==> exists i :: 0 <= i < |events| && events[i].mac == e.mac
    ensures forall i :: 0 <= i < |events| ==> r[i] == (if events[i].mac == e.mac then e else events[i])
    ensures |r| == |events| + 1 ==> r[|events|] == e
  {
    if events == [] then [e]
    else if events[0].mac == e.mac then [e] + events[1..]
    else [events[0]] + Stage(events[1..], e)
  }

  /** Staging keeps one event per address, and the staged event for the new one's address is the new one. */
  lemma {:induction false} StageKeepsOnePerMac(events: seq<TiltEvent>, e: TiltEvent)
    requires DistinctMacs(events)
    ensures DistinctMacs(Stage(events, e))
    ensures exists i :: 0 <= i < |Stage(events, e)| && Stage(events, e)[i] == e
    ensures forall x :: x in Stage(events, e) && x.mac == e.mac ==> x == e
  {
    var r := Stage(events, e);
    assert DistinctMacs(r) by {
      forall i, j | 0 <= i < j < |r|
        ensures r[i].mac != r[j].mac
      {
        StageDistinctAt(events, e, i, j);
      }
    }
    if |r| == |events| + 1 {
      assert r[|events|] == e;
    } else {
      var i :| 0 <= i < |events| && events[i].mac == e.mac;
      assert r[i] == e;
    }
    forall x | x in r && x.mac == e.mac
      ensures x == e
    {
      var k :| 0 <= k < |r| && r[k] == x;
      StageAtMac(events, e, k);
    }
  }

  lemma StageDistinctAt(events: seq<TiltEvent>, e: TiltEvent, i: nat, j: nat)
    requires DistinctMacs(events) && i < j < |Stage(events, e)|
    ensures Stage(events, e)[i].mac != Stage(events, e)[j].mac
  {
    var r := Stage(events, e);
    if j == |events| {
      assert events[i].mac != e.mac;
    } else {
      assert events[i].mac != events[j].mac;
    }
  }

  lemma StageAtMac(events: seq<TiltEvent>, e: TiltEvent, k: nat)
    requires DistinctMacs(events) && k < |Stage(events, e)| && Stage(events, e)[k].mac == e.mac
    ensures Stage(events, e)[k] == e
  {
  }

  /** Two advertisements for the same address in a row leave only the later one staged. */
  lemma StageLastWriteWins(events: seq<TiltEvent>, e1: TiltEvent, e2: TiltEvent)
    requires DistinctMacs(events) && e1.mac == e2.mac
    ensures DistinctMacs(Stage(events, e1))
    ensures Stage(Stage(events, e1), e2) == Stage(events, e2)
  {
    StageKeepsOnePerMac(events, e1);
    StageTwiceLength(events, e1, e2);
    var r2, r := Stage(Stage(events, e1), e2), Stage(events, e2);
    forall i | 0 <= i < |r|
      ensures r2[i] == r[i]
    {
      StageTwiceAt(events, e1, e2, i);
    }
  }

  lemma StageTwiceLength(events: seq<TiltEvent>, e1: TiltEvent, e2: TiltEvent)
    requires DistinctMacs(events) && DistinctMacs(Stage(events, e1)) && e1.mac == e2.mac
    ensures |Stage(Stage(events, e1), e2)| == |Stage(events, e1)| == |Stage(events, e2)|
  {
    var r1 := Stage(events, e1);
    var n := |events|;
    if |r1| == n + 1 {
      assert r1[n].mac == e2.mac;
      assert |Stage(r1, e2)| == |r1|;
      assert |Stage(events, e2)| == n + 1 by {
        assert forall i :: 0 <= i < n ==> events[i].mac != e1.mac;
      }
    } else {
      var w :| 0 <= w < n && events[w].mac == e1.mac;
      assert r1[w].mac == e2.mac;
      assert |Stage(r1, e2)| == |r1|;
      assert |Stage(events, e2)| == n;
    }
  }

  lemma StageTwiceAt(events: seq<TiltEvent>, e1: TiltEvent, e2: TiltEvent, i: nat)
    requires DistinctMacs(events) && DistinctMacs(Stage(events, e1)) && e1.mac == e2.mac
    requires |Stage(Stage(events, e1), e2)| == |Stage(events, e1)| == |Stage(events, e2)|
    requires i < |Stage(events, e2)|
    ensures Stage(Stage(events, e1), e2)[i] == Stage(events, e2)[i]
  {
    var r1 := Stage(events, e1);
    if i < |events| {
      assert r1[i] == (if events[i].mac == e1.mac then e1 else events[i]);
    } else {
      assert r1[i] == e1;
    }
  }
}
