/**
 * The Bluetooth scanner of `brewblox_tilt/scanner.py`: the iBeacon layout of
 * Apple manufacturer data, the staging of Tilt events received during a scan
 * (one per address, the latest wins), the hand-off of the staged events to the
 * parser, and the fixed identity of a simulated Tilt.
 */
module Scanner {
  import opened Wrappers
  import opened Text
  import opened Const
  import opened Naming
  import opened Models
  import Blescan
  import Parser

  type byte = Blescan.byte

  /** The fields of an iBeacon payload. */
  datatype Beacon = Beacon(uuid: seq<byte>, major: int, minor: int, txPower: int)

  /** The fixed part and the length of the fields `BEACON_STRUCT` reads. */
  const BeaconTypeLength: seq<byte> := [0x02, 0x15]
  const BeaconLength: nat := 23

  /** The values the layout can carry: 16 uuid bytes, two unsigned 16-bit numbers, a signed byte. */
  predicate IsBeacon(b: Beacon) {
    |b.uuid| == 16 && 0 <= b.major < 0x1_0000 && 0 <= b.minor < 0x1_0000 && -128 <= b.txPower < 128
  }

  /**
   * The payloads `BEACON_STRUCT.parse` reads without a stream error: the two
   * marker bytes are always read, and the remaining 21 bytes only after the
   * marker matched. A shorter payload makes the parser raise an error the
   * callback does not catch.
   */
  predicate BeaconReadable(data: seq<byte>) {
    |data| >= 2 && (data[..2] == BeaconTypeLength ==> |data| >= BeaconLength)
  }

  /**
   * `BEACON_STRUCT.parse(data)`: the type/length marker 02 15, the uuid, the
   * big-endian major and minor and the signed tx power. A different marker is
   * the ConstError the callback ignores (None), whatever the payload's length.
   * Bytes after the 23rd are not looked at.
   */
  function ParseBeacon(data: seq<byte>): (r: Option<Beacon>)
    requires BeaconReadable(data)
    ensures r.Some? <==> data[..2] == BeaconTypeLength
    ensures r.Some? ==> IsBeacon(r.value)
  {
    if data[0] != 0x02 || data[1] != 0x15 then None
    else
      assert data[..2] == BeaconTypeLength;
      Some(Beacon(
        data[2..18],
        data[18] as int * 256 + data[19] as int,
        data[20] as int * 256 + data[21] as int,
        if data[22] >= 128 then data[22] as int - 256 else data[22] as int))
  }

  /** The payload an iBeacon sender transmits for a beacon. */
  function EncodeBeacon(b: Beacon): (r: seq<byte>)
    requires IsBeacon(b)
    ensures |r| == BeaconLength
  {
    BeaconTypeLength + b.uuid
      + [b.major / 256, b.major % 256, b.minor / 256, b.minor % 256]
      + [if b.txPower < 0 then b.txPower + 256 else b.txPower]
  }

  /** Parsing an encoded beacon gives the beacon back, whatever bytes follow it. */
  lemma ParseEncodeBeacon(b: Beacon, rest: seq<byte>)
    requires IsBeacon(b)
    ensures ParseBeacon(EncodeBeacon(b) + rest) == Some(b)
  {
    var d := EncodeBeacon(b) + rest;
    assert d[..2] == BeaconTypeLength;
    assert d[2..18] == b.uuid;
  }

  /** A payload that parses is the encoding of its beacon, followed by bytes that were ignored. */
  lemma EncodeParseBeacon(data: seq<byte>)
    requires BeaconReadable(data) && ParseBeacon(data).Some?
    ensures |data| >= BeaconLength && EncodeBeacon(ParseBeacon(data).value) == data[..BeaconLength]
  {
    assert data[..2] == BeaconTypeLength;
    assert data[..BeaconLength] == data[..2] + data[2..18] + data[18..BeaconLength];
  }

  /** The 8-4-4-4-12 grouping of 32 hexadecimal digits. */
  function Dashed(h: string): (r: string)
    requires |h| == 32
    ensures |r| == 36
    ensures r[8] == '-' && r[13] == '-' && r[18] == '-' && r[23] == '-'
  {
    h[..8] + "-" + h[8..12] + "-" + h[12..16] + "-" + h[16..20] + "-" + h[20..]
  }

  /**
   * `str(UUID(bytes=b))`: the lower-case hexadecimal of the 16 bytes in the
   * grouped form of section 3 of RFC 4122.
   */
  function UuidText(b: seq<byte>): string
    requires |b| == 16
  {
    Dashed(Blescan.Hex(b))
  }

  /** Dropping the dashes of a UUID text gives the plain hexadecimal of its bytes. */
  lemma UndashUuidText(b: seq<byte>)
    requires |b| == 16
    ensures RemoveChar(UuidText(b), '-') == Blescan.Hex(b)
  {
    var h := Blescan.Hex(b);
    Blescan.HexText(b);
    forall i | 0 <= i < 32
      ensures h[i] != '-'
    {
      assert Blescan.IsLowerHexChar(h[i]);
    }
    Undash(h);
  }

  lemma Undash(h: string)
    requires |h| == 32 && forall i :: 0 <= i < 32 ==> h[i] != '-'
    ensures RemoveChar(Dashed(h), '-') == h
  {
    var p0, p1, p2, p3, p4 := h[..8], h[8..12], h[12..16], h[16..20], h[20..];
    assert RemoveChar(p0, '-') == p0 by {
      RemoveCharAbsent(p0, '-');
    }
    DashThen(p0, p1, p0);
    DashThen(p0 + "-" + p1, p2, p0 + p1);
    DashThen(p0 + "-" + p1 + "-" + p2, p3, p0 + p1 + p2);
    DashThen(p0 + "-" + p1 + "-" + p2 + "-" + p3, p4, p0 + p1 + p2 + p3);
    FiveGroups(h);
  }

  lemma FiveGroups(h: string)
    requires |h| == 32
    ensures h == h[..8] + h[8..12] + h[12..16] + h[16..20] + h[20..]
  {
  }

  /** One more dash and a dash-free group: the removal keeps the group. */
  lemma DashThen(d: string, group: string, plain: string)
    requires RemoveChar(d, '-') == plain
    requires forall i :: 0 <= i < |group| ==> group[i] != '-'
    ensures RemoveChar(d + "-" + group, '-') == plain + group
  {
    RemoveCharAbsent(group, '-');
    RemoveCharAppend(d, "-", '-');
    RemoveCharAppend(d + "-", group, '-');
    assert RemoveChar("-", '-') == [];
    assert plain + [] == plain;
  }

  /** The uuid of the raw-socket fixture renders as the Purple entry of the colour table. */
  lemma FixtureUuidIsPurple()
    ensures UuidText(Blescan.FixtureUuidBytes) == TiltUuidColors[3].0
    ensures ColorOf(UuidText(Blescan.FixtureUuidBytes)) == Some(TiltUuidColors[3].1)
  {
    var h := Blescan.Hex(Blescan.FixtureUuidBytes);
    assert h == "a495bb40c5b14b44b5121370f02d74de" by {
      Blescan.FixtureUuidText();
    }
    DashedPurple();
    assert UuidText(Blescan.FixtureUuidBytes) == Dashed(h);
    ColorOfTableEntry(3);
  }

  lemma DashedPurple()
    ensures Dashed("a495bb40c5b14b44b5121370f02d74de") == TiltUuidColors[3].0
  {
    var h := "a495bb40c5b14b44b5121370f02d74de";
    PurpleGroups();
    DashedGroups(h, "a495bb40", "c5b1", "4b44", "b512", "1370f02d74de");
    PurpleDashed();
  }

  lemma PurpleGroups()
    ensures "a495bb40c5b14b44b5121370f02d74de" == "a495bb40" + "c5b1" + "4b44" + "b512" + "1370f02d74de"
  {
  }

  lemma PurpleDashed()
    ensures "a495bb40" + "-" + "c5b1" + "-" + "4b44" + "-" + "b512" + "-" + "1370f02d74de" == TiltUuidColors[3].0
  {
  }

  /** Dashing 32 digits puts a dash between each of the five groups. */
  lemma DashedGroups(h: string, g0: string, g1: string, g2: string, g3: string, g4: string)
    requires |g0| == 8 && |g1| == 4 && |g2| == 4 && |g3| == 4 && |g4| == 12
    requires h == g0 + g1 + g2 + g3 + g4
    ensures Dashed(h) == g0 + "-" + g1 + "-" + g2 + "-" + g3 + "-" + g4
  {
    assert h[..8] == g0;
    assert h[8..12] == g1;
    assert h[12..16] == g2;
    assert h[16..20] == g3;
    assert h[20..] == g4;
  }

  /** What the scanner is told about one received advertisement. */
  datatype Advertisement = Advertisement(manufacturerData: map<int, seq<byte>>, rssi: int)

  /** Apple's Bluetooth company identifier. */
  const AppleVid: int := 0x004C

  /** Apple data, when present, can be read by the beacon parser without a stream error. */
  predicate Decodable(adv: Advertisement) {
    AppleVid in adv.manufacturerData ==> BeaconReadable(adv.manufacturerData[AppleVid])
  }

  /**
   * `_callback(device, advertisement_data)`: the event to stage for an
   * advertisement from `mac`, or None when it is not from a Tilt. Nothing is
   * staged without Apple data, without the iBeacon marker, or with a uuid
   * outside the colour table. The event takes address and signal strength from
   * the advertisement and uuid, major, minor and tx power from the payload.
   */
  function CallbackEvent(mac: string, adv: Advertisement): (r: Option<TiltEvent>)
    requires Decodable(adv)
    ensures r.None? <==>
      || AppleVid !in adv.manufacturerData
      || ParseBeacon(adv.manufacturerData[AppleVid]).None?
      || ColorOf(UuidText(ParseBeacon(adv.manufacturerData[AppleVid]).value.uuid)).None?
    ensures r.Some? ==>
      var b := ParseBeacon(adv.manufacturerData[AppleVid]).value;
      && r.value.mac == mac && r.value.rssi == adv.rssi
      && r.value.uuid == UuidText(b.uuid) && ColorOf(r.value.uuid).Some?
      && r.value.major == b.major && r.value.minor == b.minor && r.value.txpower == b.txPower
  {
    if AppleVid !in adv.manufacturerData then None
    else
      match ParseBeacon(adv.manufacturerData[AppleVid])
      case None => None
      case Some(b) =>
        var uuid := UuidText(b.uuid);
        if ColorOf(uuid).None? then None
        else Some(TiltEvent(mac, uuid, b.major, b.minor, b.txPower, adv.rssi))
  }

  /**
   * An advertisement carrying the encoding of a Tilt's beacon under Apple's
   * identifier yields exactly the event of that beacon, whatever other
   * manufacturers' data it carries.
   */
  lemma CallbackAcceptsTiltBeacon(mac: string, b: Beacon, others: map<int, seq<byte>>, rssi: int)
    requires IsBeacon(b) && ColorOf(UuidText(b.uuid)).Some?
    ensures CallbackEvent(mac, Advertisement(others[AppleVid := EncodeBeacon(b)], rssi))
         == Some(TiltEvent(mac, UuidText(b.uuid), b.major, b.minor, b.txPower, rssi))
  {
    ParseEncodeBeacon(b, []);
    assert EncodeBeacon(b) + [] == EncodeBeacon(b);
  }

  /**
   * Apple data that is not an iBeacon, of any length from two bytes up (such
   * as the short adverts of phones), is ignored: nothing is staged for it.
   */
  lemma CallbackIgnoresOtherAppleData(mac: string, data: seq<byte>, others: map<int, seq<byte>>, rssi: int)
    requires |data| >= 2 && data[..2] != BeaconTypeLength
    ensures Decodable(Advertisement(others[AppleVid := data], rssi))
    ensures CallbackEvent(mac, Advertisement(others[AppleVid := data], rssi)).None?
  {
  }

  class TiltScanner {
    var scanInterval: int
    var prevNumMessages: int
    /** The staged events, one per address, in the order the addresses were first seen. */
    var events: seq<TiltEvent>

    predicate Valid()
      reads this
    {
      DistinctMacs(events)
    }

    constructor ()
      ensures Valid() && events == []
      ensures scanInterval == 1 && prevNumMessages == 0
    {
      scanInterval, prevNumMessages, events := 1, 0, [];
    }

    /** `_callback`: stages the advertisement's event under its address, replacing an earlier one. */
    method Callback(mac: string, adv: Advertisement)
      requires Valid() && Decodable(adv)
      modifies this
      ensures Valid()
      ensures events == match CallbackEvent(mac, adv)
        case None => old(events)
        case Some(e) => Stage(old(events), e)
      ensures scanInterval == old(scanInterval) && prevNumMessages == old(prevNumMessages)
    {
      if AppleVid !in adv.manufacturerData {
        return;
      }
      var packet := ParseBeacon(adv.manufacturerData[AppleVid]);
      if packet.None? {
        return;
      }
      var uuid := UuidText(packet.value.uuid);
      if ColorOf(uuid).None? {
        return;
      }
      var e := TiltEvent(mac, uuid, packet.value.major, packet.value.minor, packet.value.txPower, adv.rssi);
      StageKeepsOnePerMac(events, e);
      events := Stage(events, e);
    }

    /**
     * `scan(duration)`, after the radio has listened: the staged events go to
     * the parser in staging order and the staging list is emptied. When the
     * parser raises, the error propagates before the list is emptied.
     */
    method Scan(p: Parser.EventDataParser) returns (r: Result<seq<Parser.TiltMessage>, Error>)
      requires Valid()
      modifies this, p.registry
      ensures Valid()
      ensures var (r', st') := Parser.ParseAllSpec(p.Environment(), old(p.registry.State()), old(events));
        && r == r'
        && p.registry.names == st'.names
        && (r.Success? ==>
              !p.registry.changed && p.registry.saved == old(p.registry.saved) + (if st'.changed then [st'.names] else []))
        && (r.Failure? ==> p.registry.changed == st'.changed && p.registry.saved == old(p.registry.saved))
      ensures r.Success? ==> events == []
      ensures r.Failure? ==> events == old(events)
      ensures scanInterval == old(scanInterval) && prevNumMessages == old(prevNumMessages)
    {
      r := p.Parse(events);
      if r.Success? {
        events := [];
      }
    }
  }

  /**
   * `next(uuid for uuid, color in TILT_UUID_COLORS.items() if color.upper() == key)`,
   * by position: the first entry whose upper-cased colour is `key`.
   */
  function FindColorIndex(table: seq<(string, string)>, key: string): (r: Option<nat>)
    ensures r.None? <==> forall i :: 0 <= i < |table| ==> Upper(table[i].1) != key
    ensures r.Some? ==> r.value < |table| && Upper(table[r.value].1) == key
    ensures r.Some? ==> forall j :: 0 <= j < r.value ==> Upper(table[j].1) != key
  {
    if table == [] then None
    else if Upper(table[0].1) == key then Some(0)
    else match FindColorIndex(table[1..], key)
      case None => None
      case Some(i) => Some(i + 1)
  }

  /** The search finds the first matching position. */
  lemma FirstColorIndex(table: seq<(string, string)>, key: string, i: nat)
    requires i < |table| && Upper(table[i].1) == key
    requires forall j :: 0 <= j < i ==> Upper(table[j].1) != key
    ensures FindColorIndex(table, key) == Some(i)
  {
  }

  /** The uuid a simulated Tilt of the given colour uses: the table's, matched case-insensitively, or '' for an unknown colour. */
  function SimulatedUuid(simulated: string): string {
    match FindColorIndex(TiltUuidColors, Upper(simulated))
    case Some(i) => TiltUuidColors[i].0
    case None => ""
  }

  /** `uuid.replace('-', '').upper()[:12]`. */
  function SimulatedMac(uuid: string): (r: string)
    ensures |r| <= 12
  {
    var plain := Upper(RemoveChar(uuid, '-'));
    if |plain| <= 12 then plain else plain[..12]
  }

  /** Without dashes, a table uuid starts with its eight-digit prefix and `c5b1`. */
  lemma TableUuidPlain(i: nat)
    requires i < |TiltUuidColors|
    ensures exists rest :: RemoveChar(TiltUuidColors[i].0, '-') == TablePrefix(i) + "c5b1" + rest
  {
    var prefix := TablePrefix(i);
    var tail := "-4b44-b512-1370f02d74de";
    assert TiltUuidColors[i].0 == prefix + "-c5b1" + tail by {
      TableUuidForm(i);
      SuffixGroups();
    }
    assert RemoveChar(prefix, '-') == prefix by {
      RemoveCharAbsent(prefix, '-');
    }
    RemoveCharAppend(prefix, "-c5b1", '-');
    RemoveCharAppend(prefix + "-c5b1", tail, '-');
    DashC5b1();
    assert RemoveChar(prefix + "-c5b1" + tail, '-') == prefix + "c5b1" + RemoveChar(tail, '-');
  }

  lemma SuffixGroups()
    ensures TiltUuidSuffix == "-c5b1" + "-4b44-b512-1370f02d74de"
  {
  }

  lemma DashC5b1()
    ensures RemoveChar("-c5b1", '-') == "c5b1"
  {
    assert "-c5b1"[1..] == "c5b1";
    RemoveCharAbsent("c5b1", '-');
  }

  lemma UpperPrefix(s: string, n: nat)
    requires n <= |s|
    ensures Upper(s)[..n] == Upper(s[..n])
  {
  }

  /**
   * The simulated address of each table colour is the upper-cased first eight
   * digits of its uuid followed by `C5B1`; it is a normalised address.
   */
  lemma SimulatedMacOfTable(i: nat)
    requires i < |TiltUuidColors|
    ensures SimulatedMac(TiltUuidColors[i].0) == Upper(TablePrefix(i) + "c5b1")
    ensures IsNormalizedMac(SimulatedMac(TiltUuidColors[i].0))
  {
    TableUuidPlain(i);
    var head := TablePrefix(i) + "c5b1";
    var rest :| RemoveChar(TiltUuidColors[i].0, '-') == head + rest;
    assert (head + rest)[..12] == head;
    UpperPrefix(head + rest, 12);
    var mac := Upper(head);
    forall k | 0 <= k < 12
      ensures IsMacChar(mac[k])
    {
      assert head[k] in "a495bc0123456789";
    }
  }

  /** The simulations of `test_broadcaster`: Pink in any letter case, and Orange. */
  lemma SimulatedPink()
    ensures SimulatedUuid("Pink") == TiltUuidColors[7].0
    ensures SimulatedUuid("pINK") == TiltUuidColors[7].0
    ensures SimulatedMac(SimulatedUuid("Pink")) == "A495BB80C5B1"
  {
    UpperPink();
    PinkIndex();
    SimulatedMacOfTable(7);
    PinkMac();
  }

  lemma UpperPink()
    ensures Upper("Pink") == "PINK" && Upper("pINK") == "PINK"
  {
  }

  lemma PinkIndex()
    ensures FindColorIndex(TiltUuidColors, "PINK") == Some(7)
  {
    assert Upper(TiltUuidColors[7].1) == "PINK";
    forall j | 0 <= j < 7
      ensures Upper(TiltUuidColors[j].1) != "PINK"
    {
      assert Upper("Blue")[0] == 'B';
    }
    FirstColorIndex(TiltUuidColors, "PINK", 7);
  }

  lemma PinkMac()
    ensures Upper(TablePrefix(7) + "c5b1") == "A495BB80C5B1"
  {
  }

  lemma SimulatedOrange()
    ensures SimulatedUuid("Orange") == TiltUuidColors[4].0
    ensures SimulatedMac(SimulatedUuid("Orange")) == "A495BB50C5B1"
  {
    OrangeIndex();
    SimulatedMacOfTable(4);
    OrangeMac();
  }

  lemma OrangeIndex()
    ensures FindColorIndex(TiltUuidColors, Upper("Orange")) == Some(4)
  {
    assert Upper("Orange") == "ORANGE";
    assert Upper(TiltUuidColors[4].1) == "ORANGE";
    forall j | 0 <= j < 4
      ensures Upper(TiltUuidColors[j].1) != "ORANGE"
    {
      assert Upper("Purple")[0] == 'P';
    }
    FirstColorIndex(TiltUuidColors, "ORANGE", 4);
  }

  lemma OrangeMac()
    ensures Upper(TablePrefix(4) + "c5b1") == "A495BB50C5B1"
  {
  }

  /** An unknown colour simulates a Tilt with empty uuid and empty address. */
  lemma SimulatedUnknown()
    ensures SimulatedUuid("White") == "" && SimulatedMac(SimulatedUuid("White")) == ""
  {
    assert Upper("White")[0] == 'W';
    assert Upper("Green")[0] == 'G' && Upper("Black")[0] == 'B';
  }

  class Simulation {
    var uuid: string
    var mac: string
    var interval: int
    var tempF: int
    var rawSg: int
    var rssi: int

    /** `Simulation(simulated)`: the table identity of the colour and the fixed starting readings. */
    constructor (simulated: string)
      ensures uuid == SimulatedUuid(simulated) && mac == SimulatedMac(uuid)
      ensures interval == 1 && tempF == 68 && rawSg == 1050 && rssi == -80
    {
      var u := SimulatedUuid(simulated);
      uuid := u;
      mac := SimulatedMac(u);
      interval, tempF, rawSg, rssi := 1, 68, 1050, -80;
    }
  }
}
