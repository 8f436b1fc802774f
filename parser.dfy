/**
 * The event parser of `brewblox_tilt/parser.py`: it turns received Tilt events
 * into named, calibrated messages. An event is decoded (colour from its uuid,
 * Tilt Pro detection, scaling, a plausibility check on the gravity), its
 * address is normalised and named through the device name registry, and its
 * readings are calibrated with the curves of the address or the name.
 *
 * The file's own `Calibrator` is the older variant of the one in
 * `brewblox_tilt/stored/calibration.py`: its keys are not case-folded.
 */
module Parser {
  import opened Wrappers
  import opened Text
  import opened Const
  import opened Naming
  import Blescan
  import Names
  import Models
  import opened Calibration

  /** The message of this file: unlike the one of `brewblox_tilt/models.py`, it has no sync list. */
  datatype TiltMessage = TiltMessage(name: string, mac: string, color: string, data: map<string, real>)

  const TempF := "temperature[degF]"
  const TempC := "temperature[degC]"
  const Sg := "specificGravity"
  const Plato := "plato[degP]"
  const Rssi := "rssi[dBm]"
  const UncalTempF := "uncalibratedTemperature[degF]"
  const UncalTempC := "uncalibratedTemperature[degC]"
  const UncalSg := "uncalibratedSpecificGravity"
  const UncalPlato := "uncalibratedPlato[degP]"

  /** `deg_f_to_c`: None stays None; a temperature in Fahrenheit becomes the same temperature in Celsius. */
  function DegFToC(valueF: Option<real>): (r: Option<real>)
    ensures r.None? <==> valueF.None?
    ensures r.Some? ==> r.value * 9.0 / 5.0 + 32.0 == valueF.value
  {
    match valueF
    case None => None
    case Some(f) => Some((f - 32.0) * 5.0 / 9.0)
  }

  /** `sg_to_plato`: None stays None; a specific gravity becomes degrees Plato by the brewers' cubic. */
  function SgToPlato(sg: Option<real>): (r: Option<real>)
    ensures r.None? <==> sg.None?
  {
    match sg
    case None => None
    case Some(g) => Some(-616.868 + 1111.14 * g - 630.272 * g * g + 135.997 * g * g * g)
  }

  /** The freezing and boiling points of water. */
  lemma DegFToCExamples()
    ensures DegFToC(Some(32.0)) == Some(0.0)
    ensures DegFToC(Some(212.0)) == Some(100.0)
  {
  }

  /** The raw readings of a decoded event. */
  datatype Decoded = Decoded(color: string, tempF: real, sg: real, isPro: bool)

  /**
   * `_decode_event_data`: an event whose uuid is not in the colour table, or
   * whose gravity lies outside [lower, upper], is dropped. A minor value above
   * 5000 marks a Tilt Pro, which sends gravity in 1/10000 and temperature in
   * 1/10 degree; other Tilts send gravity in 1/1000 and whole degrees.
   */
  function DecodeEventData(event: Models.TiltEvent, lower: real, upper: real): Option<Decoded> {
    match ColorOf(event.uuid)
    case None => None
    case Some(color) =>
      var isPro := event.minor > 5000;
      var sg := if isPro then event.minor as real / 10000.0 else event.minor as real / 1000.0;
      var tempF := if isPro then event.major as real / 10.0 else event.major as real;
      if sg < lower || sg > upper then None
      else Some(Decoded(color, tempF, sg, isPro))
  }

  /**
   * A decoded event has the colour of its uuid, and readings that scale back
   * to the sent fields: gravity times 10000 (Pro) or 1000 is the minor value,
   * temperature times 10 (Pro) or 1 is the major value, and the gravity lies
   * within the bounds, both ends included. An event is dropped exactly when its
   * uuid is unknown or its gravity is outside the bounds.
   */
  lemma DecodeContract(event: Models.TiltEvent, lower: real, upper: real)
    ensures var r := DecodeEventData(event, lower, upper);
      r.Some? ==>
        && ColorOf(event.uuid) == Some(r.value.color)
        && r.value.isPro == (event.minor > 5000)
        && (r.value.isPro ==> r.value.sg * 10000.0 == event.minor as real && r.value.tempF * 10.0 == event.major as real)
        && (!r.value.isPro ==> r.value.sg * 1000.0 == event.minor as real && r.value.tempF == event.major as real)
        && lower <= r.value.sg <= upper
    ensures DecodeEventData(event, lower, upper).None? <==>
      ColorOf(event.uuid).None? ||
      var sg := if event.minor > 5000 then event.minor as real / 10000.0 else event.minor as real / 1000.0;
      sg < lower || sg > upper
  {
  }

  /**
   * The vectors of `test_data_parser` with the default bounds [0.5, 2]: a
   * reading of 1.002 is kept, a Pro-scaled reading of 100.2 and an unknown uuid
   * are dropped; and the bounds themselves are accepted.
   */
  lemma DecodeExamples()
    ensures DecodeEventData(Models.TiltEvent("AA7F97FC141E", TiltUuidColors[0].0, 68, 1002, 0, -80), 0.5, 2.0)
         == Some(Decoded("Red", 68.0, 1.002, false))
    ensures DecodeEventData(Models.TiltEvent("AA7F97FC141E", TiltUuidColors[0].0, 68, 1002000, 0, -80), 0.5, 2.0) == None
    ensures DecodeEventData(Models.TiltEvent("AA7F97FC141E", "", 68, 1002, 0, -80), 0.5, 2.0) == None
    ensures DecodeEventData(Models.TiltEvent("AA7F97FC141E", TiltUuidColors[0].0, 68, 500, 0, -80), 0.5, 2.0).Some?
    ensures DecodeEventData(Models.TiltEvent("AA7F97FC141E", TiltUuidColors[0].0, 68, 2000, 0, -80), 0.5, 2.0).Some?
  {
    ColorOfTableEntry(0);
    assert ColorOf("") == None by {
      TableUuidShape();
    }
  }

  /** `event.mac.strip().replace(':', '').upper()`. */
  function NormalizeMac(mac: string): string {
    Upper(RemoveChar(Strip(mac), ':'))
  }

  /** Normalisation leaves an address that is already normalised unchanged. */
  lemma NormalizeNormalized(mac: string)
    requires IsNormalizedMac(mac)
    ensures NormalizeMac(mac) == mac
  {
    StripNoSpace(mac);
    RemoveCharAbsent(mac, ':');
    assert Upper(mac) == mac;
  }

  /**
   * An address in the colon-separated lower-case hexadecimal form (the form
   * the raw-socket scanner produces) normalises to the upper-case hexadecimal
   * of its six bytes, which passes the normalised-address check.
   */
  lemma NormalizeSeparatedMac(bytes: seq<Blescan.byte>)
    requires |bytes| == 6
    ensures NormalizeMac(Blescan.B2String(bytes, Some(":"))) == Upper(Blescan.Hex(bytes))
    ensures IsNormalizedMac(NormalizeMac(Blescan.B2String(bytes, Some(":"))))
  {
    var s := Blescan.B2String(bytes, Some(":"));
    assert Strip(s) == s by {
      StripSeparatedMac(bytes);
    }
    Unseparated(bytes);
    UpperHexIsNormalized(bytes);
  }

  /** A colon-separated `b2string` starts and ends with hexadecimal digits, so stripping keeps it. */
  lemma StripSeparatedMac(bytes: seq<Blescan.byte>)
    requires |bytes| == 6
    ensures Strip(Blescan.B2String(bytes, Some(":"))) == Blescan.B2String(bytes, Some(":"))
  {
    var s := Blescan.B2String(bytes, Some(":"));
    Blescan.B2StringSeparated(bytes, ":", 0);
    Blescan.B2StringSeparated(bytes, ":", 5);
    assert s[0] == s[0..2][0] && s[16] == s[15..17][1];
    StripNoSpace(s);
  }

  /** The upper-cased hexadecimal text of six bytes is a normalised address. */
  lemma UpperHexIsNormalized(bytes: seq<Blescan.byte>)
    requires |bytes| == 6
    ensures IsNormalizedMac(Upper(Blescan.Hex(bytes)))
  {
    var u := Upper(Blescan.Hex(bytes));
    Blescan.HexText(bytes);
    forall i | 0 <= i < 12
      ensures IsMacChar(u[i])
    {
      assert Blescan.IsLowerHexChar(Blescan.Hex(bytes)[i]);
    }
  }

  /** Removing the separators of a colon-separated `b2string` leaves the plain hexadecimal text. */
  lemma {:induction false} Unseparated(bytes: seq<Blescan.byte>)
    requires bytes != []
    ensures RemoveChar(Blescan.B2String(bytes, Some(":")), ':') == Blescan.Hex(bytes)
  {
    var h := Blescan.Hex(bytes);
    if |bytes| == 1 {
      assert Blescan.Chunks(h) == [h];
      RemoveCharAbsent(h, ':');
    } else {
      Blescan.B2StringSplit(bytes, ":");
      var head := Blescan.HexByte(bytes[0]);
      var rest := Blescan.B2String(bytes[1..], Some(":"));
      RemoveCharAppend(head + ":", rest, ':');
      RemoveCharAppend(head, ":", ':');
      RemoveCharAbsent(head, ':');
      Unseparated(bytes[1..]);
    }
  }

  /** The fixture address of the raw-socket scanner test normalises to `DD7F97FC141E`. */
  lemma NormalizeFixtureMac()
    ensures NormalizeMac("dd:7f:97:fc:14:1e") == "DD7F97FC141E"
  {
    var b := Blescan.FixtureMacBytes;
    Blescan.FixtureMacText();
    NormalizeSeparatedMac(b);
    Blescan.FixtureMacHex();
    UpperFixtureMac();
  }

  lemma UpperFixtureMac()
    ensures Upper("dd7f97fc141e") == "DD7F97FC141E"
  {
    var u := Upper("dd7f97fc141e");
    forall i | 0 <= i < 12
      ensures u[i] == "DD7F97FC141E"[i]
    {
    }
  }

  /**
   * The data map of a message, built as `_parse_event` builds it: the raw
   * readings under the primary keys, then for each quantity with a calibrated
   * value, that value under the primary key and the raw one under the
   * `uncalibrated` key.
   */
  function DataMap(rawTempF: real, rawSg: real, calTempF: Option<real>, calSg: Option<real>, rssi: int): map<string, real> {
    var rawTempC := DegFToC(Some(rawTempF)).value;
    var calTempC := DegFToC(calTempF);
    var rawPlato := SgToPlato(Some(rawSg)).value;
    var calPlato := SgToPlato(calSg);
    var d0 := map[TempF := rawTempF, TempC := rawTempC, Sg := rawSg, Plato := rawPlato, Rssi := rssi as real];
    var d1 := if calTempF.Some? then d0[TempF := calTempF.value][UncalTempF := rawTempF] else d0;
    var d2 := if calTempC.Some? then d1[TempC := calTempC.value][UncalTempC := rawTempC] else d1;
    var d3 := if calSg.Some? then d2[Sg := calSg.value][UncalSg := rawSg] else d2;
    if calPlato.Some? then d3[Plato := calPlato.value][UncalPlato := rawPlato] else d3
  }

  /**
   * The data-map rule: the four primary keys and the signal strength are
   * always present; an `uncalibrated` key is present exactly when the
   * quantity has a calibrated value, and then the primary key holds the
   * calibrated value and the `uncalibrated` key the raw one; otherwise the
   * primary key holds the raw value. No other key is present.
   */
  lemma DataMapRule(rawTempF: real, rawSg: real, calTempF: Option<real>, calSg: Option<real>, rssi: int)
    ensures var d := DataMap(rawTempF, rawSg, calTempF, calSg, rssi);
      && d.Keys == {TempF, TempC, Sg, Plato, Rssi}
           + (if calTempF.Some? then {UncalTempF, UncalTempC} else {})
           + (if calSg.Some? then {UncalSg, UncalPlato} else {})
      && d[Rssi] == rssi as real
      && d[TempF] == (if calTempF.Some? then calTempF.value else rawTempF)
      && d[TempC] == DegFToC(if calTempF.Some? then calTempF else Some(rawTempF)).value
      && d[Sg] == (if calSg.Some? then calSg.value else rawSg)
      && d[Plato] == SgToPlato(if calSg.Some? then calSg else Some(rawSg)).value
      && (calTempF.Some? ==> d[UncalTempF] == rawTempF && d[UncalTempC] == DegFToC(Some(rawTempF)).value)
      && (calSg.Some? ==> d[UncalSg] == rawSg && d[UncalPlato] == SgToPlato(Some(rawSg)).value)
  {
  }

  /** What the parser reads from its configuration and calibrators. */
  datatype Env = Env(lower: real, upper: real, tempPolys: map<string, Cubic>, sgPolys: map<string, Cubic>)

  /**
   * `_parse_event(event)` on a registry state: the message of a decodable
   * event (or None for a dropped one), and the registry state after the
   * lookup of its address. A lookup that raises makes the whole call raise.
   */
  function ParseEventSpec(env: Env, st: State, event: Models.TiltEvent): (Result<Option<TiltMessage>, Error>, State) {
    match DecodeEventData(event, env.lower, env.upper)
    case None => (Success(None), st)
    case Some(d) =>
      var mac := NormalizeMac(event.mac);
      var (looked, st') := LookupSpec(st, mac, d.color);
      match looked
      case Failure(e) => (Failure(e), st')
      case Success(name) =>
        var calTempF := FirstCalibrated(env.tempPolys, [mac, name], d.tempF);
        var calSg := FirstCalibrated(env.sgPolys, [mac, name], d.sg);
        (Success(Some(TiltMessage(name, mac, d.color, DataMap(d.tempF, d.sg, calTempF, calSg, event.rssi)))), st')
  }

  /**
   * A dropped event never reaches the registry. A message carries the
   * normalised address, the colour of the uuid and the name the registry
   * gives that address, which is then stored. A call that raises leaves the
   * registry as it was.
   */
  lemma ParseEventContract(env: Env, st: State, event: Models.TiltEvent)
    ensures DecodeEventData(event, env.lower, env.upper).None? ==> ParseEventSpec(env, st, event) == (Success(None), st)
    ensures var (r, st') := ParseEventSpec(env, st, event);
      r.Success? && r.value.Some? ==>
        var m := r.value.value;
        && m.mac == NormalizeMac(event.mac)
        && IsNormalizedMac(m.mac)
        && Some(m.color) == ColorOf(event.uuid)
        && LookupSpec(st, m.mac, m.color) == (Success(m.name), st')
        && m.mac in st'.names && st'.names[m.mac] == m.name
    ensures ParseEventSpec(env, st, event).0.Failure? ==> ParseEventSpec(env, st, event).1 == st
  {
    var d := DecodeEventData(event, env.lower, env.upper);
    if d.Some? {
      LookupStores(st, NormalizeMac(event.mac), d.value.color);
    }
  }

  /**
   * Calibration candidates are [address, name]: a curve for the address wins
   * over a curve for the name; the name's curve is used only when the address
   * has none; with neither the reading stays uncalibrated.
   */
  lemma CalibrationPrefersMac(polys: map<string, Cubic>, mac: string, name: string, value: real)
    ensures mac in polys ==> FirstCalibrated(polys, [mac, name], value) == Some(Eval(polys[mac], value))
    ensures mac !in polys && name in polys ==> FirstCalibrated(polys, [mac, name], value) == Some(Eval(polys[name], value))
    ensures mac !in polys && name !in polys ==> FirstCalibrated(polys, [mac, name], value) == None
  {
    if mac in polys {
      FirstCalibratedPrefers(polys, [mac, name], value, 0);
    } else if name in polys {
      FirstCalibratedPrefers(polys, [mac, name], value, 1);
    }
  }

  /**
   * `parse(events)` on a registry state: the events are parsed in order; the
   * messages of the events that were not dropped are kept in input order; the
   * first raising event makes the whole call raise.
   */
  function ParseAllSpec(env: Env, st: State, events: seq<Models.TiltEvent>): (Result<seq<TiltMessage>, Error>, State)
    decreases |events|
  {
    if events == [] then (Success([]), st)
    else
      var (prefix, st0) := ParseAllSpec(env, st, events[..|events| - 1]);
      if prefix.Failure? then (prefix, st0)
      else
        var (r, st1) := ParseEventSpec(env, st0, events[|events| - 1]);
        match r
        case Failure(e) => (Failure(e), st1)
        case Success(m) => (Success(prefix.value + (if m.Some? then [m.value] else [])), st1)
  }

  lemma {:induction false} ParseAllErrorSticks(env: Env, st: State, events: seq<Models.TiltEvent>, n: nat)
    requires n <= |events| && ParseAllSpec(env, st, events[..n]).0.Failure?
    ensures ParseAllSpec(env, st, events) == ParseAllSpec(env, st, events[..n])
    decreases |events| - n
  {
    if n < |events| {
      var init := events[..|events| - 1];
      assert init[..n] == events[..n];
      ParseAllErrorSticks(env, st, init, n);
    } else {
      assert events[..n] == events;
    }
  }

  /**
   * A successful parse yields at most one message per event, each with a
   * normalised address.
   */
  lemma {:induction false} ParseAllMessages(env: Env, st: State, events: seq<Models.TiltEvent>)
    ensures var r := ParseAllSpec(env, st, events).0;
      r.Success? ==>
        && |r.value| <= |events|
        && forall k :: 0 <= k < |r.value| ==> IsNormalizedMac(r.value[k].mac)
  {
    if events != [] {
      var init := events[..|events| - 1];
      ParseAllMessages(env, st, init);
      var st0 := ParseAllSpec(env, st, init).1;
      ParseEventContract(env, st0, events[|events| - 1]);
    }
  }

  /** A batch whose events are all dropped yields no message and leaves the registry untouched. */
  lemma {:induction false} ParseAllDropped(env: Env, st: State, events: seq<Models.TiltEvent>)
    requires forall i :: 0 <= i < |events| ==> DecodeEventData(events[i], env.lower, env.upper).None?
    ensures ParseAllSpec(env, st, events) == (Success([]), st)
  {
    if events != [] {
      var init := events[..|events| - 1];
      assert forall i :: 0 <= i < |init| ==> init[i] == events[i];
      ParseAllDropped(env, st, init);
      var last := events[|events| - 1];
      assert DecodeEventData(last, env.lower, env.upper).None?;
      assert ParseEventSpec(env, st, last) == (Success(None), st);
      var none: seq<TiltMessage> := [];
      assert none + none == none;
    }
  }

  /** The older calibrator of this file: keys are stripped but keep their case. */
  class Calibrator {
    var calTables: map<string, Table>
    var calPolys: map<string, Cubic>

    /** `load_file`: per key, the samples of its accepted rows in file order, and a cubic fitted to them. */
    constructor (rows: seq<seq<string>>, parse: string -> Option<real>, fit: (seq<real>, seq<real>) -> Cubic)
      requires WellFormed(rows, parse)
      ensures calPolys.Keys == calTables.Keys
      ensures forall k :: k in calTables <==> Samples(rows, parse, false, k) != []
      ensures forall k :: k in calTables ==>
        var s := Samples(rows, parse, false, k);
        calTables[k] == Table(Firsts(s), Seconds(s)) && calPolys[k] == fit(Firsts(s), Seconds(s))
    {
      var tables: map<string, Table> := map[];
      var i := 0;
      while i < |rows|
        invariant 0 <= i <= |rows|
        invariant tables == Tables(rows[..i], parse, false)
      {
        var row := rows[i];
        TablesStep(rows, i, parse, false);
        var key := Strip(row[0]);
        var uncal := parse(Strip(row[1]));
        if uncal.Some? {
          var cal := parse(Strip(row[2]));
          if cal.Some? {
            var t := if key in tables then tables[key] else Table([], []);
            tables := tables[key := Table(t.uncal + [uncal.value], t.cal + [cal.value])];
          }
        }
        i := i + 1;
      }
      assert rows[..i] == rows;
      calTables := tables;
      calPolys := map k | k in tables :: fit(tables[k].uncal, tables[k].cal);
      AllTablesAreSamples(rows, parse, false);
    }

    /** `calibrated_value(key_candidates, value)`: the curve of the first candidate, as given, that has one. */
    method CalibratedValue(candidates: seq<string>, value: real) returns (r: Option<real>)
      ensures r == FirstCalibrated(calPolys, candidates, value)
    {
      var i := 0;
      while i < |candidates|
        invariant 0 <= i <= |candidates|
        invariant forall j :: 0 <= j < i ==> candidates[j] !in calPolys
      {
        if candidates[i] in calPolys {
          FirstCalibratedPrefers(calPolys, candidates, value, i);
          return Some(Eval(calPolys[candidates[i]], value));
        }
        i := i + 1;
      }
      return None;
    }
  }

  class EventDataParser {
    const lowerBound: real
    const upperBound: real
    const registry: Names.DeviceNameRegistry
    const sgCal: Calibrator
    const tempCal: Calibrator

    constructor (lowerBound: real, upperBound: real, registry: Names.DeviceNameRegistry, sgCal: Calibrator, tempCal: Calibrator)
      ensures this.lowerBound == lowerBound && this.upperBound == upperBound
      ensures this.registry == registry && this.sgCal == sgCal && this.tempCal == tempCal
    {
      this.lowerBound, this.upperBound := lowerBound, upperBound;
      this.registry, this.sgCal, this.tempCal := registry, sgCal, tempCal;
    }

    /** What parsing reads: the gravity bounds and the curves of both calibrators. */
    function Environment(): Env
      reads sgCal, tempCal
    {
      Env(lowerBound, upperBound, tempCal.calPolys, sgCal.calPolys)
    }

    /** `_parse_event(event)`: see ParseEventSpec. */
    method ParseEvent(event: Models.TiltEvent) returns (r: Result<Option<TiltMessage>, Error>)
      modifies registry
      ensures (r, registry.State()) == ParseEventSpec(Environment(), old(registry.State()), event)
      ensures registry.saved == old(registry.saved)
    {
      var decoded := DecodeEventData(event, lowerBound, upperBound);
      if decoded.None? {
        return Success(None);
      }
      var color := decoded.value.color;
      var mac := Upper(RemoveChar(Strip(event.mac), ':'));
      var looked := registry.Lookup(mac, color);
      if looked.Failure? {
        return Failure(looked.error);
      }
      var name := looked.value;
      var rawTempF := decoded.value.tempF;
      var rawTempC := DegFToC(Some(rawTempF));
      var calTempF := tempCal.CalibratedValue([mac, name], rawTempF);
      var calTempC := DegFToC(calTempF);
      var rawSg := decoded.value.sg;
      var calSg := sgCal.CalibratedValue([mac, name], rawSg);
      var rawPlato := SgToPlato(Some(rawSg));
      var calPlato := SgToPlato(calSg);

      var data := map[TempF := rawTempF, TempC := rawTempC.value, Sg := rawSg, Plato := rawPlato.value, Rssi := event.rssi as real];
      if calTempF.Some? {
        data := data[TempF := calTempF.value];
        data := data[UncalTempF := rawTempF];
      }
      if calTempC.Some? {
        data := data[TempC := calTempC.value];
        data := data[UncalTempC := rawTempC.value];
      }
      if calSg.Some? {
        data := data[Sg := calSg.value];
        data := data[UncalSg := rawSg];
      }
      if calPlato.Some? {
        data := data[Plato := calPlato.value];
        data := data[UncalPlato := rawPlato.value];
      }
      return Success(Some(TiltMessage(name, mac, color, data)));
    }

    /**
     * `parse(events)`: the messages of the events not dropped, in input order;
     * the registry is committed once, after all events, unless an event raised.
     */
    method Parse(events: seq<Models.TiltEvent>) returns (r: Result<seq<TiltMessage>, Error>)
      modifies registry
      ensures var (r', st') := ParseAllSpec(Environment(), old(registry.State()), events);
        && r == r'
        && registry.names == st'.names
        && (r.Success? ==>
              !registry.changed && registry.saved == old(registry.saved) + (if st'.changed then [st'.names] else []))
        && (r.Failure? ==> registry.changed == st'.changed && registry.saved == old(registry.saved))
    {
      var messages: seq<TiltMessage> := [];
      var i := 0;
      while i < |events|
        invariant 0 <= i <= |events|
        invariant ParseAllSpec(Environment(), old(registry.State()), events[..i]) == (Success(messages), registry.State())
        invariant registry.saved == old(registry.saved)
      {
        assert events[..i + 1][..i] == events[..i];
        assert events[..i + 1][i] == events[i];
        var m := ParseEvent(events[i]);
        if m.Failure? {
          ParseAllErrorSticks(Environment(), old(registry.State()), events, i + 1);
          return Failure(m.error);
        }
        if m.value.Some? {
          messages := messages + [m.value.value];
        } else {
          assert messages + [] == messages;
        }
        i := i + 1;
      }
      assert events[..i] == events;
      registry.Commit();
      return Success(messages);
    }

    /** `apply_custom_names(names)`: the registry's raising variant, then a commit if it did not raise. */
    method ApplyCustomNames(pairs: seq<(string, string)>) returns (err: Option<Error>)
      modifies registry
      ensures var (err', st') := Names.ApplyStrict(old(registry.State()), pairs);
        && err == err'
        && registry.names == st'.names
        && (err.None? ==>
              !registry.changed && registry.saved == old(registry.saved) + (if st'.changed then [st'.names] else []))
        && (err.Some? ==> registry.changed == st'.changed && registry.saved == old(registry.saved))
    {
      err := registry.ApplyCustomNames(pairs);
      if err.None? {
        registry.Commit();
      }
    }
  }
}
