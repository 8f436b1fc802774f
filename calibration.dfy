/**
 * Calibration curves (`brewblox_tilt/stored/calibration.py`): rows of a CSV
 * file give (uncalibrated, calibrated) sample pairs per device key; a cubic is
 * fitted per key, and a reading is calibrated with the curve of the first
 * candidate key that has one.
 *
 * The CSV reader, `float()` and `np.polyfit` are not modelled: rows arrive as
 * lists of fields, the number parser is a parameter `parse` (None where
 * `float()` raises ValueError) and the curve fit is a parameter `fit`.
 */
module Calibration {
  import opened Wrappers
  import opened Text

  /** `np.poly1d` of the four coefficients `np.polyfit(x, y, 3)` returns, highest power first. */
  datatype Cubic = Cubic(c3: real, c2: real, c1: real, c0: real)

  /** The value of the cubic at x. */
  function Eval(p: Cubic, x: real): real {
    ((p.c3 * x + p.c2) * x + p.c1) * x + p.c0
  }

  /** The sample lists of one key, in file order. */
  datatype Table = Table(uncal: seq<real>, cal: seq<real>)

  /**
   * The loader reads a row's fields in order, stopping at the first number that
   * does not parse: a row is read without an uncaught IndexError when it has
   * three fields, or two fields and a second field that does not parse.
   */
  predicate RowReadable(row: seq<string>, parse: string -> Option<real>) {
    |row| >= 3 || (|row| == 2 && parse(Strip(row[1])).None?)
  }

  /** Every row can be read without an uncaught IndexError. */
  predicate WellFormed(rows: seq<seq<string>>, parse: string -> Option<real>) {
    forall i :: 0 <= i < |rows| ==> RowReadable(rows[i], parse)
  }

  /** A row's key: its first field stripped, and lower-cased when `fold` holds. */
  function RowKey(row: seq<string>, fold: bool): string
    requires |row| >= 1
  {
    if fold then Lower(Strip(row[0])) else Strip(row[0])
  }

  /** A row's sample: both number fields parsed after stripping, or None when either does not parse. */
  function RowSample(row: seq<string>, parse: string -> Option<real>): (r: Option<(real, real)>)
    requires RowReadable(row, parse)
    ensures r.Some? <==> parse(Strip(row[1])).Some? && parse(Strip(row[2])).Some?
    ensures r.Some? ==> r.value == (parse(Strip(row[1])).value, parse(Strip(row[2])).value)
  {
    match parse(Strip(row[1]))
    case None => None
    case Some(u) =>
      match parse(Strip(row[2]))
      case None => None
      case Some(c) => Some((u, c))
  }

  /** What the loading loop builds: per key, the samples of its accepted rows appended in order. */
  function Tables(rows: seq<seq<string>>, parse: string -> Option<real>, fold: bool): map<string, Table>
    requires WellFormed(rows, parse)
    decreases |rows|
  {
    if rows == [] then map[]
    else
      var prefix := Tables(rows[..|rows| - 1], parse, fold);
      var row := rows[|rows| - 1];
      match RowSample(row, parse)
      case None => prefix
      case Some(sample) => AddSample(prefix, RowKey(row, fold), sample)
  }

  /** `cal_tables.setdefault(key, ...)` followed by the two appends. */
  function AddSample(tables: map<string, Table>, key: string, sample: (real, real)): (r: map<string, Table>)
    ensures r.Keys == tables.Keys + {key}
    ensures forall k :: k in tables && k != key ==> r[k] == tables[k]
    ensures key in tables ==> r[key] == Table(tables[key].uncal + [sample.0], tables[key].cal + [sample.1])
    ensures key !in tables ==> r[key] == Table([sample.0], [sample.1])
  {
    var t := if key in tables then tables[key] else Table([], []);
    tables[key := Table(t.uncal + [sample.0], t.cal + [sample.1])]
  }

  /** The samples of the accepted rows whose key is `key`, in file order. */
  function Samples(rows: seq<seq<string>>, parse: string -> Option<real>, fold: bool, key: string): (r: seq<(real, real)>)
    requires WellFormed(rows, parse)
    ensures |r| <= |rows|
  {
    if rows == [] then []
    else
      var row := rows[|rows| - 1];
      var tail := if RowSample(row, parse).Some? && RowKey(row, fold) == key then [RowSample(row, parse).value] else [];
      Samples(rows[..|rows| - 1], parse, fold, key) + tail
  }

  function Firsts(s: seq<(real, real)>): (r: seq<real>)
    ensures |r| == |s| && forall i :: 0 <= i < |s| ==> r[i] == s[i].0
  {
    seq(|s|, i requires 0 <= i < |s| => s[i].0)
  }

  function Seconds(s: seq<(real, real)>): (r: seq<real>)
    ensures |r| == |s| && forall i :: 0 <= i < |s| ==> r[i] == s[i].1
  {
    seq(|s|, i requires 0 <= i < |s| => s[i].1)
  }

  /**
   * The loader's grouping: a key has a table exactly when some row with that
   * key was accepted, and its two lists are the uncalibrated and calibrated
   * values of those rows, in file order (so they have equal length).
   */
  lemma {:induction false} TablesAreSamples(rows: seq<seq<string>>, parse: string -> Option<real>, fold: bool, key: string)
    requires WellFormed(rows, parse)
    ensures key in Tables(rows, parse, fold) <==> Samples(rows, parse, fold, key) != []
    ensures key in Tables(rows, parse, fold) ==>
      Tables(rows, parse, fold)[key] == Table(Firsts(Samples(rows, parse, fold, key)), Seconds(Samples(rows, parse, fold, key)))
  {
    if rows != [] {
      var init := rows[..|rows| - 1];
      TablesAreSamples(init, parse, fold, key);
      var row := rows[|rows| - 1];
      var t0, t := Tables(init, parse, fold), Tables(rows, parse, fold);
      var s0, s := Samples(init, parse, fold, key), Samples(rows, parse, fold, key);
      var sample := RowSample(row, parse);
      if sample.Some? && RowKey(row, fold) == key {
        assert s == s0 + [sample.value];
        assert t == AddSample(t0, key, sample.value);
        SamplesAppend(s0, sample.value);
      } else if sample.Some? {
        assert s == s0;
        assert t == AddSample(t0, RowKey(row, fold), sample.value);
      } else {
        assert s == s0 && t == t0;
      }
    }
  }

  /** One step of the loading loop. */
  lemma TablesStep(rows: seq<seq<string>>, i: nat, parse: string -> Option<real>, fold: bool)
    requires WellFormed(rows, parse) && i < |rows|
    ensures WellFormed(rows[..i], parse) && WellFormed(rows[..i + 1], parse)
    ensures Tables(rows[..i + 1], parse, fold) ==
      if RowSample(rows[i], parse).None? then Tables(rows[..i], parse, fold)
      else AddSample(Tables(rows[..i], parse, fold), RowKey(rows[i], fold), RowSample(rows[i], parse).value)
  {
    assert rows[..i + 1][..i] == rows[..i] && rows[..i + 1][i] == rows[i];
  }

  lemma AllTablesAreSamples(rows: seq<seq<string>>, parse: string -> Option<real>, fold: bool)
    requires WellFormed(rows, parse)
    ensures forall k :: k in Tables(rows, parse, fold) <==> Samples(rows, parse, fold, k) != []
    ensures forall k :: k in Tables(rows, parse, fold) ==>
      Tables(rows, parse, fold)[k] == Table(Firsts(Samples(rows, parse, fold, k)), Seconds(Samples(rows, parse, fold, k)))
  {
    forall k {
      TablesAreSamples(rows, parse, fold, k);
    }
  }

  lemma SamplesAppend(s: seq<(real, real)>, x: (real, real))
    ensures Firsts(s + [x]) == Firsts(s) + [x.0]
    ensures Seconds(s + [x]) == Seconds(s) + [x.1]
    ensures s == [] ==> Firsts(s) == [] && Seconds(s) == []
  {
  }

  /** A row whose numbers do not parse is skipped: loading goes on as if it were not there. */
  lemma SkippedRow(rows: seq<seq<string>>, row: seq<string>, parse: string -> Option<real>, fold: bool)
    requires WellFormed(rows, parse) && |row| >= 2
    requires parse(Strip(row[1])).None? || (|row| >= 3 && parse(Strip(row[2])).None?)
    ensures WellFormed(rows + [row], parse)
    ensures Tables(rows + [row], parse, fold) == Tables(rows, parse, fold)
  {
    assert (rows + [row])[..|rows|] == rows;
  }

  /**
   * Row keys are case-folded here: two rows whose first fields differ only in the case of
   * their letters (the `Black` and `BLACK` rows of the fixture file) share one key.
   */
  lemma RowKeyCaseFold(a: seq<string>, b: seq<string>)
    requires |a| >= 1 && |b| >= 1 && |a[0]| == |b[0]|
    requires forall i :: 0 <= i < |a[0]| ==> LowerChar(a[0][i]) == LowerChar(b[0][i])
    requires a[0] != [] ==> !IsSpace(a[0][0]) && !IsSpace(a[0][|a[0]| - 1])
    requires b[0] != [] ==> !IsSpace(b[0][0]) && !IsSpace(b[0][|b[0]| - 1])
    ensures RowKey(a, true) == RowKey(b, true) == Lower(a[0])
  {
    StripNoSpace(a[0]);
    StripNoSpace(b[0]);
  }

  lemma LowerBlack()
    ensures Lower("Black") == "black" && Lower("BLACK") == "black"
  {
    assert LowerChar('B') == 'b' && LowerChar('L') == 'l' && LowerChar('A') == 'a';
    assert LowerChar('C') == 'c' && LowerChar('K') == 'k';
  }

  /** `[k.lower() for k in key_candidates]`. */
  function LowerAll(keys: seq<string>): (r: seq<string>)
    ensures |r| == |keys| && forall i :: 0 <= i < |keys| ==> r[i] == Lower(keys[i])
  {
    seq(|keys|, i requires 0 <= i < |keys| => Lower(keys[i]))
  }

  /**
   * The curve value of the first key that has a curve: None exactly when no
   * key has one; otherwise the value of the curve of the earliest key that has one.
   */
  function FirstCalibrated(polys: map<string, Cubic>, keys: seq<string>, value: real): (r: Option<real>)
    ensures r.None? <==> forall i :: 0 <= i < |keys| ==> keys[i] !in polys
    ensures r.Some? ==> exists i :: (0 <= i < |keys| && keys[i] in polys && r.value == Eval(polys[keys[i]], value)
      && forall j :: 0 <= j < i ==> keys[j] !in polys)
  {
    if keys == [] then None
    else if keys[0] in polys then Some(Eval(polys[keys[0]], value))
    else
      var r := FirstCalibrated(polys, keys[1..], value);
      assert r.Some? ==> exists i :: (1 <= i < |keys| && keys[i] in polys && r.value == Eval(polys[keys[i]], value)
        && forall j :: 0 <= j < i ==> keys[j] !in polys)
      by {
        if r.Some? {
          var i :| 0 <= i < |keys| - 1 && keys[1..][i] in polys && r.value == Eval(polys[keys[1..][i]], value)
            && forall j :: 0 <= j < i ==> keys[1..][j] !in polys;
          assert keys[i + 1] == keys[1..][i];
          assert forall j :: 1 <= j < i + 1 ==> keys[j] == keys[1..][j - 1];
        }
      }
      r
  }

  /** An earlier key with a curve wins over any later one. */
  lemma FirstCalibratedPrefers(polys: map<string, Cubic>, keys: seq<string>, value: real, i: nat)
    requires i < |keys| && keys[i] in polys
    requires forall j :: 0 <= j < i ==> keys[j] !in polys
    ensures FirstCalibrated(polys, keys, value) == Some(Eval(polys[keys[i]], value))
  {
    var r := FirstCalibrated(polys, keys, value);
    var k :| 0 <= k < |keys| && keys[k] in polys && r.value == Eval(polys[keys[k]], value)
      && forall j :: 0 <= j < k ==> keys[j] !in polys;
    assert k == i;
  }

  class Calibrator {
    var calPolys: map<string, Cubic>
    var keys: set<string>

    /**
     * Loading: the rows are grouped by case-folded key, and a cubic is fitted
     * to each key's samples. The curves are exactly those of the keys with an
     * accepted row, and each is the fit of that key's samples in file order.
     */
    constructor (rows: seq<seq<string>>, parse: string -> Option<real>, fit: (seq<real>, seq<real>) -> Cubic)
      requires WellFormed(rows, parse)
      ensures keys == calPolys.Keys
      ensures forall k :: k in keys <==> Samples(rows, parse, true, k) != []
      ensures forall k :: k in calPolys ==>
        var s := Samples(rows, parse, true, k);
        calPolys[k] == fit(Firsts(s), Seconds(s))
    {
      var tables: map<string, Table> := map[];
      var ks: set<string> := {};
      var i := 0;
      while i < |rows|
        invariant 0 <= i <= |rows|
        invariant tables == Tables(rows[..i], parse, true)
        invariant ks == tables.Keys
      {
        var row := rows[i];
        TablesStep(rows, i, parse, true);
        var key := Lower(Strip(row[0]));
        var uncal := parse(Strip(row[1]));
        if uncal.Some? {
          var cal := parse(Strip(row[2]));
          if cal.Some? {
            ks := ks + {key};
            var t := if key in tables then tables[key] else Table([], []);
            tables := tables[key := Table(t.uncal + [uncal.value], t.cal + [cal.value])];
          }
        }
        i := i + 1;
      }
      assert rows[..i] == rows;
      keys := ks;
      calPolys := map k | k in tables :: fit(tables[k].uncal, tables[k].cal);
      AllTablesAreSamples(rows, parse, true);
    }

    /** `calibrated_value(key_candidates, value)`: the curve of the first lower-cased candidate that has one. */
    method CalibratedValue(candidates: seq<string>, value: real) returns (r: Option<real>)
      ensures r == FirstCalibrated(calPolys, LowerAll(candidates), value)
    {
      var lowered := LowerAll(candidates);
      var i := 0;
      while i < |lowered|
        invariant 0 <= i <= |lowered|
        invariant forall j :: 0 <= j < i ==> lowered[j] !in calPolys
      {
        if lowered[i] in calPolys {
          FirstCalibratedPrefers(calPolys, lowered, value, i);
          return Some(Eval(calPolys[lowered[i]], value));
        }
        i := i + 1;
      }
      return None;
    }
  }

  /** The lookups of `test_calibrator`: candidates are case-folded, and a candidate without a curve is passed over. */
  lemma CalibratedValueExamples(polys: map<string, Cubic>, value: real)
    requires "black" in polys && "dummy" !in polys
    ensures FirstCalibrated(polys, LowerAll(["Dummy", "Black"]), value) == Some(Eval(polys["black"], value))
    ensures FirstCalibrated(polys, LowerAll(["Dummy"]), value) == None
  {
    assert Lower("Dummy") == "dummy" && Lower("Black") == "black";
    assert LowerAll(["Dummy", "Black"]) == ["dummy", "black"];
    assert LowerAll(["Dummy"]) == ["dummy"];
  }
}
