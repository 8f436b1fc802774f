/**
 * The device configuration store of `brewblox_tilt/stored/devices.py`: the
 * names map and the list of temperature-sync rules kept in a YAML file, with a
 * flag that says whether they differ from the file. The file is modelled by
 * the list of the contents written to it.
 */
module Devices {
  import opened Wrappers
  import opened Const
  import opened Naming

  /** One entry of the `sync` list. */
  datatype SyncRule = SyncRule(kind: string, tilt: string, service: string, block: string)

  /** The rule written into a store whose sync list is empty, as an example to edit. */
  const ExampleRule := SyncRule("TempSensorExternal", "ExampleTilt", "example-spark-service", "Example Block Name")

  /**
   * `re.sub(INVALID_NAME_CHAR_PATTERN, '_', name) or 'Unknown'`: every
   * character outside the name alphabet becomes `_`; the empty name becomes
   * `Unknown`.
   */
  function SanitizeName(name: string): (r: string)
    ensures name == [] ==> r == "Unknown"
    ensures name != [] ==> |r| == |name|
    ensures name != [] ==> forall i :: 0 <= i < |name| ==>
      r[i] == (if IsInvalidNameChar(name[i]) then '_' else name[i])
  {
    if name == [] then "Unknown"
    else seq(|name|, i requires 0 <= i < |name| => if IsInvalidNameChar(name[i]) then '_' else name[i])
  }

  /** A sanitised name uses only name characters; it is a valid name exactly when it is at most 100 long. */
  lemma SanitizeNameValid(name: string)
    ensures forall i :: 0 <= i < |SanitizeName(name)| ==> IsNameChar(SanitizeName(name)[i])
    ensures IsValidDeviceName(SanitizeName(name)) <==> |name| <= 100
  {
    var r := SanitizeName(name);
    if name == [] {
      assert r == "Unknown";
      assert forall i :: 0 <= i < |r| ==> IsNameChar(r[i]);
    } else {
      forall i | 0 <= i < |r|
        ensures IsNameChar(r[i])
      {
        assert IsNameChar('_');
      }
    }
    ValidNameIffNoInvalidChar(r);
  }

  /** Sanitising leaves a valid name unchanged. */
  lemma SanitizeKeepsValidName(name: string)
    requires IsValidDeviceName(name)
    ensures SanitizeName(name) == name
  {
    ValidNameIffNoInvalidChar(name);
  }

  /** The vectors of `test_sanitize`. */
  lemma SanitizeExamples()
    ensures SanitizeName("++Purple ++") == "__Purple __"
    ensures SanitizeName("") == "Unknown"
  {
    var r := SanitizeName("++Purple ++");
    assert IsInvalidNameChar('+') && !IsInvalidNameChar('P') && !IsInvalidNameChar(' ');
    assert !IsInvalidNameChar('u') && !IsInvalidNameChar('r') && !IsInvalidNameChar('p');
    assert !IsInvalidNameChar('l') && !IsInvalidNameChar('e');
  }

  /** What loading does to each stored name: an invalid name is sanitised, a valid one kept. */
  function LoadedName(name: string): string {
    if IsValidDeviceName(name) then name else SanitizeName(name)
  }

  /** After loading, every stored name of at most 100 characters is valid, and no valid name was changed. */
  lemma LoadedNameContract(name: string)
    ensures IsValidDeviceName(name) ==> LoadedName(name) == name
    ensures |name| <= 100 ==> IsValidDeviceName(LoadedName(name))
    ensures name != [] ==> |LoadedName(name)| == |name|
  {
    SanitizeNameValid(name);
  }

  /**
   * `apply_custom_names(pairs)` of this store: the pairs are applied in order;
   * a pair with an invalid address or name is skipped, a valid pair is written
   * and marks the store changed.
   */
  function ApplySoft(st: State, pairs: seq<(string, string)>): State
    decreases |pairs|
  {
    if pairs == [] then st
    else
      var prefix := ApplySoft(st, pairs[..|pairs| - 1]);
      var (mac, name) := pairs[|pairs| - 1];
      if IsNormalizedMac(mac) && IsValidDeviceName(name) then State(prefix.names[mac := name], true)
      else prefix
  }

  predicate ValidPair(p: (string, string)) {
    IsNormalizedMac(p.0) && IsValidDeviceName(p.1)
  }

  predicate DistinctAddresses(pairs: seq<(string, string)>) {
    forall i, j :: 0 <= i < j < |pairs| ==> pairs[i].0 != pairs[j].0
  }

  /**
   * Applying custom names never raises: every valid pair's address gets that
   * pair's name (two addresses may get the same one), every other address keeps
   * its entry or stays absent, and the store is marked changed iff it was, or
   * some pair was valid.
   */
  lemma ApplySoftContract(st: State, pairs: seq<(string, string)>)
    requires DistinctAddresses(pairs)
    ensures var st' := ApplySoft(st, pairs);
      && (forall i :: 0 <= i < |pairs| && ValidPair(pairs[i]) ==>
            pairs[i].0 in st'.names && st'.names[pairs[i].0] == pairs[i].1)
      && (forall m :: (forall i :: 0 <= i < |pairs| && ValidPair(pairs[i]) ==> pairs[i].0 != m) ==>
            (m in st'.names <==> m in st.names) && (m in st.names ==> st'.names[m] == st.names[m]))
      && st'.changed == (st.changed || exists i :: 0 <= i < |pairs| && ValidPair(pairs[i]))
  {
    ApplySoftNamed(st, pairs);
    ApplySoftOthers(st, pairs);
    ApplySoftChanged(st, pairs);
  }

  lemma {:induction false} ApplySoftNamed(st: State, pairs: seq<(string, string)>)
    requires DistinctAddresses(pairs)
    ensures forall i :: 0 <= i < |pairs| && ValidPair(pairs[i]) ==>
      pairs[i].0 in ApplySoft(st, pairs).names && ApplySoft(st, pairs).names[pairs[i].0] == pairs[i].1
  {
    if pairs != [] {
      var init := pairs[..|pairs| - 1];
      assert forall i :: 0 <= i < |init| ==> init[i] == pairs[i];
      ApplySoftNamed(st, init);
    }
  }

  lemma {:induction false} ApplySoftOthers(st: State, pairs: seq<(string, string)>)
    ensures forall m :: (forall i :: 0 <= i < |pairs| && ValidPair(pairs[i]) ==> pairs[i].0 != m) ==>
      (m in ApplySoft(st, pairs).names <==> m in st.names)
      && (m in st.names ==> ApplySoft(st, pairs).names[m] == st.names[m])
  {
    if pairs != [] {
      var init := pairs[..|pairs| - 1];
      assert forall i :: 0 <= i < |init| ==> init[i] == pairs[i];
      ApplySoftOthers(st, init);
    }
  }

  lemma {:induction false} ApplySoftChanged(st: State, pairs: seq<(string, string)>)
    ensures ApplySoft(st, pairs).changed == (st.changed || exists i :: 0 <= i < |pairs| && ValidPair(pairs[i]))
  {
    if pairs != [] {
      var init := pairs[..|pairs| - 1];
      assert forall i :: 0 <= i < |init| ==> init[i] == pairs[i];
      ApplySoftChanged(st, init);
      if ApplySoft(st, pairs).changed && !st.changed && !ValidPair(pairs[|pairs| - 1]) {
        var i :| 0 <= i < |init| && ValidPair(init[i]);
        assert ValidPair(pairs[i]);
      }
    }
  }

  /** The vector of `test_apply_custom_names`: invalid pairs are skipped, the duplicate name is kept. */
  lemma ApplySoftExample()
    ensures ApplySoft(State(map["DD7F97FC141E" := "Black"], false),
                      [("AA7F97FC141E", "Red"), ("BB7F97FC141E", "Red"), ("Dummy", "Dummy"), ("CA7F97FC141E", "+++")])
         == State(map["DD7F97FC141E" := "Black", "AA7F97FC141E" := "Red", "BB7F97FC141E" := "Red"], true)
  {
    var p := [("AA7F97FC141E", "Red"), ("BB7F97FC141E", "Red"), ("Dummy", "Dummy"), ("CA7F97FC141E", "+++")];
    assert p[..3] == [p[0], p[1], p[2]] && p[..3][..2] == [p[0], p[1]];
    assert p[..3][..2][..1] == [p[0]] && [p[0]][..0] == [];
    assert IsNormalizedMac("AA7F97FC141E") && IsNormalizedMac("BB7F97FC141E");
    assert "+++"[0] == '+' && !IsNameChar('+');
    assert IsValidDeviceName("Red") && !IsNormalizedMac("Dummy") && !IsValidDeviceName("+++");
    var s0 := State(map["DD7F97FC141E" := "Black"], false);
    assert ApplySoft(s0, [p[0]]) == State(s0.names["AA7F97FC141E" := "Red"], true);
    assert ApplySoft(s0, [p[0], p[1]]) == State(s0.names["AA7F97FC141E" := "Red"]["BB7F97FC141E" := "Red"], true);
    assert ApplySoft(s0, p) == ApplySoft(s0, p[..3]) == ApplySoft(s0, [p[0], p[1]]);
  }

  /**
   * The sanitising pass of loading, one address at a time: every invalid name is
   * replaced by its sanitised form, and `sanitized` says whether any was.
   */
  method SanitizeNames(names0: map<string, string>) returns (names: map<string, string>, sanitized: bool)
    ensures names == map m | m in names0 :: LoadedName(names0[m])
    ensures sanitized == exists m :: m in names0 && !IsValidDeviceName(names0[m])
  {
    names, sanitized := names0, false;
    var todo := names.Keys;
    while todo != {}
      invariant todo <= names0.Keys && names.Keys == names0.Keys
      invariant forall m :: m in names0 ==> names[m] == if m in todo then names0[m] else LoadedName(names0[m])
      invariant sanitized == exists m :: m in names0 && m !in todo && !IsValidDeviceName(names0[m])
      decreases todo
    {
      var m :| m in todo;
      assert names[m] == names0[m];
      if !IsValidDeviceName(names[m]) {
        names := names[m := SanitizeName(names[m])];
        sanitized := true;
        assert m in names0 && m !in todo - {m} && !IsValidDeviceName(names0[m]);
      }
      todo := todo - {m};
    }
  }

  class DeviceConfig {
    var names: map<string, string>
    var sync: seq<SyncRule>
    var changed: bool
    /** The contents written to the file, oldest first. */
    var saved: seq<(map<string, string>, seq<SyncRule>)>

    function State(): Naming.State
      reads this
    {
      Naming.State(names, changed)
    }

    /**
     * Loading the names map and sync list read from the file (empty when the
     * file holds none). Inside an autocommit scope, an empty sync list gets the
     * example rule and every invalid name is sanitised; the scope's exit writes
     * the file once if either happened.
     */
    constructor (names0: map<string, string>, sync0: seq<SyncRule>)
      ensures sync == (if sync0 == [] then [ExampleRule] else sync0)
      ensures names == map m | m in names0 :: LoadedName(names0[m])
      ensures !changed
      ensures saved == (if sync0 == [] || exists m :: m in names0 && !IsValidDeviceName(names0[m])
                        then [(names, sync)] else [])
    {
      names, sync, changed, saved := names0, sync0, false, [];
      new;
      if sync == [] {
        sync := sync + [ExampleRule];
        changed := true;
      }
      var fixed, sanitized := SanitizeNames(names0);
      names := fixed;
      changed := changed || sanitized;
      Flush();
    }

    /** `_assign(base_name)`: the first free name in the order base, base-2, ..., base-1000. */
    method Assign(base: string) returns (r: Result<string, Error>)
      ensures r == AssignSpec(UsedNames(names), base)
    {
      var used := set m | m in names :: names[m];
      if base !in used {
        return Success(base);
      }
      var idx := 1;
      while idx < MaxSuffix
        invariant 1 <= idx <= MaxSuffix
        invariant FirstFree(used, base, 2) == FirstFree(used, base, idx + 1)
      {
        idx := idx + 1;
        var name := Suffixed(base, idx);
        if name !in used {
          return Success(name);
        }
      }
      return Failure(NamesExhausted(base));
    }

    /** `lookup(mac, base_name)`. */
    method Lookup(mac: string, base: string) returns (r: Result<string, Error>)
      modifies this
      ensures (r, State()) == LookupSpec(old(State()), mac, base)
      ensures sync == old(sync) && saved == old(saved)
    {
      if !IsNormalizedMac(mac) {
        return Failure(InvalidMac(mac));
      }
      if mac in names && names[mac] != "" {
        return Success(names[mac]);
      }
      r := Assign(base);
      if r.Success? {
        names := names[mac := r.value];
        changed := true;
      }
    }

    /** `apply_custom_names(pairs)`: skips invalid pairs, see ApplySoft. */
    method ApplyCustomNames(pairs: seq<(string, string)>)
      modifies this
      ensures State() == ApplySoft(old(State()), pairs)
      ensures sync == old(sync) && saved == old(saved)
    {
      var i := 0;
      while i < |pairs|
        invariant 0 <= i <= |pairs|
        invariant State() == ApplySoft(old(State()), pairs[..i])
        invariant sync == old(sync) && saved == old(saved)
      {
        var (mac, name) := pairs[i];
        assert pairs[..i + 1][..i] == pairs[..i];
        if IsNormalizedMac(mac) && IsValidDeviceName(name) {
          names := names[mac := name];
          changed := true;
        }
        i := i + 1;
      }
      assert pairs[..i] == pairs;
    }

    /**
     * The exit of an `autocommit()` scope, which runs whether or not the body
     * raised: the store is written once iff it changed, and the flag is cleared.
     * Nothing inside the scope writes.
     */
    method Flush()
      modifies this
      ensures saved == old(saved) + (if old(changed) then [(names, sync)] else [])
      ensures names == old(names) && sync == old(sync) && !changed
    {
      if changed {
        saved := saved + [(names, sync)];
        changed := false;
      }
    }
  }

  /**
   * The scenario of `test_autocommit`: a lookup that adds an address inside
   * an autocommit scope writes nothing until the scope exits, and then writes
   * exactly once, also flushing any change that was pending on entry.
   */
  method AutocommitLookup(store: DeviceConfig, mac: string, base: string) returns (r: Result<string, Error>)
    modifies store
    ensures var (r', st') := LookupSpec(old(store.State()), mac, base);
      && r == r'
      && store.names == st'.names
      && store.saved == old(store.saved) + (if st'.changed then [(store.names, store.sync)] else [])
    ensures store.sync == old(store.sync)
    ensures !store.changed
  {
    r := store.Lookup(mac, base);
    store.Flush();
  }
}
