/**
 * The device name registry of `brewblox_tilt/names.py`: a map from normalised
 * address to device name kept in a YAML file, with a flag that says whether the
 * map differs from the file. The file itself is modelled by the list of the
 * maps written to it.
 */
module Names {
  import opened Wrappers
  import opened Const
  import opened Naming

  /** One pair of `apply_custom_names`: an address is refused before its name is looked at. */
  function ApplyPair(st: State, mac: string, name: string): (r: (Option<Error>, State))
    ensures r.0.None? <==> IsNormalizedMac(mac) && IsValidDeviceName(name)
    ensures r.0.Some? ==> r.1 == st
    ensures r.0.None? ==> r.1 == State(st.names[mac := name], true)
    ensures !IsNormalizedMac(mac) ==> r.0 == Some(InvalidMac(mac))
  {
    if !IsNormalizedMac(mac) then (Some(InvalidMac(mac)), st)
    else if !IsValidDeviceName(name) then (Some(InvalidName(name)), st)
    else (None, State(st.names[mac := name], true))
  }

  /**
   * `apply_custom_names(pairs)` of this registry: the pairs are applied in
   * order, and the first invalid address or name raises, leaving the pairs
   * before it applied.
   */
  function ApplyStrict(st: State, pairs: seq<(string, string)>): (Option<Error>, State)
    decreases |pairs|
  {
    if pairs == [] then (None, st)
    else
      var prefix := ApplyStrict(st, pairs[..|pairs| - 1]);
      if prefix.0.Some? then prefix
      else ApplyPair(prefix.1, pairs[|pairs| - 1].0, pairs[|pairs| - 1].1)
  }

  /** Once a prefix of the pairs has raised, the rest of the pairs are never looked at. */
  lemma {:induction false} ApplyStrictErrorSticks(st: State, pairs: seq<(string, string)>, n: nat)
    requires n <= |pairs|
    requires ApplyStrict(st, pairs[..n]).0.Some?
    ensures ApplyStrict(st, pairs) == ApplyStrict(st, pairs[..n])
    decreases |pairs| - n
  {
    if n < |pairs| {
      var init := pairs[..|pairs| - 1];
      assert init[..n] == pairs[..n];
      ApplyStrictErrorSticks(st, init, n);
    } else {
      assert pairs[..n] == pairs;
    }
  }

  predicate ValidPair(p: (string, string)) {
    IsNormalizedMac(p.0) && IsValidDeviceName(p.1)
  }

  predicate DistinctAddresses(pairs: seq<(string, string)>) {
    forall i, j :: 0 <= i < j < |pairs| ==> pairs[i].0 != pairs[j].0
  }

  /**
   * When every pair is valid nothing is raised; each pair's address then has
   * that pair's name, whatever names other addresses have, and the map is
   * marked changed if there was any pair.
   */
  lemma {:induction false} ApplyStrictAllValid(st: State, pairs: seq<(string, string)>)
    requires DistinctAddresses(pairs)
    requires forall i :: 0 <= i < |pairs| ==> ValidPair(pairs[i])
    ensures var (err, st') := ApplyStrict(st, pairs);
      && err.None?
      && (forall i :: 0 <= i < |pairs| ==> pairs[i].0 in st'.names && st'.names[pairs[i].0] == pairs[i].1)
      && st'.changed == (st.changed || pairs != [])
  {
    if pairs != [] {
      var init := pairs[..|pairs| - 1];
      ApplyStrictAllValid(st, init);
      var st' := ApplyStrict(st, pairs).1;
      forall i | 0 <= i < |pairs|
        ensures pairs[i].0 in st'.names && st'.names[pairs[i].0] == pairs[i].1
      {
        if i < |pairs| - 1 {
          assert init[i] == pairs[i];
        }
      }
    }
  }

  /** Applying valid pairs changes no address outside the pairs and adds no other address. */
  lemma {:induction false} ApplyStrictOthersKept(st: State, pairs: seq<(string, string)>)
    requires forall i :: 0 <= i < |pairs| ==> ValidPair(pairs[i])
    ensures var st' := ApplyStrict(st, pairs).1;
      && (forall m :: m in st.names && (forall i :: 0 <= i < |pairs| ==> pairs[i].0 != m) ==>
            m in st'.names && st'.names[m] == st.names[m])
      && (forall m :: m in st'.names ==> m in st.names || exists i :: 0 <= i < |pairs| && pairs[i].0 == m)
  {
    if pairs != [] {
      var init := pairs[..|pairs| - 1];
      ApplyStrictOthersKept(st, init);
      NoErrorWhileValid(st, init);
      var st' := ApplyStrict(st, pairs).1;
      forall m | m in st.names && (forall i :: 0 <= i < |pairs| ==> pairs[i].0 != m)
        ensures m in st'.names && st'.names[m] == st.names[m]
      {
        assert forall i :: 0 <= i < |init| ==> init[i] == pairs[i];
      }
      forall m | m in st'.names
        ensures m in st.names || exists i :: 0 <= i < |pairs| && pairs[i].0 == m
      {
        if m != pairs[|pairs| - 1].0 && m !in st.names {
          var i :| 0 <= i < |init| && init[i].0 == m;
          assert pairs[i].0 == m;
        }
      }
    }
  }

  /**
   * The raising variant is not atomic: when the pair at index k is the first
   * invalid one, the call raises that pair's error and the state is the one
   * reached after the pairs before k.
   */
  lemma ApplyStrictStopsAtFirstInvalid(st: State, pairs: seq<(string, string)>, k: nat)
    requires k < |pairs| && !ValidPair(pairs[k])
    requires forall i :: 0 <= i < k ==> ValidPair(pairs[i])
    ensures ApplyStrict(st, pairs[..k]).0.None?
    ensures ApplyStrict(st, pairs).0 == ApplyPair(ApplyStrict(st, pairs[..k]).1, pairs[k].0, pairs[k].1).0
    ensures ApplyStrict(st, pairs).1 == ApplyStrict(st, pairs[..k]).1
  {
    NoErrorWhileValid(st, pairs[..k]);
    assert pairs[..k + 1][..k] == pairs[..k];
    ApplyStrictErrorSticks(st, pairs, k + 1);
  }

  lemma {:induction false} NoErrorWhileValid(st: State, pairs: seq<(string, string)>)
    requires forall i :: 0 <= i < |pairs| ==> ValidPair(pairs[i])
    ensures ApplyStrict(st, pairs).0.None?
  {
    if pairs != [] {
      NoErrorWhileValid(st, pairs[..|pairs| - 1]);
    }
  }

  /**
   * A valid pair applied before an invalid one stays applied, and two
   * addresses may be given the same name.
   */
  lemma ApplyStrictExamples()
    ensures ApplyStrict(State(map[], false), [("AA7F97FC141E", "Red"), ("Dummy", "Dummy")])
         == (Some(InvalidMac("Dummy")), State(map["AA7F97FC141E" := "Red"], true))
    ensures ApplyStrict(State(map[], false), [("AA7F97FC141E", "Red"), ("BB7F97FC141E", "Red")])
         == (None, State(map["AA7F97FC141E" := "Red", "BB7F97FC141E" := "Red"], true))
  {
    var a := [("AA7F97FC141E", "Red"), ("Dummy", "Dummy")];
    var b := [("AA7F97FC141E", "Red"), ("BB7F97FC141E", "Red")];
    assert a[..1] == [a[0]] && [a[0]][..0] == [];
    assert b[..1] == [b[0]] && [b[0]][..0] == [];
    assert IsNormalizedMac("AA7F97FC141E") && IsNormalizedMac("BB7F97FC141E");
    assert IsValidDeviceName("Red");
    assert !IsNormalizedMac("Dummy");
  }

  class DeviceNameRegistry {
    var names: map<string, string>
    var changed: bool
    /** The maps written to the file, oldest first. */
    var saved: seq<map<string, string>>

    function State(): Naming.State
      reads this
    {
      Naming.State(names, changed)
    }

    /**
     * Loading: `file` is the names map read from an existing file (empty when
     * the file holds none), or None when there is no file yet, in which case
     * the registry starts empty and changed, so that the next commit creates
     * the file.
     */
    constructor (file: Option<map<string, string>>)
      ensures file.None? ==> names == map[] && changed
      ensures file.Some? ==> names == file.value && !changed
      ensures saved == []
    {
      saved := [];
      match file
      case None =>
        names, changed := map[], true;
      case Some(m) =>
        names, changed := m, false;
    }

    /** `_assign(color)`: the first free name in the order color, color-2, ..., color-1000. */
    method Assign(color: string) returns (r: Result<string, Error>)
      ensures r == AssignSpec(UsedNames(names), color)
    {
      var used := set m | m in names :: names[m];
      if color !in used {
        return Success(color);
      }
      var idx := 1;
      while idx < MaxSuffix
        invariant 1 <= idx <= MaxSuffix
        invariant FirstFree(used, color, 2) == FirstFree(used, color, idx + 1)
      {
        idx := idx + 1;
        var name := Suffixed(color, idx);
        if name !in used {
          return Success(name);
        }
      }
      return Failure(NamesExhausted(color));
    }

    /** `lookup(mac, color)`. */
    method Lookup(mac: string, color: string) returns (r: Result<string, Error>)
      modifies this
      ensures (r, State()) == LookupSpec(old(State()), mac, color)
      ensures saved == old(saved)
    {
      if !IsNormalizedMac(mac) {
        return Failure(InvalidMac(mac));
      }
      if mac in names && names[mac] != "" {
        return Success(names[mac]);
      }
      r := Assign(color);
      if r.Success? {
        names := names[mac := r.value];
        changed := true;
      }
    }

    /** `apply_custom_names(pairs)`: raises at the first invalid pair, see ApplyStrict. */
    method ApplyCustomNames(pairs: seq<(string, string)>) returns (err: Option<Error>)
      modifies this
      ensures (err, State()) == ApplyStrict(old(State()), pairs)
      ensures saved == old(saved)
    {
      var i := 0;
      while i < |pairs|
        invariant 0 <= i <= |pairs|
        invariant ApplyStrict(old(State()), pairs[..i]) == (None, State())
        invariant saved == old(saved)
      {
        var (mac, name) := pairs[i];
        assert pairs[..i + 1][..i] == pairs[..i];
        if !IsNormalizedMac(mac) {
          ApplyStrictErrorSticks(old(State()), pairs, i + 1);
          return Some(InvalidMac(mac));
        }
        if !IsValidDeviceName(name) {
          ApplyStrictErrorSticks(old(State()), pairs, i + 1);
          return Some(InvalidName(name));
        }
        names := names[mac := name];
        changed := true;
        i := i + 1;
      }
      assert pairs[..i] == pairs;
      return None;
    }

    /** `commit()`: writes the map iff it changed since the last write, then clears the flag. */
    method Commit()
      modifies this
      ensures saved == old(saved) + (if old(changed) then [names] else [])
      ensures names == old(names) && !changed
    {
      if changed {
        saved := saved + [names];
        changed := false;
      }
    }
  }

  /** A second commit right after a first one writes nothing. */
  method CommitTwice(registry: DeviceNameRegistry)
    modifies registry
    ensures registry.saved == old(registry.saved) + (if old(registry.changed) then [old(registry.names)] else [])
    ensures registry.names == old(registry.names) && !registry.changed
  {
    registry.Commit();
    registry.Commit();
  }
}
