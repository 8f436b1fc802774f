/**
 * The naming rule shared by the device name registry (`brewblox_tilt/names.py`)
 * and the device configuration store (`brewblox_tilt/stored/devices.py`): how a
 * free name is chosen for a new device, and what a lookup of an address does to
 * the map from normalised address to device name.
 */
module Naming {
  import opened Wrappers
  import opened Text
  import opened Const

  /** The exceptions of the naming code: two ValueErrors and the RuntimeError of an exhausted search. */
  datatype Error = InvalidMac(mac: string) | InvalidName(name: string) | NamesExhausted(base: string)

  /** The largest suffix tried before the search for a free name gives up. */
  const MaxSuffix: nat := 1000

  /** `f'{base}-{k}'`. */
  function Suffixed(base: string, k: nat): (r: string)
    ensures |r| > |base| && r[..|base|] == base
  {
    base + "-" + NatToString(k)
  }

  lemma SuffixedInjective(base: string, j: nat, k: nat)
    requires Suffixed(base, j) == Suffixed(base, k)
    ensures j == k
  {
    var a, b := Suffixed(base, j), Suffixed(base, k);
    assert a[|base| + 1..] == NatToString(j);
    assert b[|base| + 1..] == NatToString(k);
    NatToStringInjective(j, k);
  }

  /** The names already given to some address. */
  function UsedNames(names: map<string, string>): (r: set<string>)
    ensures forall m :: m in names ==> names[m] in r
    ensures forall n :: n in r ==> exists m :: m in names && names[m] == n
  {
    set m | m in names :: names[m]
  }

  /** The first suffix in k..MaxSuffix whose suffixed name is unused, if any. */
  function FirstFree(used: set<string>, base: string, k: nat): (r: Option<nat>)
    requires k >= 2
    ensures r.Some? ==> k <= r.value <= MaxSuffix && Suffixed(base, r.value) !in used
    ensures r.Some? ==> forall j :: k <= j < r.value ==> Suffixed(base, j) in used
    ensures r.None? <==> forall j :: k <= j <= MaxSuffix ==> Suffixed(base, j) in used
    decreases MaxSuffix + 1 - k
  {
    if k > MaxSuffix then None
    else if Suffixed(base, k) !in used then Some(k)
    else FirstFree(used, base, k + 1)
  }

  /**
   * `_assign(base)`: the base name itself when no address uses it, otherwise
   * `base-k` for the smallest k in 2..1000 whose name is unused; when all of
   * those are taken the search gives up with an error.
   */
  function AssignSpec(used: set<string>, base: string): Result<string, Error> {
    if base !in used then Success(base)
    else match FirstFree(used, base, 2)
      case Some(k) => Success(Suffixed(base, k))
      case None => Failure(NamesExhausted(base))
  }

  /**
   * An assigned name is never one already in use; it is the base name exactly
   * when that is free, and otherwise the suffixed name with the smallest free
   * suffix.
   */
  lemma AssignContract(used: set<string>, base: string)
    ensures AssignSpec(used, base).Success? ==> AssignSpec(used, base).value !in used
    ensures AssignSpec(used, base) == Success(base) <==> base !in used
    ensures base in used && AssignSpec(used, base).Success? ==>
      exists k :: 2 <= k <= MaxSuffix && AssignSpec(used, base).value == Suffixed(base, k)
        && forall j :: 2 <= j < k ==> Suffixed(base, j) in used
  {
    if base in used {
      assert Suffixed(base, 2) != base;
      var r := FirstFree(used, base, 2);
      if r.Some? {
        assert Suffixed(base, r.value) != base;
      }
    }
  }

  /** The search gives up exactly when the base name and all 999 suffixed names are taken. */
  lemma AssignExhaustedIff(used: set<string>, base: string)
    ensures AssignSpec(used, base).Failure? <==>
      base in used && forall j :: 2 <= j <= MaxSuffix ==> Suffixed(base, j) in used
  {
  }

  /** With fewer than 1000 names in use, a name can always be found. */
  lemma AssignSucceedsWhenFewNames(used: set<string>, base: string)
    requires |used| < 1000
    ensures AssignSpec(used, base).Success?
  {
    if AssignSpec(used, base).Failure? {
      var suffixed := set k | 2 <= k < MaxSuffix + 1 :: Suffixed(base, k);
      SuffixSetSize(base, MaxSuffix + 1);
      assert base !in suffixed;
      var taken := {base} + suffixed;
      assert |taken| == 1000;
      assert taken <= used;
      SubsetSize(taken, used);
      assert false;
    }
  }

  lemma {:induction false} SuffixSetSize(base: string, n: nat)
    requires n >= 2
    ensures |set k | 2 <= k < n :: Suffixed(base, k)| == n - 2
  {
    var b := set k | 2 <= k < n :: Suffixed(base, k);
    if n == 2 {
      assert b == {};
    } else {
      SuffixSetSize(base, n - 1);
      var a := set k | 2 <= k < n - 1 :: Suffixed(base, k);
      assert b == a + {Suffixed(base, n - 1)};
      if Suffixed(base, n - 1) in a {
        var k :| 2 <= k < n - 1 && Suffixed(base, k) == Suffixed(base, n - 1);
        SuffixedInjective(base, k, n - 1);
      }
    }
  }

  lemma SubsetSize<T>(a: set<T>, b: set<T>)
    requires a <= b
    ensures |a| <= |b|
  {
    assert b == a + (b - a);
  }

  /** The vectors of `test_lookup`: Red is free, then taken, then Red-2 is taken too. */
  lemma AssignExamples()
    ensures AssignSpec({"Black"}, "Red") == Success("Red")
    ensures AssignSpec({"Red", "Black"}, "Red") == Success("Red-2")
    ensures AssignSpec({"Red", "Black", "Red-2"}, "Red") == Success("Red-3")
  {
    assert NatToString(2) == "2" && NatToString(3) == "3";
    assert Suffixed("Red", 2) == "Red-2" && Suffixed("Red", 3) == "Red-3";
    assert FirstFree({"Red", "Black"}, "Red", 2) == Some(2);
    assert FirstFree({"Red", "Black", "Red-2"}, "Red", 3) == Some(3);
  }

  /** The address-to-name map with its dirty flag. */
  datatype State = State(names: map<string, string>, changed: bool)

  /**
   * `lookup(mac, base)`: a non-normalised address is refused; an address with
   * a non-empty stored name gets that name; any other address is given a
   * freshly assigned name, which is stored and marks the map changed.
   */
  function LookupSpec(st: State, mac: string, base: string): (Result<string, Error>, State) {
    if !IsNormalizedMac(mac) then (Failure(InvalidMac(mac)), st)
    else if mac in st.names && st.names[mac] != "" then (Success(st.names[mac]), st)
    else match AssignSpec(UsedNames(st.names), base)
      case Failure(e) => (Failure(e), st)
      case Success(n) => (Success(n), State(st.names[mac := n], true))
  }

  /** A refused lookup, and a lookup of a named address, change nothing. */
  lemma LookupUnchanged(st: State, mac: string, base: string)
    ensures !IsNormalizedMac(mac) ==> LookupSpec(st, mac, base) == (Failure(InvalidMac(mac)), st)
    ensures IsNormalizedMac(mac) && mac in st.names && st.names[mac] != "" ==>
      LookupSpec(st, mac, base) == (Success(st.names[mac]), st)
    ensures LookupSpec(st, mac, base).0.Failure? ==> LookupSpec(st, mac, base).1 == st
  {
  }

  /**
   * A lookup that succeeds stores its answer under the address; when it adds
   * an entry it adds exactly that one, with a name no other address had, and
   * marks the map changed.
   */
  lemma LookupStores(st: State, mac: string, base: string)
    ensures var (r, st') := LookupSpec(st, mac, base);
      r.Success? ==> mac in st'.names && st'.names[mac] == r.value
    ensures var (r, st') := LookupSpec(st, mac, base);
      st' != st ==>
        && r.Success? && st'.changed
        && st'.names.Keys == st.names.Keys + {mac}
        && st'.names[mac] == r.value
        && r.value !in UsedNames(st.names)
        && (forall m :: m in st.names && m != mac ==> st'.names[m] == st.names[m])
  {
    var (r, st') := LookupSpec(st, mac, base);
    if IsNormalizedMac(mac) && !(mac in st.names && st.names[mac] != "") {
      AssignContract(UsedNames(st.names), base);
    }
  }

  /** Looking the same address up twice gives the same name, and the second lookup changes nothing. */
  lemma LookupRepeats(st: State, mac: string, base: string, base': string)
    requires LookupSpec(st, mac, base).0.Success?
    requires LookupSpec(st, mac, base).0.value != ""
    ensures var (r, st') := LookupSpec(st, mac, base);
      LookupSpec(st', mac, base') == (r, st')
  {
    var (r, st') := LookupSpec(st, mac, base);
    LookupStores(st, mac, base);
  }

  /** Different addresses have different names. */
  predicate DistinctNames(names: map<string, string>) {
    forall m1, m2 :: m1 in names && m2 in names && m1 != m2 ==> names[m1] != names[m2]
  }

  /** Lookups never give two addresses the same name. */
  lemma LookupKeepsNamesDistinct(st: State, mac: string, base: string)
    requires DistinctNames(st.names)
    ensures DistinctNames(LookupSpec(st, mac, base).1.names)
  {
    LookupStores(st, mac, base);
  }
}
