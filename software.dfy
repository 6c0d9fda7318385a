/** The installed-applications listing: `foo` reads the entries of one
    `...\CurrentVersion\Uninstall` registry key, and
    `list_installed_applications` merges the three keys it reads and orders
    the result by lower-cased name. The registry is given as values: which
    subkeys a key has, and the string values each subkey holds. */
module Software {
  import opened Wrappers
  import opened Text
  import StableSort

  /** One subkey as `foo` meets it: either enumerating or opening it fails,
      or it is open and holds these named string values. */
  datatype Subkey = Unopenable | Values(values: map<string, string>)

  /** The Uninstall key of one hive and registry view. */
  datatype UninstallKey = Unavailable | Opened(subkeys: seq<Subkey>)

  /** The error `foo` lets escape when the Uninstall key cannot be opened. */
  datatype RegistryError = OpenKeyFailed

  datatype SoftwareEntry = SoftwareEntry(name: string, version: string, publisher: string)

  const DisplayName: string := "DisplayName"
  const DisplayVersion: string := "DisplayVersion"
  const Publisher: string := "Publisher"
  const Undefined: string := "undefined"

  /** A value read with `'undefined'` as the fallback. */
  function ValueOr(values: map<string, string>, name: string): string {
    if name in values then values[name] else Undefined
  }

  /** What one subkey contributes: nothing when it cannot be opened or has
      no DisplayName, otherwise one entry. */
  function EntryOf(k: Subkey): seq<SoftwareEntry> {
    if k.Values? && DisplayName in k.values then
      [SoftwareEntry(k.values[DisplayName], ValueOr(k.values, DisplayVersion), ValueOr(k.values, Publisher))]
    else []
  }

  /** The entries `foo` collects from subkeys `ks`, visited in index order. */
  function Entries(ks: seq<Subkey>): (es: seq<SoftwareEntry>)
    ensures |es| <= |ks|
  {
    if ks == [] then [] else Entries(ks[..|ks| - 1]) + EntryOf(ks[|ks| - 1])
  }

  /** `foo(hive, flag)`: opening the key is not guarded, so its failure
      propagates; every per-subkey failure only skips that subkey. */
  method ReadUninstallKey(key: UninstallKey) returns (r: Result<seq<SoftwareEntry>, RegistryError>)
    ensures r.Failure? <==> key.Unavailable?
    ensures r.Success? ==> r.value == Entries(key.subkeys)
  {
    if key.Unavailable? {
      return Failure(OpenKeyFailed);
    }
    var subkeys := key.subkeys;
    var softwareList: seq<SoftwareEntry> := [];
    for i := 0 to |subkeys|
      invariant softwareList == Entries(subkeys[..i])
    {
      assert subkeys[..i + 1][..i] == subkeys[..i];
      match subkeys[i]
      case Unopenable =>
      case Values(values) =>
        if DisplayName in values {
          var name := values[DisplayName];
          var version := Undefined;
          if DisplayVersion in values {
            version := values[DisplayVersion];
          }
          var publisher := Undefined;
          if Publisher in values {
            publisher := values[Publisher];
          }
          softwareList := softwareList + [SoftwareEntry(name, version, publisher)];
        }
    }
    assert subkeys[..|subkeys|] == subkeys;
    return Success(softwareList);
  }

  /** Reading subkeys split in two reads each part in turn: entries keep
      the index order of their subkeys. */
  lemma {:induction false} EntriesAppend(a: seq<Subkey>, b: seq<Subkey>)
    ensures Entries(a + b) == Entries(a) + Entries(b)
  {
    if b != [] {
      assert (a + b)[..|a + b| - 1] == a + b[..|b| - 1];
      EntriesAppend(a, b[..|b| - 1]);
    } else {
      assert a + b == a;
    }
  }

  /** Subkey `k` holds a DisplayName (possibly empty) and `e` is read from
      it: name as given, version and publisher as given or, each on its own,
      `'undefined'` when absent. */
  predicate Describes(k: Subkey, e: SoftwareEntry) {
    && k.Values? && DisplayName in k.values
    && e.name == k.values[DisplayName]
    && e.version == (if DisplayVersion in k.values then k.values[DisplayVersion] else Undefined)
    && e.publisher == (if Publisher in k.values then k.values[Publisher] else Undefined)
  }

  lemma EntryOfDescribes(k: Subkey, e: SoftwareEntry)
    ensures e in EntryOf(k) <==> Describes(k, e)
  {
  }

  /** An entry is collected exactly when some subkey describes it; subkeys
      that cannot be opened or lack a DisplayName describe nothing. */
  lemma {:induction false} EntriesExactly(ks: seq<Subkey>, e: SoftwareEntry)
    ensures e in Entries(ks) <==> exists i :: 0 <= i < |ks| && Describes(ks[i], e)
  {
    if ks != [] {
      var init, last := ks[..|ks| - 1], ks[|ks| - 1];
      EntriesExactly(init, e);
      assert Entries(ks) == Entries(init) + EntryOf(last);
      EntryOfDescribes(last, e);
      if exists i :: 0 <= i < |ks| && Describes(ks[i], e) {
        var i :| 0 <= i < |ks| && Describes(ks[i], e);
        if i < |init| {
          assert init[i] == ks[i];
        }
      }
      if exists i :: 0 <= i < |init| && Describes(init[i], e) {
        var i :| 0 <= i < |init| && Describes(init[i], e);
        assert ks[i] == init[i];
      }
    }
  }

  /** Python's `x <= y` on the sort key `x['name'].lower()`. */
  predicate NameNoLater(x: SoftwareEntry, y: SoftwareEntry) {
    LexLe(Lower(x.name), Lower(y.name))
  }

  lemma NameNoLaterPreorder()
    ensures StableSort.TotalPreorder(NameNoLater)
  {
    forall x: SoftwareEntry, y: SoftwareEntry, z: SoftwareEntry
      ensures NameNoLater(x, y) || NameNoLater(y, x)
      ensures NameNoLater(x, y) && NameNoLater(y, z) ==> NameNoLater(x, z)
    {
      LexLeTotal(Lower(x.name), Lower(y.name));
      if NameNoLater(x, y) && NameNoLater(y, z) {
        LexLeTransitive(Lower(x.name), Lower(y.name), Lower(z.name));
      }
    }
  }

  /** What `list_installed_applications` tabulates: the 32-bit and 64-bit
      views of HKEY_LOCAL_MACHINE and then HKEY_CURRENT_USER, concatenated
      and stably sorted by lower-cased name; it fails as soon as one of the
      three keys cannot be opened. */
  function Applications(hklm32: UninstallKey, hklm64: UninstallKey, hkcu: UninstallKey)
    : (r: Result<seq<SoftwareEntry>, RegistryError>)
    ensures r.Failure? <==> hklm32.Unavailable? || hklm64.Unavailable? || hkcu.Unavailable?
    ensures r.Success? ==>
      multiset(r.value) == multiset(Entries(hklm32.subkeys) + Entries(hklm64.subkeys) + Entries(hkcu.subkeys))
  {
    if hklm32.Unavailable? || hklm64.Unavailable? || hkcu.Unavailable? then Failure(OpenKeyFailed)
    else
      var merged := Entries(hklm32.subkeys) + Entries(hklm64.subkeys) + Entries(hkcu.subkeys);
      Success(StableSort.Sort(merged, NameNoLater))
  }

  method ListInstalledApplications(hklm32: UninstallKey, hklm64: UninstallKey, hkcu: UninstallKey)
    returns (r: Result<seq<SoftwareEntry>, RegistryError>)
    ensures r == Applications(hklm32, hklm64, hkcu)
  {
    var a := ReadUninstallKey(hklm32);
    if a.Failure? {
      return Failure(OpenKeyFailed);
    }
    var b := ReadUninstallKey(hklm64);
    if b.Failure? {
      return Failure(OpenKeyFailed);
    }
    var c := ReadUninstallKey(hkcu);
    if c.Failure? {
      return Failure(OpenKeyFailed);
    }
    r := Success(StableSort.Sort(a.value + b.value + c.value, NameNoLater));
  }

  /** The listing fails exactly when a key cannot be opened; otherwise it
      is ordered by lower-cased name, holds every collected entry with its
      multiplicity (nothing is de-duplicated), and entries whose names agree
      up to case stay in scope order. */
  lemma ApplicationsListing(hklm32: UninstallKey, hklm64: UninstallKey, hkcu: UninstallKey)
    ensures Applications(hklm32, hklm64, hkcu).Failure?
        <==> hklm32.Unavailable? || hklm64.Unavailable? || hkcu.Unavailable?
    ensures Applications(hklm32, hklm64, hkcu).Success? ==>
      var merged := Entries(hklm32.subkeys) + Entries(hklm64.subkeys) + Entries(hkcu.subkeys);
      var listed := Applications(hklm32, hklm64, hkcu).value;
      && StableSort.Sorted(listed, NameNoLater)
      && multiset(listed) == multiset(merged)
      && |listed| == |Entries(hklm32.subkeys)| + |Entries(hklm64.subkeys)| + |Entries(hkcu.subkeys)|
      && forall y :: StableSort.Ties(listed, NameNoLater, y) == StableSort.Ties(merged, NameNoLater, y)
  {
    if Applications(hklm32, hklm64, hkcu).Success? {
      var merged := Entries(hklm32.subkeys) + Entries(hklm64.subkeys) + Entries(hkcu.subkeys);
      NameNoLaterPreorder();
      StableSort.SortIsStable(merged, NameNoLater);
    }
  }

  /** "Tool" under HKEY_LOCAL_MACHINE (no publisher) and "tool" under
      HKEY_CURRENT_USER are both listed, the machine-wide one first. */
  lemma SameNameInTwoScopes()
    ensures Applications(
              Opened([Values(map[DisplayName := "Tool", DisplayVersion := "1.0"])]),
              Opened([Unopenable]),
              Opened([Values(map[DisplayName := "tool", DisplayVersion := "2.0", Publisher := "Acme"])]))
         == Success([SoftwareEntry("Tool", "1.0", Undefined), SoftwareEntry("tool", "2.0", "Acme")])
  {
    var t1 := SoftwareEntry("Tool", "1.0", Undefined);
    var t2 := SoftwareEntry("tool", "2.0", "Acme");
    var k1 := Values(map[DisplayName := "Tool", DisplayVersion := "1.0"]);
    var k3 := Values(map[DisplayName := "tool", DisplayVersion := "2.0", Publisher := "Acme"]);
    assert EntryOf(k1) == [t1];
    assert EntryOf(k3) == [t2];
    assert Entries([k1]) == Entries([]) + EntryOf(k1);
    assert Entries([Unopenable]) == [];
    assert Entries([k3]) == Entries([]) + EntryOf(k3);
    assert Entries([k1]) + Entries([Unopenable]) + Entries([k3]) == [t1, t2];
    SameNameTies(t1, t2);
    assert Applications(Opened([k1]), Opened([Unopenable]), Opened([k3]))
        == Success(StableSort.Sort([t1, t2], NameNoLater));
  }

  lemma SameNameTies(t1: SoftwareEntry, t2: SoftwareEntry)
    requires t1.name == "Tool" && t2.name == "tool"
    ensures StableSort.Sort([t1, t2], NameNoLater) == [t1, t2]
  {
    assert Lower(t1.name) == Lower(t2.name);
    LexLeReflexive(Lower(t1.name));
    assert NameNoLater(t1, t2);
    NameNoLaterPreorder();
    StableSort.SortedInputUnchanged([t1, t2], NameNoLater);
  }
}
