/**
 The dependency map of a version: `dependencies_hash=` resolves `package name => specifier` entries
 against the store and replaces the version's edges with the result; `dependencies_hash` turns the
 edges back into a `package name => number` map.
 */
module Dependencies {
  import opened Wrappers
  import opened Specifier
  import opened Registry
  import opened Versions

  /** `hash || {}`: a `nil` map is read as an empty one. */
  function Entries(h: Option<map<string, string>>): map<string, string>
  {
    h.GetOr(map[])
  }

  /**
   What an entry is meant to denote: `v` is a version of a package called `name` whose number is the
   specifier with its leading operator stripped.
   */
  ghost predicate Resolves(s: Store, name: string, spec: string, v: VersionRow)
  {
    v in s.versions &&
    exists p :: p in s.packages && p.name == name && v.packageId == Some(p.id) && v.number == Normalize(spec)
  }

  /** One entry of the writer: find the package by name, then its version by the normalised number. */
  function ResolveEntry(s: Store, name: string, spec: string): (r: Option<VersionRow>)
    ensures r.Some? ==> Resolves(s, name, spec, r.value)
  {
    match FindPackageByName(s, name)
    case None => None
    case Some(p) => FindVersion(s, p.id, Normalize(spec))
  }

  /** In a well-formed store an entry finds the version it denotes, whenever there is one. */
  lemma ResolveEntryComplete(s: Store, name: string, spec: string, v: VersionRow)
    requires WellFormed(s)
    requires Resolves(s, name, spec, v)
    ensures ResolveEntry(s, name, spec) == Some(v)
  {
    KeysIdentifyRows(s);
    var p :| p in s.packages && p.name == name && v.packageId == Some(p.id) && v.number == Normalize(spec);
    assert FindPackageByName(s, name) == Some(p);
  }

  /** The ids of the versions the entries resolve to; unresolvable entries are dropped without error. */
  function Resolve(s: Store, h: Option<map<string, string>>): (edges: set<nat>)
    ensures forall id :: id in edges ==>
      exists name, v :: name in Entries(h) && Resolves(s, name, Entries(h)[name], v) && v.id == id
    ensures h.None? ==> edges == {}
  {
    var m := Entries(h);
    set name | name in m && ResolveEntry(s, name, m[name]).Some? :: ResolveEntry(s, name, m[name]).value.id
  }

  /**
   `dependencies_hash=`: the new edges are exactly the versions some entry denotes (every such version
   when the store is well formed), the old edges are discarded, and nothing else about the version changes.
   */
  function SetDependencies(v: Version, s: Store, h: Option<map<string, string>>): (r: Version)
    ensures r.(dependencies := v.dependencies) == v
    ensures forall id :: id in r.dependencies ==>
      exists name, w :: name in Entries(h) && Resolves(s, name, Entries(h)[name], w) && w.id == id
    ensures WellFormed(s) ==> forall name, w :: name in Entries(h) && Resolves(s, name, Entries(h)[name], w) ==> w.id in r.dependencies
    ensures h.None? ==> r.dependencies == {}
  {
    var m := Entries(h);
    var edges := Resolve(s, h);
    assert WellFormed(s) ==> forall name, w :: name in m && Resolves(s, name, m[name], w) ==> w.id in edges by {
      if WellFormed(s) {
        forall name, w | name in m && Resolves(s, name, m[name], w) ensures w.id in edges {
          ResolveEntryComplete(s, name, m[name], w);
        }
      }
    }
    v.(dependencies := edges)
  }

  /** Writing the map twice is writing it once, whatever the edges were before. */
  lemma SetDependenciesIdempotent(v: Version, w: Version, s: Store, h: Option<map<string, string>>)
    requires w.(dependencies := v.dependencies) == v
    ensures SetDependencies(SetDependencies(v, s, h), s, h) == SetDependencies(w, s, h)
  {
  }

  /** `version.package.name` on a dependent version whose package is gone raises. */
  datatype ReadError = MissingPackage(versionId: nat)

  /** Row `i` of the versions table is a dependent version and its package is called `name`. */
  ghost predicate DependentNamed(s: Store, edges: set<nat>, i: int, name: string)
  {
    && 0 <= i < |s.versions|
    && s.versions[i].id in edges
    && PackageOf(s, s.versions[i].packageId).Some?
    && PackageOf(s, s.versions[i].packageId).value.name == name
  }

  /** The reader's loop over the first `n` rows of the versions table, later rows overwriting earlier ones. */
  function ReadRows(s: Store, edges: set<nat>, n: nat): Result<map<string, string>, ReadError>
    requires n <= |s.versions|
  {
    if n == 0 then Success(map[])
    else
      match ReadRows(s, edges, n - 1)
      case Failure(e) => Failure(e)
      case Success(m) =>
        var row := s.versions[n - 1];
        if row.id !in edges then Success(m)
        else
          match PackageOf(s, row.packageId)
          case None => Failure(MissingPackage(row.id))
          case Some(p) => Success(m[p.name := row.number])
  }

  /** The loop over the first `n` rows succeeds exactly when none of those dependent rows has lost its package. */
  lemma {:induction false} ReadRowsSucceeds(s: Store, edges: set<nat>, n: nat)
    requires n <= |s.versions|
    ensures ReadRows(s, edges, n).Success? <==>
      forall i :: 0 <= i < n && s.versions[i].id in edges ==> PackageOf(s, s.versions[i].packageId).Some?
  {
    if n > 0 {
      ReadRowsSucceeds(s, edges, n - 1);
    }
  }

  /** The keys read from the first `n` rows are the package names of the dependent rows among them. */
  lemma {:induction false} ReadRowsKeys(s: Store, edges: set<nat>, n: nat)
    requires n <= |s.versions|
    requires ReadRows(s, edges, n).Success?
    ensures forall name :: name in ReadRows(s, edges, n).value <==> exists i :: i < n && DependentNamed(s, edges, i, name)
  {
    if n > 0 {
      ReadRowsKeys(s, edges, n - 1);
      var row := s.versions[n - 1];
      if row.id in edges {
        assert DependentNamed(s, edges, n - 1, PackageOf(s, row.packageId).value.name);
      }
    }
  }

  /** Row `i` is the last of the first `n` rows that is a dependent version of a package called `name`. */
  ghost predicate LastDependent(s: Store, edges: set<nat>, n: nat, i: int, name: string)
  {
    i < n && DependentNamed(s, edges, i, name) && forall j :: i < j < n ==> !DependentNamed(s, edges, j, name)
  }

  /** Each key read from the first `n` rows holds the number of the last dependent row of that name. */
  lemma {:induction false} ReadRowsLastWins(s: Store, edges: set<nat>, n: nat)
    requires n <= |s.versions|
    requires ReadRows(s, edges, n).Success?
    ensures forall name :: name in ReadRows(s, edges, n).value ==>
      exists i :: LastDependent(s, edges, n, i, name) && ReadRows(s, edges, n).value[name] == s.versions[i].number
  {
    if n > 0 {
      ReadRowsLastWins(s, edges, n - 1);
      var r := ReadRows(s, edges, n).value;
      var prev := ReadRows(s, edges, n - 1).value;
      var row := s.versions[n - 1];
      forall name | name in r
        ensures exists i :: LastDependent(s, edges, n, i, name) && r[name] == s.versions[i].number
      {
        if DependentNamed(s, edges, n - 1, name) {
          assert LastDependent(s, edges, n, n - 1, name);
        } else {
          assert name in prev;
          var i :| LastDependent(s, edges, n - 1, i, name) && prev[name] == s.versions[i].number;
          assert LastDependent(s, edges, n, i, name);
        }
      }
    }
  }

  /**
   `dependencies_hash`: one key per package among the dependent versions, mapped to the number of a
   dependent version of that package; it fails only when a dependent version has lost its package,
   which cannot happen in a well-formed store.
   */
  function DependenciesHash(v: Version, s: Store): (r: Result<map<string, string>, ReadError>)
    ensures r.Success? <==> forall w :: w in s.versions && w.id in v.dependencies ==> PackageOf(s, w.packageId).Some?
    ensures WellFormed(s) ==> r.Success?
    ensures r.Success? ==> forall name :: name in r.value <==> exists i :: DependentNamed(s, v.dependencies, i, name)
    ensures r.Success? ==> forall name :: name in r.value ==>
      exists i :: DependentNamed(s, v.dependencies, i, name) && r.value[name] == s.versions[i].number
  {
    var n := |s.versions|;
    ReadRowsSucceeds(s, v.dependencies, n);
    if ReadRows(s, v.dependencies, n).Success? then
      ReadRowsKeys(s, v.dependencies, n);
      ReadRowsLastWins(s, v.dependencies, n);
      ReadRows(s, v.dependencies, n)
    else
      ReadRows(s, v.dependencies, n)
  }

  /** What reading back a written map gives: the resolvable entries, with their specifiers normalised. */
  ghost function Expected(s: Store, h: Option<map<string, string>>): map<string, string>
  {
    var m := Entries(h);
    map name | name in m && (exists w :: Resolves(s, name, m[name], w)) :: Normalize(m[name])
  }

  /** A dependent version after a write is the version its own package's entry denotes. */
  lemma DependentIsResolved(s: Store, h: Option<map<string, string>>, i: int, name: string)
    requires WellFormed(s)
    requires DependentNamed(s, Resolve(s, h), i, name)
    ensures name in Entries(h) && Resolves(s, name, Entries(h)[name], s.versions[i])
  {
    KeysIdentifyRows(s);
    var m := Entries(h);
    var name', w :| name' in m && Resolves(s, name', m[name'], w) && w.id == s.versions[i].id;
    assert w == s.versions[i];
    var p :| p in s.packages && p.name == name' && w.packageId == Some(p.id) && w.number == Normalize(m[name']);
    PackageOfOwnId(s, p);
  }

  /** Every resolvable entry shows up as a dependent version of the entry's package after a write. */
  lemma ResolvedIsDependent(s: Store, h: Option<map<string, string>>, name: string, w: VersionRow)
    requires WellFormed(s)
    requires name in Entries(h) && Resolves(s, name, Entries(h)[name], w)
    ensures exists i :: DependentNamed(s, Resolve(s, h), i, name)
  {
    ResolveEntryComplete(s, name, Entries(h)[name], w);
    var p :| p in s.packages && p.name == name && w.packageId == Some(p.id) && w.number == Normalize(Entries(h)[name]);
    PackageOfOwnId(s, p);
    var i :| 0 <= i < |s.versions| && s.versions[i] == w;
    assert DependentNamed(s, Resolve(s, h), i, name);
  }

  /**
   The round trip: in a well-formed store, writing a map and reading it back gives exactly the
   resolvable entries of the map, each with its specifier normalised to the bare number.
   */
  lemma RoundTrip(v: Version, s: Store, h: Option<map<string, string>>)
    requires WellFormed(s)
    ensures DependenciesHash(SetDependencies(v, s, h), s) == Success(Expected(s, h))
  {
    var written := SetDependencies(v, s, h);
    assert written.dependencies == Resolve(s, h);
    var got := DependenciesHash(written, s).value;
    ReadBackWithinExpected(s, h, got);
    ExpectedWithinReadBack(s, h, written, got);
    SameEntries(got, Expected(s, h));
  }

  /** Two maps with the same entries are equal. */
  lemma SameEntries<K, V>(a: map<K, V>, b: map<K, V>)
    requires forall k :: k in a ==> k in b && a[k] == b[k]
    requires forall k :: k in b ==> k in a
    ensures a == b
  {
  }

  lemma ReadBackWithinExpected(s: Store, h: Option<map<string, string>>, got: map<string, string>)
    requires WellFormed(s)
    requires forall name :: name in got ==>
      exists i :: DependentNamed(s, Resolve(s, h), i, name) && got[name] == s.versions[i].number
    ensures forall name :: name in got ==> name in Expected(s, h) && got[name] == Expected(s, h)[name]
  {
    forall name | name in got ensures name in Expected(s, h) && got[name] == Expected(s, h)[name] {
      var i :| DependentNamed(s, Resolve(s, h), i, name) && got[name] == s.versions[i].number;
      DependentIsExpected(s, h, i, name);
    }
  }

  /** The number a dependent version contributes is the one its entry is expected to read back as. */
  lemma DependentIsExpected(s: Store, h: Option<map<string, string>>, i: int, name: string)
    requires WellFormed(s)
    requires DependentNamed(s, Resolve(s, h), i, name)
    ensures name in Expected(s, h) && Expected(s, h)[name] == s.versions[i].number
  {
    DependentIsResolved(s, h, i, name);
  }

  lemma ExpectedWithinReadBack(s: Store, h: Option<map<string, string>>, written: Version, got: map<string, string>)
    requires WellFormed(s)
    requires written.dependencies == Resolve(s, h)
    requires DependenciesHash(written, s) == Success(got)
    ensures forall name :: name in Expected(s, h) ==> name in got
  {
    forall name | name in Expected(s, h) ensures name in got {
      var w :| Resolves(s, name, Entries(h)[name], w);
      ResolvedIsDependent(s, h, name, w);
    }
  }

  /** The one-package, one-version store of the example. */
  function ExampleStore(): Store
  {
    Store([Package(1, "foo", 0)], [VersionRow(7, Some(1), "1.2.0")])
  }

  lemma ExampleStoreWellFormed()
    ensures WellFormed(ExampleStore())
  {
    var s := ExampleStore();
    assert PackageOf(s, Some(1)).Some? by {
      assert s.packages[0] in s.packages;
    }
  }

  lemma ExampleExpected(h: Option<map<string, string>>)
    requires h == Some(map["foo" := ">=1.2.0", "bar" := "1.0.0"])
    ensures Expected(ExampleStore(), h) == map["foo" := "1.2.0"]
  {
    var s := ExampleStore();
    NormalizeStripsOperator();
    assert Resolves(s, "foo", ">=1.2.0", s.versions[0]) by {
      assert s.packages[0] in s.packages;
    }
    assert forall w :: !Resolves(s, "bar", "1.0.0", w);
    var e := Expected(s, h);
    assert Entries(h) == map["foo" := ">=1.2.0", "bar" := "1.0.0"];
    assert "foo" in e && e["foo"] == "1.2.0";
    assert "bar" !in e;
    assert forall k :: k in e ==> k == "foo" || k == "bar";
    SameEntries(e, map["foo" := "1.2.0"]);
  }

  /**
   A concrete case: with package `foo` at version `1.2.0`, writing `{"foo" => ">=1.2.0", "bar" => "1.0.0"}`
   reads back as `{"foo" => "1.2.0"}`: the operator is stripped and the unknown package is dropped.
   */
  lemma ExampleRoundTrip(v: Version)
    ensures DependenciesHash(SetDependencies(v, ExampleStore(), Some(map["foo" := ">=1.2.0", "bar" := "1.0.0"])), ExampleStore())
      == Success(map["foo" := "1.2.0"])
  {
    var h := Some(map["foo" := ">=1.2.0", "bar" := "1.0.0"]);
    ExampleStoreWellFormed();
    RoundTrip(v, ExampleStore(), h);
    ExampleExpected(h);
  }
}
