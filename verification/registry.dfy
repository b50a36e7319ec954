/**
 The relational datastore the Version model talks to, abstracted to immutable rows: the packages
 table and the versions table, with the finder queries the model issues.
 */
module Registry {
  import opened Wrappers

  /** A row of the packages table: the columns this core reads or writes. */
  datatype Package = Package(id: nat, name: string, updatedAt: int)

  /** A row of the versions table: the columns this core reads. */
  datatype VersionRow = VersionRow(id: nat, packageId: Option<nat>, number: string)

  datatype Store = Store(packages: seq<Package>, versions: seq<VersionRow>)

  /** The position of the first element of `xs` satisfying `matches`: a `find_by_...` query. */
  function FirstIndex<T>(xs: seq<T>, matches: T -> bool): (r: Option<nat>)
    ensures r.Some? ==> r.value < |xs| && matches(xs[r.value])
    ensures r.Some? ==> forall j :: 0 <= j < r.value ==> !matches(xs[j])
    ensures r.None? ==> forall j :: 0 <= j < |xs| ==> !matches(xs[j])
  {
    if xs == [] then None
    else if matches(xs[0]) then Some(0)
    else match FirstIndex(xs[1..], matches)
      case None => None
      case Some(k) => Some(k + 1)
  }

  /** The first element of `xs` satisfying `matches`, if any. */
  function FindFirst<T>(xs: seq<T>, matches: T -> bool): (r: Option<T>)
    ensures r.Some? ==> r.value in xs && matches(r.value)
    ensures r.None? <==> forall x :: x in xs ==> !matches(x)
  {
    match FirstIndex(xs, matches)
    case None => None
    case Some(i) => Some(xs[i])
  }

  /** `Package.find_by_name(name)`. */
  function FindPackageByName(s: Store, name: string): (r: Option<Package>)
    ensures r.Some? ==> r.value in s.packages && r.value.name == name
    ensures r.None? <==> forall p :: p in s.packages ==> p.name != name
  {
    FindFirst(s.packages, (p: Package) => p.name == name)
  }

  /**
   The package a row's `package_id` refers to (`belongs_to :package`, and `Package.find_by_id`):
   none for a `nil` id or an id no package has.
   */
  function PackageOf(s: Store, packageId: Option<nat>): (r: Option<Package>)
    ensures r.Some? ==> r.value in s.packages && packageId == Some(r.value.id)
    ensures r.None? <==> forall p :: p in s.packages ==> packageId != Some(p.id)
  {
    match packageId
    case None => None
    case Some(id) => FindFirst(s.packages, (p: Package) => p.id == id)
  }

  /** `Version.find_by_package_id_and_number(package, number)`. */
  function FindVersion(s: Store, packageId: nat, number: string): (r: Option<VersionRow>)
    ensures r.Some? ==> r.value in s.versions && r.value.packageId == Some(packageId) && r.value.number == number
    ensures r.None? <==> forall v :: v in s.versions ==> !(v.packageId == Some(packageId) && v.number == number)
  {
    FindFirst(s.versions, (v: VersionRow) => v.packageId == Some(packageId) && v.number == number)
  }

  /** Package ids (primary key) and package names are unique. */
  ghost predicate PackagesKeyed(ps: seq<Package>)
  {
    && (forall i, j :: 0 <= i < j < |ps| ==> ps[i].id != ps[j].id)
    && (forall i, j :: 0 <= i < j < |ps| ==> ps[i].name != ps[j].name)
  }

  /** Version ids (primary key) are unique, and so is a number within its package. */
  ghost predicate VersionsKeyed(vs: seq<VersionRow>)
  {
    && (forall i, j :: 0 <= i < j < |vs| ==> vs[i].id != vs[j].id)
    && (forall i, j :: 0 <= i < j < |vs| ==> vs[i].packageId != vs[j].packageId || vs[i].number != vs[j].number)
  }

  /**
   The integrity the schema and the validations keep: unique keys (including the unique index on
   `(package_id, number)`), and every version belonging to an existing package (a foreign key with
   cascading delete).
   */
  ghost predicate WellFormed(s: Store)
  {
    && PackagesKeyed(s.packages)
    && VersionsKeyed(s.versions)
    && (forall v :: v in s.versions ==> exists p :: p in s.packages && v.packageId == Some(p.id))
  }

  /** In a well-formed store, rows agreeing on a key are the same row. */
  lemma KeysIdentifyRows(s: Store)
    requires WellFormed(s)
    ensures forall p, q :: p in s.packages && q in s.packages && p.id == q.id ==> p == q
    ensures forall p, q :: p in s.packages && q in s.packages && p.name == q.name ==> p == q
    ensures forall v, w :: v in s.versions && w in s.versions && v.id == w.id ==> v == w
    ensures forall v, w :: v in s.versions && w in s.versions && v.packageId == w.packageId && v.number == w.number ==> v == w
  {
    forall p, q | p in s.packages && q in s.packages && (p.id == q.id || p.name == q.name) ensures p == q {
      var i :| 0 <= i < |s.packages| && s.packages[i] == p;
      var j :| 0 <= j < |s.packages| && s.packages[j] == q;
      assert i == j by {
        if i < j {} else if j < i {}
      }
    }
    forall v, w | v in s.versions && w in s.versions && (v.id == w.id || (v.packageId == w.packageId && v.number == w.number))
      ensures v == w
    {
      var i :| 0 <= i < |s.versions| && s.versions[i] == v;
      var j :| 0 <= j < |s.versions| && s.versions[j] == w;
      assert i == j by {
        if i < j {} else if j < i {}
      }
    }
  }

  /** In a well-formed store a package's id leads back to that package. */
  lemma PackageOfOwnId(s: Store, p: Package)
    requires WellFormed(s)
    requires p in s.packages
    ensures PackageOf(s, Some(p.id)) == Some(p)
  {
    KeysIdentifyRows(s);
  }

  /**
   `update_package_timestamps`: re-fetch the package by id and set its `updated_at` to `now`,
   skipping a missing package; the save bypasses the package's validations, and nothing else changes.
   */
  function TouchPackage(s: Store, packageId: Option<nat>, now: int): (r: Store)
    ensures r.versions == s.versions
    ensures |r.packages| == |s.packages|
    ensures forall i :: 0 <= i < |s.packages| ==>
      r.packages[i].id == s.packages[i].id && r.packages[i].name == s.packages[i].name
    ensures forall i :: 0 <= i < |s.packages| ==>
      r.packages[i] == s.packages[i] || (packageId == Some(s.packages[i].id) && r.packages[i].updatedAt == now)
    ensures PackageOf(s, packageId).None? ==> r == s
    ensures PackageOf(s, packageId).Some? ==> PackageOf(r, packageId) == Some(PackageOf(s, packageId).value.(updatedAt := now))
  {
    match packageId
    case None => s
    case Some(id) =>
      match FirstIndex(s.packages, (p: Package) => p.id == id)
      case None => s
      case Some(i) =>
        var touched := s.packages[i].(updatedAt := now);
        var r := s.(packages := s.packages[i := touched]);
        assert r.packages[i] == touched;
        r
  }

  /** Touching a timestamp loses no package: every id that found a package still finds one. */
  lemma TouchKeepsPackages(s: Store, packageId: Option<nat>, now: int, x: Option<nat>)
    requires PackageOf(s, x).Some?
    ensures PackageOf(TouchPackage(s, packageId, now), x).Some?
  {
    var r := TouchPackage(s, packageId, now);
    var p := PackageOf(s, x).value;
    var i :| 0 <= i < |s.packages| && s.packages[i] == p;
    assert r.packages[i] in r.packages;
  }
}
