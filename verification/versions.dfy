/**
 The Version entity: its validations, the asset it emits after a save, and the save itself with its
 two after-save callbacks.
 */
module Versions {
  import opened Wrappers
  import opened Text
  import NumberFormat
  import opened Registry

  /**
   A version as the application holds it. `id` is `None` until the version is first saved; `build`
   is the non-persisted payload; `dependencies` is the set of ids of the versions it depends on.
   */
  datatype Version = Version(
    id: Option<nat>,
    packageId: Option<nat>,
    number: Option<string>,
    build: Option<string>,
    readme: Option<string>,
    dependencies: set<nat>)

  datatype Field = Number | Build | Readme

  /** The validator that failed: `can't be blank`, `is invalid`, `has already been taken`. */
  datatype Rule = Presence | Format | Uniqueness

  datatype FieldError = FieldError(field: Field, rule: Rule)

  /**
   The uniqueness query: another row of the same package (`package_id` compared as SQL does, so a
   `nil` scope matches `nil`) with exactly this number; the version's own row does not count.
   */
  function Conflict(s: Store, v: Version, number: string): (r: Option<VersionRow>)
    ensures r.Some? ==> r.value in s.versions && r.value.packageId == v.packageId && r.value.number == number && v.id != Some(r.value.id)
    ensures r.None? ==> forall row :: row in s.versions && row.packageId == v.packageId && row.number == number ==> v.id == Some(row.id)
  {
    FindFirst(s.versions, (row: VersionRow) => row.packageId == v.packageId && row.number == number && v.id != Some(row.id))
  }

  /** The attribute a field error is about. */
  function Attribute(v: Version, f: Field): Option<string>
  {
    match f
    case Number => v.number
    case Build => v.build
    case Readme => v.readme
  }

  /** `validates_presence_of :number, :build, :readme`. */
  function PresenceErrors(v: Version): (errs: seq<FieldError>)
    ensures forall e :: e in errs <==> e.rule == Presence && Blank(Attribute(v, e.field))
    ensures forall i, j :: 0 <= i < j < |errs| ==> errs[i] != errs[j]
  {
    (if Blank(v.number) then [FieldError(Number, Presence)] else []) +
    (if Blank(v.build) then [FieldError(Build, Presence)] else []) +
    (if Blank(v.readme) then [FieldError(Readme, Presence)] else [])
  }

  /** The format and uniqueness validations of a present number `n`. */
  function NumberErrors(s: Store, v: Version, n: string): (errs: seq<FieldError>)
    ensures forall e :: e in errs ==> e.field == Number && e.rule != Presence
    ensures FieldError(Number, Format) in errs <==> !NumberFormat.InGrammar(n)
    ensures '\n' !in n ==> (FieldError(Number, Format) in errs <==> !NumberFormat.MatchesLineAnchored(n))
    ensures FieldError(Number, Uniqueness) in errs <==>
      exists row :: row in s.versions && row.packageId == v.packageId && row.number == n && v.id != Some(row.id)
    ensures forall i, j :: 0 <= i < j < |errs| ==> errs[i] != errs[j]
  {
    NumberFormat.VersionNumberGrammar(n);
    assert '\n' !in n ==> (NumberFormat.MatchesLineAnchored(n) <==> NumberFormat.IsVersionNumber(n)) by {
      if '\n' !in n { NumberFormat.SingleLineAnchoring(n); }
    }
    var format := if NumberFormat.IsVersionNumber(n) then [] else [FieldError(Number, Format)];
    var uniqueness := if Conflict(s, v, n).Some? then [FieldError(Number, Uniqueness)] else [];
    format + uniqueness
  }

  /**
   The validations, run in declaration order and all reported: presence of `number`, `build` and
   `readme`, then the format and the uniqueness of `number`, both skipped for a blank `number`.
   */
  function Validate(s: Store, v: Version): (errs: seq<FieldError>)
    ensures FieldError(Number, Presence) in errs <==> Blank(v.number)
    ensures FieldError(Build, Presence) in errs <==> Blank(v.build)
    ensures FieldError(Readme, Presence) in errs <==> Blank(v.readme)
    ensures FieldError(Number, Format) in errs <==> !Blank(v.number) && !NumberFormat.InGrammar(v.number.value)
    ensures v.number.Some? && '\n' !in v.number.value ==>
      (FieldError(Number, Format) in errs <==> !Blank(v.number) && !NumberFormat.MatchesLineAnchored(v.number.value))
    ensures FieldError(Number, Uniqueness) in errs <==>
      !Blank(v.number) &&
      exists row :: row in s.versions && row.packageId == v.packageId && row.number == v.number.value && v.id != Some(row.id)
    ensures forall e :: e in errs ==> e.rule == Presence || e.field == Number
    ensures forall i, j :: 0 <= i < j < |errs| ==> errs[i] != errs[j]
  {
    var presence := PresenceErrors(v);
    assert Attribute(v, Number) == v.number && Attribute(v, Build) == v.build && Attribute(v, Readme) == v.readme;
    if Blank(v.number) then presence
    else
      var number := NumberErrors(s, v, v.number.value);
      assert forall i, j :: 0 <= i < |presence| && 0 <= j < |number| ==> presence[i] != number[j] by {
        forall i, j | 0 <= i < |presence| && 0 <= j < |number| ensures presence[i] != number[j] {
          assert presence[i] in presence && number[j] in number;
        }
      }
      presence + number
  }

  /** A blank number is reported only as missing, and a present number is never reported missing. */
  lemma BlankNumberOnlyMissing(s: Store, v: Version)
    ensures Blank(v.number) ==> forall e :: e in Validate(s, v) && e.field == Number ==> e.rule == Presence
    ensures !Blank(v.number) ==> FieldError(Number, Presence) !in Validate(s, v)
  {
  }

  /** A number used by another package does not make this one taken: uniqueness is per package. */
  lemma OtherPackagesDoNotConflict(s: Store, v: Version)
    requires v.number.Some? && !Blank(v.number)
    requires forall row :: row in s.versions && row.number == v.number.value ==> row.packageId != v.packageId
    ensures FieldError(Number, Uniqueness) !in Validate(s, v)
  {
  }

  /** The file a build is written to: `ASSETS_DIR/{package name}-{number}.js`. */
  function AssetPath(assetsDir: string, packageName: string, number: string): string
  {
    assetsDir + "/" + packageName + "-" + number + ".js"
  }

  datatype Asset = Asset(path: string, content: string)

  /** `save_assets`: the file write it performs, none when the build is blank. */
  function AssetFor(assetsDir: string, packageName: string, number: string, build: Option<string>): (r: Option<Asset>)
    ensures r.Some? <==> !Blank(build)
    ensures r.Some? ==> r.value.content == build.value && r.value.path == AssetPath(assetsDir, packageName, number)
  {
    if Blank(build) then None else Some(Asset(AssetPath(assetsDir, packageName, number), build.value))
  }

  /** Two versions of one package never write their builds to the same file. */
  lemma AssetPathsDistinct(assetsDir: string, packageName: string, n1: string, n2: string)
    requires n1 != n2
    ensures AssetPath(assetsDir, packageName, n1) != AssetPath(assetsDir, packageName, n2)
  {
    var prefix := assetsDir + "/" + packageName + "-";
    var p1, p2 := AssetPath(assetsDir, packageName, n1), AssetPath(assetsDir, packageName, n2);
    assert p1 == prefix + n1 + ".js" && p2 == prefix + n2 + ".js";
    if |n1| == |n2| {
      assert p1[|prefix|..|prefix| + |n1|] == n1;
      assert p2[|prefix|..|prefix| + |n2|] == n2;
    }
  }

  /** An id above every id in the table: the key the database assigns to an inserted row. */
  function NextId(rows: seq<VersionRow>): (r: nat)
    ensures forall row :: row in rows ==> row.id < r
  {
    if rows == [] then 0
    else
      var rest := NextId(rows[1..]);
      assert forall row :: row in rows ==> row == rows[0] || row in rows[1..];
      if rows[0].id < rest then rest else rows[0].id + 1
  }

  /** `UPDATE versions ... WHERE id = row.id`: every row with that key takes the new values. */
  function ReplaceRow(rows: seq<VersionRow>, row: VersionRow): (r: seq<VersionRow>)
    ensures |r| == |rows|
    ensures forall i :: 0 <= i < |rows| ==> r[i] == if rows[i].id == row.id then row else rows[i]
  {
    seq(|rows|, i requires 0 <= i < |rows| => if rows[i].id == row.id then row else rows[i])
  }

  datatype SaveError =
    | Rejected(errors: seq<FieldError>)
    | PackageMissing  // `package.name` on `nil` in `save_assets` raises, and the save is rolled back

  datatype Saved = Saved(store: Store, version: Version, asset: Option<Asset>)

  /**
   `save`: refuse with every validation error, or write the row (insert for a new version, update for
   a persisted one), then run `save_assets` and `update_package_timestamps` in that order.
   */
  function Save(s: Store, v: Version, assetsDir: string, now: int): (r: Result<Saved, SaveError>)
    ensures r.Failure? && r.error.Rejected? <==> Validate(s, v) != []
    ensures r.Failure? && r.error.Rejected? ==> r.error.errors == Validate(s, v)
    ensures r.Success? <==> Validate(s, v) == [] && PackageOf(s, v.packageId).Some?
    ensures r.Success? ==>
      var saved := r.value;
      var p := PackageOf(s, v.packageId).value;
      && v.number.Some?
      && saved.version.id.Some?
      && saved.version == v.(id := saved.version.id)
      && (v.id.Some? ==> saved.version.id == v.id)
      && (v.id.None? ==>
            && (forall row :: row in s.versions ==> row.id != saved.version.id.value)
            && saved.store.versions == s.versions + [VersionRow(saved.version.id.value, v.packageId, v.number.value)])
      && saved.asset == Some(Asset(AssetPath(assetsDir, p.name, v.number.value), v.build.value))
      && PackageOf(saved.store, v.packageId) == Some(p.(updatedAt := now))
  {
    var errs := Validate(s, v);
    if errs != [] then Failure(Rejected(errs))
    else
      match PackageOf(s, v.packageId)
      case None => Failure(PackageMissing)
      case Some(p) =>
        var id := v.id.GetOr(NextId(s.versions));
        var row := VersionRow(id, v.packageId, v.number.value);
        var rows := if v.id.Some? then ReplaceRow(s.versions, row) else s.versions + [row];
        var written := s.(versions := rows);
        assert PackageOf(written, v.packageId) == Some(p);
        Success(Saved(TouchPackage(written, v.packageId, now), v.(id := Some(id)), AssetFor(assetsDir, p.name, v.number.value, v.build)))
  }

  /** The rows a successful save leaves in the versions table, before the package is touched. */
  lemma SavedRows(s: Store, v: Version, assetsDir: string, now: int)
    requires Validate(s, v) == [] && PackageOf(s, v.packageId).Some?
    ensures v.number.Some?
    ensures var row := VersionRow(v.id.GetOr(NextId(s.versions)), v.packageId, v.number.value);
      && Save(s, v, assetsDir, now).Success?
      && Save(s, v, assetsDir, now).value.version.id == Some(row.id)
      && Save(s, v, assetsDir, now).value.store
         == TouchPackage(s.(versions := if v.id.Some? then ReplaceRow(s.versions, row) else s.versions + [row]), v.packageId, now)
  {
    assert FieldError(Number, Presence) !in Validate(s, v);
  }

  /** Inserting a row that clashes with no existing key keeps the versions table keyed. */
  lemma InsertKeepsKeys(rows: seq<VersionRow>, row: VersionRow)
    requires VersionsKeyed(rows)
    requires forall r :: r in rows ==> r.id != row.id
    requires forall r :: r in rows ==> r.packageId != row.packageId || r.number != row.number
    ensures VersionsKeyed(rows + [row])
  {
    var rs := rows + [row];
    forall i, j | 0 <= i < j < |rs|
      ensures rs[i].id != rs[j].id
      ensures rs[i].packageId != rs[j].packageId || rs[i].number != rs[j].number
    {
      if j == |rows| {
        assert rs[i] in rows;
      }
    }
  }

  /** Updating the row with `row`'s id keeps the table keyed when no OTHER row has `row`'s number in its package. */
  lemma ReplaceKeepsKeys(rows: seq<VersionRow>, row: VersionRow)
    requires VersionsKeyed(rows)
    requires forall r :: r in rows && r.packageId == row.packageId && r.number == row.number ==> r.id == row.id
    ensures VersionsKeyed(ReplaceRow(rows, row))
  {
    var rs := ReplaceRow(rows, row);
    forall i, j | 0 <= i < j < |rs|
      ensures rs[i].id != rs[j].id
      ensures rs[i].packageId != rs[j].packageId || rs[i].number != rs[j].number
    {
      assert rows[i] in rows && rows[j] in rows;
    }
  }

  /** After a successful save the versions table is still keyed. */
  lemma SaveKeepsVersionKeys(s: Store, v: Version, assetsDir: string, now: int)
    requires VersionsKeyed(s.versions)
    requires Validate(s, v) == [] && PackageOf(s, v.packageId).Some?
    ensures VersionsKeyed(Save(s, v, assetsDir, now).value.store.versions)
  {
    SavedRows(s, v, assetsDir, now);
    var row := VersionRow(v.id.GetOr(NextId(s.versions)), v.packageId, v.number.value);
    assert FieldError(Number, Uniqueness) !in Validate(s, v);
    if v.id.Some? {
      ReplaceKeepsKeys(s.versions, row);
    } else {
      InsertKeepsKeys(s.versions, row);
    }
  }

  /** After an update every row is the new row or an old one. */
  lemma ReplacedRowsFrom(rows: seq<VersionRow>, row: VersionRow)
    ensures forall w :: w in ReplaceRow(rows, row) ==> w == row || w in rows
  {
    var rs := ReplaceRow(rows, row);
    forall w | w in rs ensures w == row || w in rows {
      var i :| 0 <= i < |rs| && rs[i] == w;
      assert rows[i] in rows;
    }
  }

  /** Rows drawn from an owned table, or attached to an existing package, stay owned after a package is touched. */
  lemma TouchedRowsOwned(s: Store, rows: seq<VersionRow>, row: VersionRow, packageId: Option<nat>, now: int)
    requires forall w :: w in s.versions ==> PackageOf(s, w.packageId).Some?
    requires PackageOf(s, row.packageId).Some?
    requires forall w :: w in rows ==> w == row || w in s.versions
    ensures var s' := TouchPackage(s.(versions := rows), packageId, now);
      forall w :: w in s'.versions ==> PackageOf(s', w.packageId).Some?
  {
    var written := s.(versions := rows);
    forall w | w in rows ensures PackageOf(TouchPackage(written, packageId, now), w.packageId).Some? {
      assert PackageOf(written, w.packageId) == PackageOf(s, w.packageId);
      TouchKeepsPackages(written, packageId, now, w.packageId);
    }
  }

  /** After a successful save every version row still belongs to an existing package. */
  lemma SaveKeepsOwners(s: Store, v: Version, assetsDir: string, now: int)
    requires forall w :: w in s.versions ==> PackageOf(s, w.packageId).Some?
    requires Validate(s, v) == [] && PackageOf(s, v.packageId).Some?
    ensures var s' := Save(s, v, assetsDir, now).value.store;
      forall w :: w in s'.versions ==> PackageOf(s', w.packageId).Some?
  {
    SavedRows(s, v, assetsDir, now);
    var row := VersionRow(v.id.GetOr(NextId(s.versions)), v.packageId, v.number.value);
    var rows := if v.id.Some? then ReplaceRow(s.versions, row) else s.versions + [row];
    if v.id.Some? {
      ReplacedRowsFrom(s.versions, row);
    }
    TouchedRowsOwned(s, rows, row, v.packageId, now);
  }

  /** A successful save keeps the store well formed: keys stay unique and every version keeps its package. */
  lemma SavePreservesWellFormed(s: Store, v: Version, assetsDir: string, now: int)
    requires WellFormed(s)
    requires Validate(s, v) == [] && PackageOf(s, v.packageId).Some?
    ensures Save(s, v, assetsDir, now).Success?
    ensures WellFormed(Save(s, v, assetsDir, now).value.store)
  {
    SaveKeepsVersionKeys(s, v, assetsDir, now);
    SaveKeepsOwners(s, v, assetsDir, now);
    var ps, qs := s.packages, Save(s, v, assetsDir, now).value.store.packages;
    assert PackagesKeyed(qs) by {
      forall i, j | 0 <= i < j < |qs| ensures qs[i].id != qs[j].id && qs[i].name != qs[j].name {
        assert qs[i].id == ps[i].id && qs[j].id == ps[j].id;
        assert qs[i].name == ps[i].name && qs[j].name == ps[j].name;
      }
    }
  }

  /**
   Uniqueness across saves: once a new version is saved, another new version of the same package
   with the same number is refused as taken.
   */
  lemma SecondSaveRejected(s: Store, first: Version, second: Version, assetsDir: string, now: int, later: int)
    requires first.id.None? && second.id.None?
    requires Validate(s, first) == [] && PackageOf(s, first.packageId).Some?
    requires second.packageId == first.packageId && second.number == first.number
    ensures Save(s, first, assetsDir, now).Success?
    ensures var s' := Save(s, first, assetsDir, now).value.store;
      && FieldError(Number, Uniqueness) in Validate(s', second)
      && Save(s', second, assetsDir, later).Failure?
  {
    var saved := Save(s, first, assetsDir, now).value;
    var row := VersionRow(saved.version.id.value, first.packageId, first.number.value);
    assert row in saved.store.versions;
    assert FieldError(Number, Presence) !in Validate(s, first);
  }
}
