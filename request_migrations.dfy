/**
 * The `RequestMigration` registry of requestmigrations.go and changelog.go:
 * the options it is built from, the versions and migrations it holds, how it
 * resolves a caller's version, and the changelog it generates.
 */
module RequestMigrations {
  import opened Wrappers
  import opened Strings
  import opened Versions
  import opened Migrations
  import opened Changelog
  import opened MapIteration

  /** The `GetUserHeaderFunc` callback, on the parts of a request it can look at. */
  type UserHeaderFunc = (RequestLine, Header) -> Result<string, Error>

  /** `RequestMigrationOptions`. */
  datatype Options = Options(
    versionHeader: string,
    currentVersion: string,
    getUserHeader: Option<UserHeaderFunc>,
    format: Format)

  /**
   * The initial version registered for a format: the zero `time.Time` in
   * `time.DateOnly` layout for dates, "v0" for semver, and the empty string
   * for any other format.
   */
  function InitialVersion(f: Format): (iv: string)
    ensures f == DateFormat ==> ParseDate(iv) == Some(Date(1, 1, 1))
    ensures f == SemverFormat ==> iv == "v0"
    ensures f.OtherFormat? <==> iv == []
  {
    match f
    case DateFormat => FormatThenParse(Date(1, 1, 1)); FormatDate(Date(1, 1, 1))
    case SemverFormat => "v0"
    case OtherFormat(_) => ""
  }

  /** The initial date version is not after any valid date whose year is at least 1. */
  lemma InitialDateIsEarliest(d: Date)
    requires ValidDate(d) && d.year >= 1
    ensures !DateLess(FormatDate(d), InitialVersion(DateFormat))
  {
    FormatThenParse(d);
  }

  /** Year 0000 parses, so a date version can sort before the initial one. */
  lemma YearZeroPrecedesInitialDate()
    ensures DateLess("0000-01-01", InitialVersion(DateFormat))
  {
    assert DateShaped("0000-01-01");
    assert YearOf("0000-01-01") == 0;
  }

  /** `http.Header.Get`: the first value stored under the key, or "". */
  function HeaderGet(h: Header, key: string): (v: string)
    ensures v != [] ==> key in h && h[key] != [] && v == h[key][0]
    ensures key in h && h[key] != [] ==> v == h[key][0]
  {
    if key in h && h[key] != [] then h[key][0] else ""
  }

  /** `order`, each string as a version of format `f`. */
  function Tagged(f: Format, order: seq<string>): (vs: seq<Version>)
    ensures |vs| == |order|
    ensures forall i :: 0 <= i < |vs| ==> vs[i] == Version(f, order[i])
  {
    if order == [] then [] else Tagged(f, order[..|order| - 1]) + [Version(f, order[|order| - 1])]
  }

  /** The version strings appearing in `vs`. */
  function Values(vs: seq<Version>): (s: set<string>)
  {
    if vs == [] then {} else Values(vs[..|vs| - 1]) + {vs[|vs| - 1].value}
  }

  lemma {:induction false} ValuesMembership(vs: seq<Version>, k: string)
    ensures k in Values(vs) <==> exists i :: 0 <= i < |vs| && vs[i].value == k
  {
    if vs != [] {
      var init := vs[..|vs| - 1];
      ValuesMembership(init, k);
      if k in Values(init) {
        var i :| 0 <= i < |init| && init[i].value == k;
        assert vs[i] == init[i];
      }
      if exists i :: 0 <= i < |vs| && vs[i].value == k {
        var i :| 0 <= i < |vs| && vs[i].value == k;
        if i < |init| { assert init[i] == vs[i]; }
      }
    }
  }

  lemma TaggedSnoc(f: Format, order: seq<string>, k: string)
    ensures Tagged(f, order + [k]) == Tagged(f, order) + [Version(f, k)]
  {
    assert (order + [k])[..|order|] == order;
  }

  /** Two version lists holding the same versions hold the same version strings. */
  lemma ValuesOfPermutation(a: seq<Version>, b: seq<Version>)
    requires multiset(a) == multiset(b)
    ensures Values(a) == Values(b)
  {
    forall k ensures k in Values(a) <==> k in Values(b) {
      ValuesMembership(a, k);
      ValuesMembership(b, k);
      if k in Values(a) {
        var i :| 0 <= i < |a| && a[i].value == k;
        assert a[i] in multiset(b);
        var j :| 0 <= j < |b| && b[j] == a[i];
      }
      if k in Values(b) {
        var j :| 0 <= j < |b| && b[j].value == k;
        assert b[j] in multiset(a);
        var i :| 0 <= i < |a| && a[i] == b[j];
      }
    }
  }

  /**
   * Registering `batch` in the order `order` on top of a valid registry
   * `(m0, v0)` leaves a valid registry: every version string is a key.
   */
  lemma RegisteredValues(f: Format, m0: MigrationMap, v0: seq<Version>, batch: MigrationMap, order: seq<string>)
    requires Values(v0) == m0.Keys && Enumerates(order, batch.Keys)
    requires forall i :: 0 <= i < |v0| ==> v0[i].format == f
    ensures Values(v0 + Tagged(f, order)) == (m0 + batch).Keys
    ensures forall i :: 0 <= i < |v0 + Tagged(f, order)| ==> (v0 + Tagged(f, order))[i].format == f
  {
    ValuesAppend(v0, Tagged(f, order));
    TaggedValues(f, order);
    assert (set x | x in order) == batch.Keys;
  }

  lemma {:induction false} ValuesAppend(a: seq<Version>, b: seq<Version>)
    ensures Values(a + b) == Values(a) + Values(b)
  {
    if b == [] {
      assert a + b == a;
    } else {
      var c := a + b;
      assert c[..|c| - 1] == a + b[..|b| - 1];
      assert c[|c| - 1] == b[|b| - 1];
      ValuesAppend(a, b[..|b| - 1]);
    }
  }

  lemma {:induction false} TaggedValues(f: Format, order: seq<string>)
    ensures Values(Tagged(f, order)) == set x | x in order
  {
    if order != [] {
      var init := order[..|order| - 1];
      var t := Tagged(f, order);
      TaggedValues(f, init);
      assert t[..|t| - 1] == Tagged(f, init);
      assert order == init + [order[|order| - 1]];
      assert (set x | x in order) == (set x | x in init) + {order[|order| - 1]};
    }
  }

  lemma MergedMaps(m0: MigrationMap, batch: MigrationMap, m: MigrationMap)
    requires forall k :: k in m <==> k in m0 || k in batch
    requires forall k :: k in m ==> m[k] == if k in batch then batch[k] else m0[k]
    ensures m == m0 + batch
  {
  }

  /** A permutation of versions of one format holds only versions of that format. */
  lemma FormatOfPermutation(a: seq<Version>, b: seq<Version>, f: Format)
    requires multiset(a) == multiset(b)
    requires forall i :: 0 <= i < |a| ==> a[i].format == f
    ensures forall i :: 0 <= i < |b| ==> b[i].format == f
  {
    forall i | 0 <= i < |b| ensures b[i].format == f {
      assert b[i] in multiset(a);
      var j :| 0 <= j < |a| && a[j] == b[i];
    }
  }

  /** `RequestMigration`: the options, the initial version, and the registered versions and migrations. */
  class RequestMigration {
    const opts: Options
    const iv: string
    /** `semver.NewVersion`, a library function the registry is given. */
    const semver: SemverParser
    var versions: seq<Version>
    var migrations: MigrationMap

    /**
     * Every version has the configured format, and the version strings are
     * exactly the keys with a migration list (the initial version among them).
     * A key registered twice appears twice in `versions`.
     */
    ghost predicate Valid()
      reads this
    {
      && iv == InitialVersion(opts.format)
      && iv in migrations
      && (forall i :: 0 <= i < |versions| ==> versions[i].format == opts.format)
      && Values(versions) == migrations.Keys
    }

    constructor (opts: Options, semver: SemverParser)
      ensures this.opts == opts && this.semver == semver
      ensures iv == InitialVersion(opts.format)
      ensures versions == [Version(opts.format, iv)] && migrations == map[iv := []]
      ensures Valid()
    {
      this.opts := opts;
      this.semver := semver;
      iv := InitialVersion(opts.format);
      versions := [Version(opts.format, InitialVersion(opts.format))];
      migrations := map[InitialVersion(opts.format) := []];
      new;
      assert Values(versions) == {iv} by {
        assert versions[..0] == [];
      }
    }

    /**
     * `RegisterMigrations`: every key of `batch` replaces that key's list and
     * appends its version (in the order map iteration picks), then the
     * versions are sorted by the format's sorter. With any other format
     * the versions stay unsorted and `ErrInvalidVersionFormat` is returned
     * after the registry has already changed.
     */
    method RegisterMigrations(batch: MigrationMap) returns (err: Option<Error>)
      requires Valid()
      modifies this
      ensures Valid()
      ensures migrations == old(migrations) + batch
      ensures exists order ::
                && Enumerates(order, batch.Keys)
                && versions == if opts.format.OtherFormat? then old(versions) + Tagged(opts.format, order)
                               else SortVersions(semver, opts.format, old(versions) + Tagged(opts.format, order))
      ensures err.Some? <==> opts.format.OtherFormat?
      ensures err.Some? ==> err.value == InvalidVersionFormat
      ensures !opts.format.OtherFormat? && AllParse(semver, opts.format, versions) ==> Sorted(semver, opts.format, versions)
    {
      ghost var m0, v0 := migrations, versions;
      ghost var order := AddAll(batch);
      RegisteredValues(opts.format, m0, v0, batch, order);
      if opts.format.OtherFormat? {
        err := Some(InvalidVersionFormat);
      } else {
        ghost var unsorted := versions;
        versions := SortVersions(semver, opts.format, versions);
        ValuesOfPermutation(unsorted, versions);
        FormatOfPermutation(unsorted, versions, opts.format);
        if AllParse(semver, opts.format, versions) {
          AllParsePermutation(semver, opts.format, versions, unsorted);
          SortSorted(semver, opts.format, unsorted);
        }
        err := None;
      }
    }

    /** The loop of `RegisterMigrations`: each key's list stored and its version appended, in map-iteration order. */
    method AddAll(batch: MigrationMap) returns (ghost order: seq<string>)
      modifies this
      ensures Enumerates(order, batch.Keys)
      ensures migrations == old(migrations) + batch
      ensures versions == old(versions) + Tagged(opts.format, order)
    {
      var rest := batch.Keys;
      ghost var done: set<string> := {};
      order := [];
      while rest != {}
        invariant done == batch.Keys - rest && rest <= batch.Keys
        invariant Enumerates(order, done)
        invariant forall k :: k in migrations <==> k in old(migrations) || k in done
        invariant forall k :: k in migrations ==> migrations[k] == if k in done then batch[k] else old(migrations)[k]
        invariant versions == old(versions) + Tagged(opts.format, order)
        decreases rest
      {
        var k :| k in rest;
        EnumeratesStep(order, done, k);
        TaggedSnoc(opts.format, order, k);
        migrations := migrations[k := batch[k]];
        versions := versions + [Version(opts.format, k)];
        order := order + [k];
        rest := rest - {k};
        done := done + {k};
      }
      MergedMaps(old(migrations), batch, migrations);
    }

    /**
     * `getUserVersion`: the version header's first value; if that is blank,
     * the callback's answer (its error returned as is); if still blank, the
     * initial version. The result has the configured format.
     */
    function GetUserVersion(rl: RequestLine, header: Header): (r: Result<Version, Error>)
      ensures r.Success? ==> r.value.format == opts.format
      ensures r.Success? ==> r.value.value == iv || !IsStringEmpty(r.value.value)
      ensures r.Failure? <==> IsStringEmpty(HeaderGet(header, opts.versionHeader))
                              && opts.getUserHeader.Some? && opts.getUserHeader.value(rl, header).Failure?
      ensures r.Failure? ==> r.error == opts.getUserHeader.value(rl, header).error
      ensures !IsStringEmpty(HeaderGet(header, opts.versionHeader))
              ==> r == Success(Version(opts.format, HeaderGet(header, opts.versionHeader)))
      ensures IsStringEmpty(HeaderGet(header, opts.versionHeader)) && opts.getUserHeader.None?
              ==> r == Success(Version(opts.format, iv))
      ensures IsStringEmpty(HeaderGet(header, opts.versionHeader)) && opts.getUserHeader.Some?
              && opts.getUserHeader.value(rl, header).Success?
              ==> var answer := opts.getUserHeader.value(rl, header).value;
                  r == Success(Version(opts.format, if IsStringEmpty(answer) then iv else answer))
    {
      var vh := HeaderGet(header, opts.versionHeader);
      if IsStringEmpty(vh) && opts.getUserHeader.Some? then
        match opts.getUserHeader.value(rl, header)
        case Failure(e) => Failure(e)
        case Success(s) => Success(Version(opts.format, if IsStringEmpty(s) then iv else s))
      else
        Success(Version(opts.format, if IsStringEmpty(vh) then iv else vh))
    }

    /** `getCurrentVersion`: the configured current version, in the configured format. */
    function CurrentVersion(): (v: Version)
      ensures v.format == opts.format && v.value == opts.currentVersion
    {
      Version(opts.format, opts.currentVersion)
    }

    /**
     * `GenerateChangelog`: the registered versions sorted by the format's
     * sorter (the registry itself is left alone), then one entry per version
     * that has a migration list with at least one description. Entries come
     * in ascending version order; any other format is `ErrInvalidVersionFormat`.
     */
    method GenerateChangelog() returns (r: Result<seq<Entry>, Error>)
      ensures r.Failure? <==> opts.format.OtherFormat?
      ensures r.Failure? ==> r.error == InvalidVersionFormat
      ensures r.Success? ==> r.value == Entries(SortVersions(semver, opts.format, versions), migrations)
      ensures r.Success? && AllParse(semver, opts.format, versions) ==> forall i, j :: 0 <= i < j < |r.value| ==>
                               !Less(semver, opts.format, r.value[j].version, r.value[i].version)
      ensures r.Success? ==> forall e :: e in r.value ==>
                               e.version in migrations && e.changes == Descriptions(migrations[e.version]) && e.changes != []
    {
      if opts.format.OtherFormat? {
        return Failure(InvalidVersionFormat);
      }
      var sorted := SortVersions(semver, opts.format, versions);
      var changelog := CollectEntries(sorted, migrations);
      if AllParse(semver, opts.format, versions) {
        SortSorted(semver, opts.format, versions);
        EntriesAscending(semver, opts.format, sorted, migrations);
      }
      EntriesContents(sorted, migrations);
      return Success(changelog);
    }
  }

  /** The outer loop of `GenerateChangelog`: one entry per described version, in the given order. */
  method CollectEntries(sorted: seq<Version>, migrations: MigrationMap) returns (changelog: seq<Entry>)
    ensures changelog == Entries(sorted, migrations)
  {
    changelog := [];
    var i := 0;
    while i < |sorted|
      invariant 0 <= i <= |sorted|
      invariant changelog == Entries(sorted[..i], migrations)
    {
      EntriesSnoc(sorted[..i], sorted[i], migrations);
      assert sorted[..i + 1] == sorted[..i] + [sorted[i]];
      var version := sorted[i];
      if version.value in migrations {
        var changes := DescribedChanges(migrations[version.value]);
        if |changes| > 0 {
          changelog := changelog + [Entry(version.value, changes)];
        }
      }
      i := i + 1;
    }
    assert sorted[..i] == sorted;
  }

  /** The inner loop of `GenerateChangelog`: the descriptions of one version's migrations. */
  method DescribedChanges(migs: seq<Migration>) returns (changes: seq<string>)
    ensures changes == Descriptions(migs)
  {
    changes := [];
    var j := 0;
    while j < |migs|
      invariant 0 <= j <= |migs|
      invariant changes == Descriptions(migs[..j])
    {
      assert migs[..j + 1][..j] == migs[..j];
      if migs[j].description.Some? {
        changes := changes + [migs[j].description.value];
      }
      j := j + 1;
    }
    assert migs[..j] == migs;
  }

  /**
   * `NewRequestMigration`: nil options are an error; otherwise a registry
   * holding only the initial version, with an empty migration list.
   */
  method NewRequestMigration(opts: Option<Options>, semver: SemverParser) returns (r: Result<RequestMigration, Error>)
    ensures opts.None? ==> r == Failure(NilOptions)
    ensures opts.Some? ==> r.Success? && fresh(r.value) && r.value.Valid()
                           && r.value.opts == opts.value && r.value.semver == semver
                           && r.value.versions == [Version(opts.value.format, r.value.iv)]
                           && r.value.migrations == map[r.value.iv := []]
  {
    if opts.None? {
      return Failure(NilOptions);
    }
    var rm := new RequestMigration(opts.value, semver);
    return Success(rm);
  }

  /** A request without the version header, and no callback, resolves to the initial version. */
  lemma HeaderlessCallerGetsInitialVersion(rm: RequestMigration, rl: RequestLine, header: Header)
    requires rm.opts.getUserHeader.None?
    requires rm.opts.versionHeader !in header
    ensures rm.GetUserVersion(rl, header) == Success(Version(rm.opts.format, rm.iv))
  {
  }

  /** The current version of the VersionAPI and changelog tests is later than the initial date version. */
  lemma TestCurrentVersionIsLater()
    ensures DateLess(InitialVersion(DateFormat), "2023-03-01")
  {
    assert DateShaped("2023-03-01");
    assert YearOf("2023-03-01") == 2023;
  }

  /** A registry holding the initial date version and one later date sorts as exactly that pair. */
  lemma InitialThenLaterOrder(sp: SemverParser, current: string)
    requires DateLess(InitialVersion(DateFormat), current)
    ensures SortVersions(sp, DateFormat, [Version(DateFormat, InitialVersion(DateFormat))] + Tagged(DateFormat, [current]))
            == [Version(DateFormat, InitialVersion(DateFormat)), Version(DateFormat, current)]
  {
    EarlierThenLater(sp, InitialVersion(DateFormat), current);
  }

  /** A date registry holding an earlier date and one later date sorts them earlier first. */
  lemma EarlierThenLater(sp: SemverParser, earlier: string, later: string)
    requires DateLess(earlier, later)
    ensures SortVersions(sp, DateFormat, [Version(DateFormat, earlier)] + Tagged(DateFormat, [later]))
            == [Version(DateFormat, earlier), Version(DateFormat, later)]
  {
    var ev, lv := Version(DateFormat, earlier), Version(DateFormat, later);
    assert [ev] + Tagged(DateFormat, [later]) == [ev, lv];
    LessStrictOrder(sp, DateFormat, earlier, later, earlier);
    KeepsEqualPair(sp, DateFormat, ev, lv);
  }

  /** The dates of the changelog test, in ascending order after the initial date version. */
  lemma ChangelogTestDates()
    ensures InitialVersion(DateFormat) == "0001-01-01"
    ensures DateLess("0001-01-01", "2023-03-01") && DateLess("2023-03-01", "2023-04-01")
  {
    assert FormatDate(Date(1, 1, 1)) == "0001-01-01";
    assert DateShaped("0001-01-01") && DateShaped("2023-03-01") && DateShaped("2023-04-01");
  }

  /**
   * A date registry holding an earlier date, with two later dates registered
   * in one batch in either enumeration order, sorts all three in date order.
   */
  lemma TwoLaterDatesOrder(sp: SemverParser, e: string, x: string, y: string, order: seq<string>)
    requires DateLess(e, x) && DateLess(x, y)
    requires Enumerates(order, {x, y})
    ensures SortVersions(sp, DateFormat, [Version(DateFormat, e)] + Tagged(DateFormat, order))
            == [Version(DateFormat, e), Version(DateFormat, x), Version(DateFormat, y)]
  {
    var ev, xv, yv := Version(DateFormat, e), Version(DateFormat, x), Version(DateFormat, y);
    var lt := VersionLess(sp, DateFormat);
    LessStrictOrder(sp, DateFormat, e, x, y);
    LessStrictOrder(sp, DateFormat, x, y, x);
    LessStrictOrder(sp, DateFormat, e, x, e);
    LessStrictOrder(sp, DateFormat, e, y, e);
    EnumerationLength(order, {x, y});
    assert order[0] in {x, y} && order[1] in {x, y} && order[0] != order[1];
    if order[0] == x {
      assert [ev] + Tagged(DateFormat, order) == [ev, xv, yv];
      KeepsTriple(lt, ev, xv, yv);
    } else {
      assert [ev] + Tagged(DateFormat, order) == [ev, yv, xv];
      SwapsLast(lt, ev, yv, xv);
    }
  }

  /** A one-key map merged with a batch of two other keys holds all three. */
  lemma MergedWithBatch<V>(k0: string, k1: string, k2: string, x: V, y: V, z: V)
    requires k0 != k1 && k0 != k2
    ensures map[k0 := x] + map[k1 := y, k2 := z] == map[k0 := x, k1 := y, k2 := z]
  {
  }

  /**
   * The changelog test: "2023-03-01" (one described and one undescribed
   * migration) and "2023-04-01" (one described migration) are registered in
   * one batch on a new date registry, in either enumeration order. The
   * changelog of the sorted versions has exactly two entries, "2023-03-01"
   * then "2023-04-01", one change each.
   */
  lemma RegisteredChangelog(sp: SemverParser, one: Migration, silent: Migration, two: Migration,
                            d1: string, d2: string, order: seq<string>)
    requires one.description == Some(d1) && silent.description == None && two.description == Some(d2)
    requires Enumerates(order, {"2023-03-01", "2023-04-01"})
    ensures var iv := InitialVersion(DateFormat);
            var batch := map["2023-03-01" := [one, silent], "2023-04-01" := [two]];
            var vs := SortVersions(sp, DateFormat, [Version(DateFormat, iv)] + Tagged(DateFormat, order));
            Entries(vs, map[iv := []] + batch) == [Entry("2023-03-01", [d1]), Entry("2023-04-01", [d2])]
  {
    ChangelogTestDates();
    TwoLaterDatesOrder(sp, "0001-01-01", "2023-03-01", "2023-04-01", order);
    assert "0001-01-01"[0] != "2023-03-01"[0] && "0001-01-01"[0] != "2023-04-01"[0];
    MergedWithBatch("0001-01-01", "2023-03-01", "2023-04-01", [], [one, silent], [two]);
    ChangelogOfTwoDescribedVersions(one, silent, two, d1, d2);
  }

  /**
   * The VersionAPI test's registry (one later date version `current`, also
   * the configured current version, registered on a date registry): a caller
   * without a header starts at the initial version, walks both versions and
   * gets the response migrations of `current`; a caller at `current` walks
   * that version only and gets its payload back unchanged.
   */
  lemma VersionApiScenarios(sp: SemverParser, current: string, combine: seq<Migration>, rl: RequestLine, p: Payload)
    requires DateLess(InitialVersion(DateFormat), current)
    ensures var iv := Version(DateFormat, InitialVersion(DateFormat));
            var cv := Version(DateFormat, current);
            var avs := SortVersions(sp, DateFormat, [iv] + Tagged(DateFormat, [current]));
            var migs := map[iv.value := [], current := combine];
            var early := Migrator(cv, iv, SuffixFrom(sp, avs, iv), migs);
            var same := Migrator(cv, cv, SuffixFrom(sp, avs, cv), migs);
            && avs == [iv, cv]
            && ResponseRun(sp, early, rl, early.versions, p)
               == (match Chain(combine, rl, false, p) case Failure(_) => Failure(ServerError) case Success(q) => Success(q))
            && RequestRun(sp, same, rl, same.versions, p) == Success(p)
            && ResponseRun(sp, same, rl, same.versions, p) == Success(p)
  {
    var iv := Version(DateFormat, InitialVersion(DateFormat));
    var cv := Version(DateFormat, current);
    InitialThenLaterOrder(sp, current);
    var avs := [iv, cv];
    var migs := map[iv.value := [], current := combine];
    assert !Equal(sp, avs[0], cv);
    assert FirstEqual(sp, avs[1..], cv) == Some(0);
    assert FirstEqual(sp, avs, cv) == Some(1);
    assert FirstEqual(sp, avs, iv) == Some(0);
    OlderCallerIsMigrated(sp, Migrator(cv, iv, avs, migs), rl, p, current);
    NewestCallerPassesThrough(sp, Migrator(cv, cv, avs[1..], migs), rl, p);
  }
}
