/**
 * The changelog of changelog.go: for each registered version, in ascending
 * order, the descriptions of its migrations that carry one.
 */
module Changelog {
  import opened Wrappers
  import opened Versions
  import opened Migrations

  /** `ChangelogEntry`: a version and the descriptions of its changes. */
  datatype Entry = Entry(version: string, changes: seq<string>)

  /**
   * `idx` lists, in increasing order, exactly the positions of the
   * migrations in `migs` that carry a description, and `ds[i]` is the
   * description at position `idx[i]`.
   */
  ghost predicate DescribedAt(migs: seq<Migration>, ds: seq<string>, idx: seq<nat>) {
    && |idx| == |ds|
    && (forall i, j :: 0 <= i < j < |idx| ==> idx[i] < idx[j])
    && (forall i :: 0 <= i < |idx| ==> idx[i] < |migs| && migs[idx[i]].description == Some(ds[i]))
    && (forall k :: 0 <= k < |migs| && migs[k].description.Some? ==> k in idx)
  }

  /** The descriptions of the migrations in `migs` that carry one, one per such migration, in list order. */
  function Descriptions(migs: seq<Migration>): (ds: seq<string>)
    ensures |ds| <= |migs|
    ensures forall d :: d in ds <==> exists k :: 0 <= k < |migs| && migs[k].description == Some(d)
  {
    if migs == [] then []
    else
      var init := migs[..|migs| - 1];
      var rest := Descriptions(init);
      assert forall k :: 0 <= k < |init| ==> init[k] == migs[k];
      match migs[|migs| - 1].description
      case Some(d) => rest + [d]
      case None => rest
  }

  /** Indexing the descriptions of `init` extends to `init + [mig]`, with `mig`'s position added when it has one. */
  lemma DescribedSnoc(init: seq<Migration>, rest: seq<string>, mig: Migration)
    requires exists idx :: DescribedAt(init, rest, idx)
    ensures match mig.description
            case Some(d) => exists idx :: DescribedAt(init + [mig], rest + [d], idx)
            case None => exists idx :: DescribedAt(init + [mig], rest, idx)
  {
    var idx: seq<nat> :| DescribedAt(init, rest, idx);
    var migs := init + [mig];
    assert forall k :: 0 <= k < |init| ==> migs[k] == init[k];
    match mig.description
    case Some(d) =>
      var ds, idx' := rest + [d], idx + [|init|];
      forall i, j | 0 <= i < j < |idx'| ensures idx'[i] < idx'[j] {
        if j < |idx| {
          assert idx'[i] == idx[i] && idx'[j] == idx[j];
        } else {
          assert idx'[i] == idx[i] && idx[i] < |init|;
        }
      }
      forall i | 0 <= i < |idx'| ensures idx'[i] < |migs| && migs[idx'[i]].description == Some(ds[i]) {
        if i < |idx| {
          assert idx'[i] == idx[i] && ds[i] == rest[i];
        }
      }
      forall k | 0 <= k < |migs| && migs[k].description.Some? ensures k in idx' {
        if k < |init| {
          assert k in idx;
        } else {
          assert idx'[|idx|] == k;
        }
      }
      assert DescribedAt(migs, ds, idx');
    case None =>
      forall k | 0 <= k < |migs| && migs[k].description.Some? ensures k in idx {
        assert k < |init|;
      }
      assert DescribedAt(migs, rest, idx);
  }

  /**
   * The descriptions are one per migration that carries one, in
   * registration order: they are indexed by the increasing positions of
   * exactly the described migrations.
   */
  lemma {:induction false} DescriptionsInOrder(migs: seq<Migration>)
    ensures exists idx: seq<nat> :: DescribedAt(migs, Descriptions(migs), idx)
  {
    if migs == [] {
      assert Descriptions(migs) == [];
      assert DescribedAt(migs, [], []);
    } else {
      var init, mig := migs[..|migs| - 1], migs[|migs| - 1];
      assert migs == init + [mig];
      DescriptionsInOrder(init);
      DescribedSnoc(init, Descriptions(init), mig);
      DescriptionsSnoc(init, mig);
      match mig.description
      case Some(d) =>
        assert Descriptions(migs) == Descriptions(init) + [d];
      case None =>
        assert Descriptions(migs) == Descriptions(init);
    }
  }

  /** One more migration adds its description, if it has one, at the end. */
  lemma DescriptionsSnoc(migs: seq<Migration>, mig: Migration)
    ensures Descriptions(migs + [mig])
            == match mig.description case Some(d) => Descriptions(migs) + [d] case None => Descriptions(migs)
  {
    assert (migs + [mig])[..|migs|] == migs;
  }

  /**
   * The entries for versions `vs` taken in order: a version gets an entry
   * when it has a migration list with at least one description; a version
   * without a list is skipped.
   */
  function Entries(vs: seq<Version>, m: MigrationMap): (es: seq<Entry>)
    ensures |es| <= |vs|
  {
    if vs == [] then []
    else
      var v := vs[|vs| - 1].value;
      var rest := Entries(vs[..|vs| - 1], m);
      if v in m && Descriptions(m[v]) != [] then rest + [Entry(v, Descriptions(m[v]))] else rest
  }

  /**
   * Every entry belongs to a listed version that has a migration list, and
   * lists exactly that list's descriptions, of which there is at least one;
   * every listed version with a described migration gets its entry.
   */
  lemma {:induction false} EntriesContents(vs: seq<Version>, m: MigrationMap)
    ensures forall e :: e in Entries(vs, m) ==> e.version in m && e.changes == Descriptions(m[e.version]) && e.changes != []
    ensures forall e :: e in Entries(vs, m) ==> exists i :: 0 <= i < |vs| && vs[i].value == e.version
    ensures forall i :: 0 <= i < |vs| && vs[i].value in m && Descriptions(m[vs[i].value]) != [] ==>
                          Entry(vs[i].value, Descriptions(m[vs[i].value])) in Entries(vs, m)
  {
    if vs != [] {
      var init := vs[..|vs| - 1];
      EntriesContents(init, m);
      assert forall i :: 0 <= i < |init| ==> init[i] == vs[i];
    }
  }

  /** Taking the versions one more at a time adds at most that version's entry. */
  lemma EntriesSnoc(vs: seq<Version>, v: Version, m: MigrationMap)
    ensures Entries(vs + [v], m)
            == if v.value in m && Descriptions(m[v.value]) != []
               then Entries(vs, m) + [Entry(v.value, Descriptions(m[v.value]))]
               else Entries(vs, m)
  {
    assert (vs + [v])[..|vs|] == vs;
  }

  /** Entries built from an ascending version list are ascending. */
  lemma {:induction false} EntriesAscending(sp: SemverParser, f: Format, vs: seq<Version>, m: MigrationMap)
    requires Sorted(sp, f, vs)
    ensures var es := Entries(vs, m);
            forall i, j :: 0 <= i < j < |es| ==> !Less(sp, f, es[j].version, es[i].version)
  {
    if vs != [] {
      var init := vs[..|vs| - 1];
      var v := vs[|vs| - 1];
      assert vs == init + [v];
      EntriesAscending(sp, f, init, m);
      EntriesContents(init, m);
      EntriesSnoc(init, v, m);
      var rest := Entries(init, m);
      var es := Entries(vs, m);
      forall i, j | 0 <= i < j < |es| ensures !Less(sp, f, es[j].version, es[i].version) {
        if j == |rest| {
          assert es[i] == rest[i] && rest[i] in rest;
          var k :| 0 <= k < |init| && init[k].value == rest[i].version;
          assert vs[k] == init[k];
        } else {
          assert es[i] == rest[i] && es[j] == rest[j];
        }
      }
    }
  }

  /** Three versions, the first without descriptions: the entries of the other two, in order. */
  lemma EntriesOfThree(a: Version, b: Version, c: Version, m: MigrationMap)
    requires a.value in m && Descriptions(m[a.value]) == []
    requires b.value in m && Descriptions(m[b.value]) != []
    requires c.value in m && Descriptions(m[c.value]) != []
    ensures Entries([a, b, c], m) == [Entry(b.value, Descriptions(m[b.value])), Entry(c.value, Descriptions(m[c.value]))]
  {
    assert Entries([a], m) == [] by {
      EntriesSnoc([], a, m);
      assert [a] == [] + [a];
    }
    assert Entries([a, b], m) == [Entry(b.value, Descriptions(m[b.value]))] by {
      EntriesSnoc([a], b, m);
      assert [a, b] == [a] + [b];
    }
    EntriesSnoc([a, b], c, m);
    assert [a, b, c] == [a, b] + [c];
  }

  /**
   * The changelog test's registry: with versions "0001-01-01", "2023-03-01"
   * and "2023-04-01", the first with no migrations, the second with one
   * described and one undescribed migration and the third with one described
   * migration, there are exactly two entries, in that order, one change each.
   */
  lemma ChangelogOfTwoDescribedVersions(one: Migration, silent: Migration, two: Migration, d1: string, d2: string)
    requires one.description == Some(d1) && silent.description == None && two.description == Some(d2)
    ensures var m := map["0001-01-01" := [], "2023-03-01" := [one, silent], "2023-04-01" := [two]];
            var vs := [Version(DateFormat, "0001-01-01"), Version(DateFormat, "2023-03-01"), Version(DateFormat, "2023-04-01")];
            Entries(vs, m) == [Entry("2023-03-01", [d1]), Entry("2023-04-01", [d2])]
  {
    var m := map["0001-01-01" := [], "2023-03-01" := [one, silent], "2023-04-01" := [two]];
    assert Descriptions([one, silent]) == [d1] by {
      DescriptionsSnoc([], one);
      DescriptionsSnoc([one], silent);
      assert [one] == [] + [one] && [one, silent] == [one] + [silent];
    }
    assert Descriptions([two]) == [d2] by {
      DescriptionsSnoc([], two);
      assert [two] == [] + [two];
    }
    EntriesOfThree(Version(DateFormat, "0001-01-01"), Version(DateFormat, "2023-03-01"), Version(DateFormat, "2023-04-01"), m);
  }
}
