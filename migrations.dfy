/**
 * The migration machinery of requestmigrations.go: the `Migration` interface,
 * the `Migrator` that picks the versions to walk, and the request (forward)
 * and response (backward) passes over a body and a header.
 */
module Migrations {
  import opened Wrappers
  import opened Versions

  newtype byte = b: int | 0 <= b < 256

  type Body = seq<byte>

  /** `http.Header`: header name to its values. */
  type Header = map<string, seq<string>>

  /** The package's sentinel errors; `Other` stands for any error a migration or callback returns. */
  datatype Error =
    | ServerError           // "Server error"
    | InvalidVersion        // "Invalid version number"
    | InvalidVersionFormat  // "Invalid version format"
    | NilOptions            // "options cannot be nil"
    | Other(message: string)

  datatype Payload = Payload(body: Body, header: Header)

  /** The URL path and method of the request a pass runs for. */
  datatype RequestLine = RequestLine(url: string, httpMethod: string)

  /**
   * A `Migration`: `ShouldMigrateConstraint(url, method, data, isReq)` and
   * `Migrate(data, header)`; `description` is the `ChangeDescription()` of a
   * migration that also implements `ChangelogDescriber`.
   */
  datatype Migration = Migration(
    shouldMigrate: (RequestLine, Body, bool) -> bool,
    migrate: (Body, Header) -> Result<Payload, Error>,
    description: Option<string>)

  /** `Migrations`: version string to its ordered list of migrations. */
  type MigrationMap = map<string, seq<Migration>>

  /** `Migrator`: immutable once built. */
  datatype Migrator = Migrator(to: Version, from: Version, versions: seq<Version>, migrations: MigrationMap)

  // ------------------------------------------------------------------
  // NewMigrator
  // ------------------------------------------------------------------

  /** The index of the first registered version equal to `from`, if any. */
  function FirstEqual(sp: SemverParser, avs: seq<Version>, from: Version): (r: Option<nat>)
    ensures r.None? <==> forall i :: 0 <= i < |avs| ==> !Equal(sp, avs[i], from)
    ensures r.Some? ==> r.value < |avs| && Equal(sp, avs[r.value], from)
    ensures r.Some? ==> forall j :: 0 <= j < r.value ==> !Equal(sp, avs[j], from)
  {
    if avs == [] then None
    else if Equal(sp, avs[0], from) then Some(0)
    else
      match FirstEqual(sp, avs[1..], from)
      case None => None
      case Some(i) => Some(i + 1)
  }

  /** The versions a migrator walks: from the first one equal to `from` to the end, or none. */
  function SuffixFrom(sp: SemverParser, avs: seq<Version>, from: Version): seq<Version> {
    match FirstEqual(sp, avs, from)
    case None => []
    case Some(i) => avs[i..]
  }

  /**
   * `NewMigrator`: fails with `ErrInvalidVersion` unless both versions are
   * valid; otherwise keeps the suffix of `avs` that starts at `from` (not cut
   * off at `to`).
   */
  method NewMigrator(sp: SemverParser, from: Version, to: Version, avs: seq<Version>, migrations: MigrationMap)
    returns (r: Result<Migrator, Error>)
    ensures r.Failure? <==> !IsValid(sp, from) || !IsValid(sp, to)
    ensures r.Failure? ==> r.error == InvalidVersion
    ensures r.Success? ==> r.value == Migrator(to, from, SuffixFrom(sp, avs, from), migrations)
  {
    if !IsValid(sp, from) || !IsValid(sp, to) {
      return Failure(InvalidVersion);
    }
    var versions: seq<Version> := [];
    var i := 0;
    while i < |avs|
      invariant 0 <= i <= |avs|
      invariant forall j :: 0 <= j < i ==> !Equal(sp, avs[j], from)
      invariant versions == []
    {
      if Equal(sp, avs[i], from) {
        versions := avs[i..];
        break;
      }
      i := i + 1;
    }
    return Success(Migrator(to, from, versions, migrations));
  }

  /** The migrator's versions end where the registered ones end: the suffix is never cut at `to`. */
  lemma SuffixReachesNewest(sp: SemverParser, avs: seq<Version>, from: Version)
    requires SuffixFrom(sp, avs, from) != []
    ensures SuffixFrom(sp, avs, from)[|SuffixFrom(sp, avs, from)| - 1] == avs[|avs| - 1]
    ensures Equal(sp, SuffixFrom(sp, avs, from)[0], from)
  {
  }

  /** When every version has the caller's format, the suffix starts at a version the passes skip. */
  lemma SuffixStartsAtFrom(sp: SemverParser, avs: seq<Version>, from: Version)
    requires forall v :: v in avs ==> v.format == from.format
    requires SuffixFrom(sp, avs, from) != []
    ensures Equal(sp, from, SuffixFrom(sp, avs, from)[0])
  {
    var s := SuffixFrom(sp, avs, from);
    assert s[0] in avs;
    EqualSymmetricTransitive(sp, s[0], from, from);
  }

  // ------------------------------------------------------------------
  // The passes
  // ------------------------------------------------------------------

  /**
   * The migrations of one version, in list order: each whose constraint holds
   * on the current body rewrites body and header; the first error stops all.
   */
  function Chain(migs: seq<Migration>, rl: RequestLine, isReq: bool, p: Payload): (r: Result<Payload, Error>)
    ensures (forall k :: 0 <= k < |migs| ==> !migs[k].shouldMigrate(rl, p.body, isReq)) ==> r == Success(p)
  {
    if migs == [] then Success(p)
    else if !migs[0].shouldMigrate(rl, p.body, isReq) then
      assert forall k :: 0 <= k < |migs| - 1 ==> migs[1..][k] == migs[k + 1];
      Chain(migs[1..], rl, isReq, p)
    else
      match migs[0].migrate(p.body, p.header)
      case Failure(e) => Failure(e)
      case Success(q) => Chain(migs[1..], rl, isReq, q)
  }

  /** One version of the request pass: a missing list is `ErrInvalidVersion`; the caller's own version is skipped. */
  function RequestStep(sp: SemverParser, m: Migrator, rl: RequestLine, v: Version, p: Payload): (r: Result<Payload, Error>)
    ensures r.Success? ==> v.value in m.migrations
    ensures r.Failure? ==> r.error == InvalidVersion
                           || (v.value in m.migrations && SomeFailsWith(m.migrations[v.value], r.error))
  {
    if v.value !in m.migrations then Failure(InvalidVersion)
    else if Equal(sp, m.from, v) then Success(p)
    else
      ChainErrorComesFromMigration(m.migrations[v.value], rl, true, p);
      Chain(m.migrations[v.value], rl, true, p)
  }

  /** The request pass: versions in ascending (list) order. */
  function RequestRun(sp: SemverParser, m: Migrator, rl: RequestLine, vs: seq<Version>, p: Payload): (r: Result<Payload, Error>)
    ensures r.Success? ==> forall i :: 0 <= i < |vs| ==> vs[i].value in m.migrations
  {
    if vs == [] then Success(p)
    else
      match RequestStep(sp, m, rl, vs[0], p)
      case Failure(e) => Failure(e)
      case Success(q) =>
        assert forall i :: 1 <= i < |vs| ==> vs[i] == vs[1..][i - 1];
        RequestRun(sp, m, rl, vs[1..], q)
  }

  /** One version of the response pass: every failure, a missing list included, becomes `ErrServerError`. */
  function ResponseStep(sp: SemverParser, m: Migrator, rl: RequestLine, v: Version, p: Payload): (r: Result<Payload, Error>)
    ensures r.Success? ==> v.value in m.migrations
    ensures r.Failure? ==> r.error == ServerError
  {
    if v.value !in m.migrations then Failure(ServerError)
    else if Equal(sp, m.from, v) then Success(p)
    else
      match Chain(m.migrations[v.value], rl, false, p)
      case Failure(_) => Failure(ServerError)
      case Success(q) => Success(q)
  }

  /** The response pass: versions in descending order, from the last one back. */
  function ResponseRun(sp: SemverParser, m: Migrator, rl: RequestLine, vs: seq<Version>, p: Payload): (r: Result<Payload, Error>)
    ensures r.Success? ==> forall i :: 0 <= i < |vs| ==> vs[i].value in m.migrations
  {
    if vs == [] then Success(p)
    else
      match ResponseStep(sp, m, rl, vs[|vs| - 1], p)
      case Failure(e) => Failure(e)
      case Success(q) =>
        assert forall i :: 0 <= i < |vs| - 1 ==> vs[i] == vs[..|vs| - 1][i];
        ResponseRun(sp, m, rl, vs[..|vs| - 1], q)
  }

  /** The part of `http.Request` the request pass reads and replaces. */
  class HttpRequest {
    const url: string
    const httpMethod: string
    var header: Header
    var body: Body

    constructor (url: string, httpMethod: string, header: Header, body: Body)
      ensures this.url == url && this.httpMethod == httpMethod
      ensures this.header == header && this.body == body
    {
      this.url := url;
      this.httpMethod := httpMethod;
      this.header := header;
      this.body := body;
    }
  }

  /**
   * `applyRequestMigrations`: a no-op without versions; otherwise reads the
   * whole body, which leaves the request's body drained, and runs the request
   * pass. Only when it succeeds are the request's body and header replaced;
   * on failure the header is untouched, the body stays drained and the error
   * is returned unchanged.
   */
  method ApplyRequestMigrations(sp: SemverParser, m: Migrator, req: HttpRequest) returns (err: Option<Error>)
    modifies req
    ensures var res := RequestRun(sp, m, RequestLine(req.url, req.httpMethod), m.versions,
                                  Payload(old(req.body), old(req.header)));
            && (res.Success? ==> err.None? && req.body == res.value.body && req.header == res.value.header)
            && (res.Failure? ==> err == Some(res.error) && req.body == [] && req.header == old(req.header))
  {
    if m.versions == [] {
      return None;
    }
    var rl := RequestLine(req.url, req.httpMethod);
    var data, header := req.body, req.header;
    req.body := [];
    ghost var start := Payload(data, header);
    var i := 0;
    while i < |m.versions|
      invariant 0 <= i <= |m.versions|
      invariant req.body == [] && req.header == start.header
      invariant RequestRun(sp, m, rl, m.versions, start) == RequestRun(sp, m, rl, m.versions[i..], Payload(data, header))
    {
      var version := m.versions[i];
      assert m.versions[i..][1..] == m.versions[i + 1..];
      if version.value !in m.migrations {
        return Some(InvalidVersion);
      }
      if Equal(sp, m.from, version) {
        i := i + 1;
        continue;
      }
      var migrations := m.migrations[version.value];
      ghost var before := Payload(data, header);
      var j := 0;
      while j < |migrations|
        invariant 0 <= j <= |migrations|
        invariant Chain(migrations, rl, true, before) == Chain(migrations[j..], rl, true, Payload(data, header))
      {
        assert migrations[j..][1..] == migrations[j + 1..];
        var migration := migrations[j];
        if migration.shouldMigrate(rl, data, true) {
          var res := migration.migrate(data, header);
          match res
          case Failure(e) =>
            return Some(e);
          case Success(q) =>
            data, header := q.body, q.header;
        }
        j := j + 1;
      }
      i := i + 1;
    }
    req.header := header;
    req.body := data;
    return None;
  }

  /**
   * `applyResponseMigrations`: runs the response pass over the recorded
   * response; the result is what is written back, or `ErrServerError`.
   */
  method ApplyResponseMigrations(sp: SemverParser, m: Migrator, rl: RequestLine, body: Body, header: Header)
    returns (r: Result<Payload, Error>)
    ensures r == ResponseRun(sp, m, rl, m.versions, Payload(body, header))
  {
    var data, hdr := body, header;
    var i := |m.versions|;
    assert m.versions[..i] == m.versions;
    while i > 0
      invariant 0 <= i <= |m.versions|
      invariant ResponseRun(sp, m, rl, m.versions, Payload(body, header))
                == ResponseRun(sp, m, rl, m.versions[..i], Payload(data, hdr))
    {
      var version := m.versions[i - 1];
      assert m.versions[..i][..i - 1] == m.versions[..i - 1];
      if version.value !in m.migrations {
        return Failure(ServerError);
      }
      if Equal(sp, m.from, version) {
        i := i - 1;
        continue;
      }
      var migrations := m.migrations[version.value];
      ghost var before := Payload(data, hdr);
      var j := 0;
      while j < |migrations|
        invariant 0 <= j <= |migrations|
        invariant Chain(migrations, rl, false, before) == Chain(migrations[j..], rl, false, Payload(data, hdr))
      {
        assert migrations[j..][1..] == migrations[j + 1..];
        var migration := migrations[j];
        if migration.shouldMigrate(rl, data, false) {
          var res := migration.migrate(data, hdr);
          match res
          case Failure(_) =>
            return Failure(ServerError);
          case Success(q) =>
            data, hdr := q.body, q.header;
        }
        j := j + 1;
      }
      i := i - 1;
    }
    return Success(Payload(data, hdr));
  }

  // ------------------------------------------------------------------
  // Properties of the passes
  // ------------------------------------------------------------------

  /** The request pass walks `vs1 + vs2` as `vs1` (ascending) followed by `vs2`, stopping at the first error. */
  lemma {:induction false} RequestRunAppend(sp: SemverParser, m: Migrator, rl: RequestLine,
                                            vs1: seq<Version>, vs2: seq<Version>, p: Payload)
    ensures RequestRun(sp, m, rl, vs1 + vs2, p)
            == match RequestRun(sp, m, rl, vs1, p)
               case Failure(e) => Failure(e)
               case Success(q) => RequestRun(sp, m, rl, vs2, q)
  {
    if vs1 != [] {
      assert (vs1 + vs2)[1..] == vs1[1..] + vs2;
      match RequestStep(sp, m, rl, vs1[0], p)
      case Failure(e) =>
      case Success(q) => RequestRunAppend(sp, m, rl, vs1[1..], vs2, q);
    } else {
      assert vs1 + vs2 == vs2;
    }
  }

  /** The response pass walks `vs1 + vs2` backwards: all of `vs2` (descending) first, then `vs1`. */
  lemma {:induction false} ResponseRunAppend(sp: SemverParser, m: Migrator, rl: RequestLine,
                                             vs1: seq<Version>, vs2: seq<Version>, p: Payload)
    ensures ResponseRun(sp, m, rl, vs1 + vs2, p)
            == match ResponseRun(sp, m, rl, vs2, p)
               case Failure(e) => Failure(e)
               case Success(q) => ResponseRun(sp, m, rl, vs1, q)
    decreases |vs2|
  {
    if vs2 != [] {
      var vs := vs1 + vs2;
      assert vs[|vs| - 1] == vs2[|vs2| - 1];
      assert vs[..|vs| - 1] == vs1 + vs2[..|vs2| - 1];
      match ResponseStep(sp, m, rl, vs2[|vs2| - 1], p)
      case Failure(e) =>
      case Success(q) => ResponseRunAppend(sp, m, rl, vs1, vs2[..|vs2| - 1], q);
    } else {
      assert vs1 + vs2 == vs1;
    }
  }

  /** Whatever fails during the response pass, the caller sees `ErrServerError`. */
  lemma {:induction false} ResponseErrorIsServerError(sp: SemverParser, m: Migrator, rl: RequestLine,
                                                      vs: seq<Version>, p: Payload)
    ensures ResponseRun(sp, m, rl, vs, p).Failure? ==> ResponseRun(sp, m, rl, vs, p).error == ServerError
    decreases |vs|
  {
    if vs != [] {
      match ResponseStep(sp, m, rl, vs[|vs| - 1], p)
      case Failure(e) =>
      case Success(q) => ResponseErrorIsServerError(sp, m, rl, vs[..|vs| - 1], q);
    }
  }

  /** Migration `mig` can return error `e`. */
  ghost predicate FailsWith(mig: Migration, e: Error) {
    exists b, h :: mig.migrate(b, h) == Failure(e)
  }

  ghost predicate SomeFailsWith(migs: seq<Migration>, e: Error) {
    exists k :: 0 <= k < |migs| && FailsWith(migs[k], e)
  }

  /**
   * A chain over `a + b` runs the migrations of `a` in list order, then those
   * of `b` on what `a` produced; the first error stops it.
   */
  lemma {:induction false} ChainAppend(a: seq<Migration>, b: seq<Migration>, rl: RequestLine, isReq: bool, p: Payload)
    ensures Chain(a + b, rl, isReq, p)
            == match Chain(a, rl, isReq, p)
               case Failure(e) => Failure(e)
               case Success(q) => Chain(b, rl, isReq, q)
  {
    if a != [] {
      assert (a + b)[0] == a[0] && (a + b)[1..] == a[1..] + b;
      if !a[0].shouldMigrate(rl, p.body, isReq) {
        ChainAppend(a[1..], b, rl, isReq, p);
      } else {
        match a[0].migrate(p.body, p.header)
        case Failure(e) =>
        case Success(q) => ChainAppend(a[1..], b, rl, isReq, q);
      }
    } else {
      assert a + b == b;
    }
  }

  /** A chain fails only with an error one of its migrations returned. */
  lemma {:induction false} ChainErrorComesFromMigration(migs: seq<Migration>, rl: RequestLine, isReq: bool, p: Payload)
    ensures Chain(migs, rl, isReq, p).Failure? ==> SomeFailsWith(migs, Chain(migs, rl, isReq, p).error)
  {
    if migs != [] {
      var r := Chain(migs, rl, isReq, p);
      if !migs[0].shouldMigrate(rl, p.body, isReq) {
        ChainErrorComesFromMigration(migs[1..], rl, isReq, p);
        if r.Failure? {
          var k :| 0 <= k < |migs[1..]| && FailsWith(migs[1..][k], r.error);
          assert FailsWith(migs[k + 1], r.error);
        }
      } else {
        match migs[0].migrate(p.body, p.header)
        case Failure(e) =>
          assert FailsWith(migs[0], e);
        case Success(q) =>
          ChainErrorComesFromMigration(migs[1..], rl, isReq, q);
          if r.Failure? {
            var k :| 0 <= k < |migs[1..]| && FailsWith(migs[1..][k], r.error);
            assert FailsWith(migs[k + 1], r.error);
          }
      }
    }
  }

  /**
   * The request pass propagates errors unchanged: it fails with
   * `ErrInvalidVersion` (a version without a list) or with an error returned by
   * a migration registered for one of the versions walked.
   */
  lemma {:induction false} RequestErrorIsPropagated(sp: SemverParser, m: Migrator, rl: RequestLine,
                                                    vs: seq<Version>, p: Payload)
    ensures var r := RequestRun(sp, m, rl, vs, p);
            r.Failure? ==> r.error == InvalidVersion
                           || exists i :: 0 <= i < |vs| && vs[i].value in m.migrations
                                          && SomeFailsWith(m.migrations[vs[i].value], r.error)
  {
    if vs != [] {
      var r := RequestRun(sp, m, rl, vs, p);
      if vs[0].value in m.migrations && !Equal(sp, m.from, vs[0]) {
        ChainErrorComesFromMigration(m.migrations[vs[0].value], rl, true, p);
      }
      match RequestStep(sp, m, rl, vs[0], p)
      case Failure(e) =>
      case Success(q) =>
        RequestErrorIsPropagated(sp, m, rl, vs[1..], q);
        if r.Failure? && r.error != InvalidVersion {
          var i :| 0 <= i < |vs[1..]| && vs[1..][i].value in m.migrations
                   && SomeFailsWith(m.migrations[vs[1..][i].value], r.error);
          assert vs[i + 1] == vs[1..][i];
        }
    }
  }

  /** The caller's own version, first in the migrator's list, changes nothing in either pass. */
  lemma SkipsCallerVersion(sp: SemverParser, m: Migrator, rl: RequestLine, vs: seq<Version>, p: Payload)
    requires vs != [] && vs[0].value in m.migrations && Equal(sp, m.from, vs[0])
    ensures RequestRun(sp, m, rl, vs, p) == RequestRun(sp, m, rl, vs[1..], p)
    ensures ResponseRun(sp, m, rl, vs, p) == ResponseRun(sp, m, rl, vs[1..], p)
  {
    assert vs == [vs[0]] + vs[1..];
    ResponseRunAppend(sp, m, rl, [vs[0]], vs[1..], p);
    match ResponseRun(sp, m, rl, vs[1..], p)
    case Failure(e) =>
    case Success(q) =>
      assert ResponseRun(sp, m, rl, [vs[0]], q) == Success(q);
  }

  /**
   * A caller already at the newest registered version (the test's
   * "no_transformation" case): both passes return the payload untouched.
   */
  lemma NewestCallerPassesThrough(sp: SemverParser, m: Migrator, rl: RequestLine, p: Payload)
    requires |m.versions| == 1 && m.versions[0].value in m.migrations && Equal(sp, m.from, m.versions[0])
    ensures RequestRun(sp, m, rl, m.versions, p) == Success(p)
    ensures ResponseRun(sp, m, rl, m.versions, p) == Success(p)
  {
    SkipsCallerVersion(sp, m, rl, m.versions, p);
  }

  /**
   * A caller at an older date version, with one later version registered:
   * the request pass is exactly that version's migrations (with `isReq`
   * true) and the response pass likewise (with `isReq` false), any failure
   * of the latter reported as `ErrServerError`.
   */
  lemma OlderCallerIsMigrated(sp: SemverParser, m: Migrator, rl: RequestLine, p: Payload, later: string)
    requires m.from.format == DateFormat && DateLess(m.from.value, later)
    requires m.versions == [m.from, Version(DateFormat, later)]
    requires m.from.value in m.migrations && later in m.migrations
    ensures RequestRun(sp, m, rl, m.versions, p) == Chain(m.migrations[later], rl, true, p)
    ensures ResponseRun(sp, m, rl, m.versions, p)
            == match Chain(m.migrations[later], rl, false, p)
               case Failure(_) => Failure(ServerError)
               case Success(q) => Success(q)
  {
    assert !Equal(sp, m.from, Version(DateFormat, later));
    SkipsCallerVersion(sp, m, rl, m.versions, p);
    assert m.versions[1..] == [Version(DateFormat, later)];
  }

  /** A migration that never returns an error. */
  ghost predicate Infallible(mig: Migration) {
    forall b, h :: mig.migrate(b, h).Success?
  }

  lemma {:induction false} InfallibleChainSucceeds(migs: seq<Migration>, rl: RequestLine, isReq: bool, p: Payload)
    requires forall k :: 0 <= k < |migs| ==> Infallible(migs[k])
    ensures Chain(migs, rl, isReq, p).Success?
  {
    if migs != [] {
      assert Infallible(migs[0]);
      var q := migs[0].migrate(p.body, p.header);
      InfallibleChainSucceeds(migs[1..], rl, isReq, p);
      if q.Success? {
        InfallibleChainSucceeds(migs[1..], rl, isReq, q.value);
      }
    }
  }

  /** Every version walked has a list and no migration fails: both passes succeed. */
  lemma {:induction false} InfalliblePassesSucceed(sp: SemverParser, m: Migrator, rl: RequestLine,
                                                   vs: seq<Version>, p: Payload)
    requires forall i :: 0 <= i < |vs| ==> vs[i].value in m.migrations
    requires forall v, k :: v in m.migrations && 0 <= k < |m.migrations[v]| ==> Infallible(m.migrations[v][k])
    ensures RequestRun(sp, m, rl, vs, p).Success?
    ensures ResponseRun(sp, m, rl, vs, p).Success?
    decreases |vs|
  {
    if vs != [] {
      var first, last := vs[0].value, vs[|vs| - 1].value;
      InfallibleChainSucceeds(m.migrations[first], rl, true, p);
      InfallibleChainSucceeds(m.migrations[last], rl, false, p);
      match RequestStep(sp, m, rl, vs[0], p)
      case Failure(_) =>
      case Success(q) => InfalliblePassesSucceed(sp, m, rl, vs[1..], q);
      match ResponseStep(sp, m, rl, vs[|vs| - 1], p)
      case Failure(_) =>
      case Success(q) => InfalliblePassesSucceed(sp, m, rl, vs[..|vs| - 1], q);
    }
  }
}
