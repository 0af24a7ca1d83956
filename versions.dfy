/**
 * Versions (version.go): a version is a value together with the registry's
 * format. Calendar dates are parsed like Go's `time.Parse(time.DateOnly, s)`;
 * semantic versions are parsed by an external library, so the parser is a
 * parameter `sp`, while the precedence between parsed semantic versions follows
 * section 11 of Semantic Versioning 2.0.0.
 */
module Versions {
  import opened Wrappers

  /** `VersionFormat`: "semver", "date", or any other string. */
  datatype Format = SemverFormat | DateFormat | OtherFormat(name: string)

  /** `Version`; its `String()` is the `value` field itself. */
  datatype Version = Version(format: Format, value: string)

  // ------------------------------------------------------------------
  // Calendar dates, layout YYYY-MM-DD
  // ------------------------------------------------------------------

  datatype Date = Date(year: int, month: int, day: int)

  predicate IsDigit(c: char) {
    '0' <= c <= '9'
  }

  function DigitValue(c: char): nat
    requires IsDigit(c)
  {
    c as int - '0' as int
  }

  function DigitChar(n: nat): (c: char)
    requires n < 10
    ensures IsDigit(c) && DigitValue(c) == n
  {
    ('0' as int + n) as char
  }

  /** Go's `isLeap`. */
  predicate IsLeap(year: int) {
    year % 4 == 0 && (year % 100 != 0 || year % 400 == 0)
  }

  /** Go's `daysIn`: the number of days of a month in a given year. */
  function DaysIn(month: int, year: int): (n: int)
    requires 1 <= month <= 12
    ensures 28 <= n <= 31
    ensures n == 29 <==> month == 2 && IsLeap(year)
  {
    if month == 2 then (if IsLeap(year) then 29 else 28)
    else if month == 4 || month == 6 || month == 9 || month == 11 then 30
    else 31
  }

  /** A date that the four-digit layout can express. */
  predicate ValidDate(d: Date) {
    0 <= d.year <= 9999 && 1 <= d.month <= 12 && 1 <= d.day <= DaysIn(d.month, d.year)
  }

  function Pad2(n: nat): string
    requires n < 100
  {
    [DigitChar(n / 10), DigitChar(n % 10)]
  }

  function Pad4(n: nat): string
    requires n < 10000
  {
    [DigitChar(n / 1000), DigitChar(n / 100 % 10), DigitChar(n / 10 % 10), DigitChar(n % 10)]
  }

  /** `t.Format(time.DateOnly)`: zero-padded year, month and day separated by '-'. */
  function FormatDate(d: Date): (s: string)
    requires ValidDate(d)
    ensures |s| == 10 && s[4] == '-' && s[7] == '-'
  {
    Pad4(d.year) + "-" + Pad2(d.month) + "-" + Pad2(d.day)
  }

  /** Ten characters: four digits, '-', two digits, '-', two digits. */
  predicate DateShaped(s: string) {
    && |s| == 10 && s[4] == '-' && s[7] == '-'
    && IsDigit(s[0]) && IsDigit(s[1]) && IsDigit(s[2]) && IsDigit(s[3])
    && IsDigit(s[5]) && IsDigit(s[6]) && IsDigit(s[8]) && IsDigit(s[9])
  }

  function YearOf(s: string): nat
    requires DateShaped(s)
  {
    1000 * DigitValue(s[0]) + 100 * DigitValue(s[1]) + 10 * DigitValue(s[2]) + DigitValue(s[3])
  }

  function MonthOf(s: string): nat
    requires DateShaped(s)
  {
    10 * DigitValue(s[5]) + DigitValue(s[6])
  }

  function DayOf(s: string): nat
    requires DateShaped(s)
  {
    10 * DigitValue(s[8]) + DigitValue(s[9])
  }

  /**
   * `time.Parse(time.DateOnly, s)`: four year digits, '-', two month digits
   * in 01..12, '-', two day digits within the month, and nothing else.
   * A successful parse is the only reading of `s`: formatting the date gives
   * `s` back.
   */
  function ParseDate(s: string): (r: Option<Date>)
    ensures r.Some? ==> ValidDate(r.value) && FormatDate(r.value) == s
  {
    if DateShaped(s) && 1 <= MonthOf(s) <= 12 && 1 <= DayOf(s) <= DaysIn(MonthOf(s), YearOf(s)) then
      ShapedFormat(s);
      Some(Date(YearOf(s), MonthOf(s), DayOf(s)))
    else
      None
  }

  lemma ShapedFormat(s: string)
    requires DateShaped(s) && ValidDate(Date(YearOf(s), MonthOf(s), DayOf(s)))
    ensures FormatDate(Date(YearOf(s), MonthOf(s), DayOf(s))) == s
  {
    FourDigits(s[0], s[1], s[2], s[3]);
    TwoDigits(s[5], s[6]);
    TwoDigits(s[8], s[9]);
    var f := FormatDate(Date(YearOf(s), MonthOf(s), DayOf(s)));
    assert forall i :: 0 <= i < 10 ==> f[i] == s[i];
  }

  lemma TwoDigits(a: char, b: char)
    requires IsDigit(a) && IsDigit(b)
    ensures Pad2(10 * DigitValue(a) + DigitValue(b)) == [a, b]
  {
    var n := 10 * DigitValue(a) + DigitValue(b);
    assert n / 10 == DigitValue(a) && n % 10 == DigitValue(b);
  }

  lemma FourDigits(a: char, b: char, c: char, d: char)
    requires IsDigit(a) && IsDigit(b) && IsDigit(c) && IsDigit(d)
    ensures Pad4(1000 * DigitValue(a) + 100 * DigitValue(b) + 10 * DigitValue(c) + DigitValue(d)) == [a, b, c, d]
  {
    var n := 1000 * DigitValue(a) + 100 * DigitValue(b) + 10 * DigitValue(c) + DigitValue(d);
    assert n / 1000 == DigitValue(a);
    assert n / 100 == 10 * DigitValue(a) + DigitValue(b);
    assert n / 10 == 100 * DigitValue(a) + 10 * DigitValue(b) + DigitValue(c);
  }

  lemma Pad2Value(n: nat)
    requires n < 100
    ensures 10 * DigitValue(Pad2(n)[0]) + DigitValue(Pad2(n)[1]) == n
  {
  }

  lemma Pad4Value(n: nat)
    requires n < 10000
    ensures 1000 * DigitValue(Pad4(n)[0]) + 100 * DigitValue(Pad4(n)[1])
            + 10 * DigitValue(Pad4(n)[2]) + DigitValue(Pad4(n)[3]) == n
  {
    assert 1000 * (n / 1000) + 100 * (n / 100 % 10) + 10 * (n / 10 % 10) + n % 10 == n;
  }

  /** Formatting then parsing returns the date: every four-digit date has a version string. */
  lemma FormatThenParse(d: Date)
    requires ValidDate(d)
    ensures ParseDate(FormatDate(d)) == Some(d)
  {
    var s := FormatDate(d);
    var y, m, dd := Pad4(d.year), Pad2(d.month), Pad2(d.day);
    assert s[0] == y[0] && s[1] == y[1] && s[2] == y[2] && s[3] == y[3];
    assert s[5] == m[0] && s[6] == m[1] && s[8] == dd[0] && s[9] == dd[1];
    assert DateShaped(s);
    Pad4Value(d.year);
    Pad2Value(d.month);
    Pad2Value(d.day);
    assert YearOf(s) == d.year && MonthOf(s) == d.month && DayOf(s) == d.day;
  }

  /** `time.Time.Before` on two dates: strictly earlier. */
  predicate Before(x: Date, y: Date) {
    x.year < y.year
    || (x.year == y.year && x.month < y.month)
    || (x.year == y.year && x.month == y.month && x.day < y.day)
  }

  /** `Version.Equal` for the date format: both parse, to the same day. */
  predicate DateEqual(a: string, b: string) {
    ParseDate(a).Some? && ParseDate(b).Some? && ParseDate(a).value == ParseDate(b).value
  }

  /** The comparison `dateVersionSorter` makes: false unless both parse and `a` is earlier. */
  predicate DateLess(a: string, b: string) {
    ParseDate(a).Some? && ParseDate(b).Some? && Before(ParseDate(a).value, ParseDate(b).value)
  }

  // ------------------------------------------------------------------
  // Semantic versions
  // ------------------------------------------------------------------

  /** A pre-release identifier: numeric, or alphanumeric (with hyphens). */
  datatype PreId = Numeric(n: nat) | Alphanumeric(s: string)

  /** A parsed semantic version; build metadata plays no part in precedence and is not kept. */
  datatype SemVer = SemVer(major: nat, minor: nat, patch: nat, pre: seq<PreId>)

  /** The external semantic-version parser (`semver.NewVersion`): `None` is a parse error. */
  type SemverParser = string -> Option<SemVer>

  /** Lexicographic order induced by `less`; a proper prefix comes first. */
  predicate Lex<T(==)>(less: (T, T) -> bool, a: seq<T>, b: seq<T>) {
    if a == [] then b != []
    else b != [] && (less(a[0], b[0]) || (a[0] == b[0] && Lex(less, a[1..], b[1..])))
  }

  ghost predicate StrictTotal<T(!new)>(less: (T, T) -> bool) {
    && (forall x :: !less(x, x))
    && (forall x, y, z :: less(x, y) && less(y, z) ==> less(x, z))
    && (forall x, y :: x != y ==> less(x, y) || less(y, x))
  }

  lemma {:induction false} LexStrictTotal<T(!new)>(less: (T, T) -> bool, a: seq<T>, b: seq<T>, c: seq<T>)
    requires StrictTotal(less)
    ensures !Lex(less, a, a)
    ensures Lex(less, a, b) && Lex(less, b, c) ==> Lex(less, a, c)
    ensures a != b ==> Lex(less, a, b) || Lex(less, b, a)
  {
    if a != [] && b != [] && c != [] {
      LexStrictTotal(less, a[1..], b[1..], c[1..]);
      if a[0] == b[0] && a[1..] == b[1..] {
        assert a == [a[0]] + a[1..] && b == [b[0]] + b[1..];
      }
    } else if a != [] && b != [] {
      LexStrictTotal(less, a[1..], b[1..], b[1..]);
      if a[0] == b[0] && a[1..] == b[1..] {
        assert a == [a[0]] + a[1..] && b == [b[0]] + b[1..];
      }
    } else if a != [] {
      LexStrictTotal(less, a[1..], a[1..], a[1..]);
    }
  }

  /** Byte-wise string order (code-point order is the same order on UTF-8). */
  predicate CharLess(x: char, y: char) {
    x < y
  }

  /** Identifier precedence: numeric ones numerically, below alphanumeric ones, which compare lexically. */
  predicate PreIdLess(a: PreId, b: PreId) {
    match (a, b)
    case (Numeric(x), Numeric(y)) => x < y
    case (Numeric(_), Alphanumeric(_)) => true
    case (Alphanumeric(_), Numeric(_)) => false
    case (Alphanumeric(x), Alphanumeric(y)) => Lex(CharLess, x, y)
  }

  /** A version with a pre-release has lower precedence than the same version without one. */
  predicate PrereleaseLess(a: seq<PreId>, b: seq<PreId>) {
    if a == [] then false
    else if b == [] then true
    else Lex(PreIdLess, a, b)
  }

  /** Precedence (section 11 of Semantic Versioning 2.0.0): major, minor, patch, then pre-release. */
  predicate Precedes(x: SemVer, y: SemVer) {
    if x.major != y.major then x.major < y.major
    else if x.minor != y.minor then x.minor < y.minor
    else if x.patch != y.patch then x.patch < y.patch
    else PrereleaseLess(x.pre, y.pre)
  }

  lemma PreIdLessStrictTotal()
    ensures StrictTotal(PreIdLess)
  {
    assert StrictTotal(CharLess);
    forall x: PreId, y: PreId, z: PreId
      ensures !PreIdLess(x, x)
      ensures PreIdLess(x, y) && PreIdLess(y, z) ==> PreIdLess(x, z)
      ensures x != y ==> PreIdLess(x, y) || PreIdLess(y, x)
    {
      if x.Alphanumeric? && y.Alphanumeric? && z.Alphanumeric? {
        LexStrictTotal(CharLess, x.s, y.s, z.s);
      } else if x.Alphanumeric? && y.Alphanumeric? {
        LexStrictTotal(CharLess, x.s, y.s, y.s);
      } else if x.Alphanumeric? {
        LexStrictTotal(CharLess, x.s, x.s, x.s);
      }
    }
  }

  /** Precedence is a strict total order on parsed versions. */
  lemma PrecedesStrictTotal(x: SemVer, y: SemVer, z: SemVer)
    ensures !Precedes(x, x)
    ensures Precedes(x, y) && Precedes(y, z) ==> Precedes(x, z)
    ensures x != y ==> Precedes(x, y) || Precedes(y, x)
  {
    PreIdLessStrictTotal();
    LexStrictTotal(PreIdLess, x.pre, y.pre, z.pre);
    LexStrictTotal(PreIdLess, x.pre, x.pre, x.pre);
  }

  /** `Version.Equal` for semantic versions: both parse, to the same precedence. */
  predicate SemverEqual(sp: SemverParser, a: string, b: string) {
    sp(a).Some? && sp(b).Some? && sp(a).value == sp(b).value
  }

  /** The comparison `semVerSorter` makes: false unless both parse and `a` has lower precedence. */
  predicate SemverLess(sp: SemverParser, a: string, b: string) {
    sp(a).Some? && sp(b).Some? && Precedes(sp(a).value, sp(b).value)
  }

  // ------------------------------------------------------------------
  // Version operations
  // ------------------------------------------------------------------

  /** A string parses as a date exactly when it is the `DateOnly` spelling of some four-digit date. */
  lemma DateSpelling(s: string)
    ensures ParseDate(s).Some? <==> exists d :: ValidDate(d) && FormatDate(d) == s
  {
    if exists d :: ValidDate(d) && FormatDate(d) == s {
      var d :| ValidDate(d) && FormatDate(d) == s;
      FormatThenParse(d);
    }
  }

  /** `Version.IsValid`: parses under its format; a version of any other format is always valid. */
  predicate IsValid(sp: SemverParser, v: Version): (ok: bool)
    ensures v.format == DateFormat ==> (ok <==> exists d :: ValidDate(d) && FormatDate(d) == v.value)
    ensures v.format.OtherFormat? ==> ok
  {
    match v.format
    case SemverFormat => sp(v.value).Some?
    case DateFormat => DateSpelling(v.value); ParseDate(v.value).Some?
    case OtherFormat(_) => true
  }

  /** `v.Equal(w)`: decided by the receiver's format; never true for another format. */
  predicate Equal(sp: SemverParser, v: Version, w: Version): (eq: bool)
    ensures eq ==> IsValid(sp, v) && IsValid(sp, Version(v.format, w.value))
    ensures v.format.OtherFormat? ==> !eq
  {
    match v.format
    case SemverFormat => SemverEqual(sp, v.value, w.value)
    case DateFormat => DateEqual(v.value, w.value)
    case OtherFormat(_) => false
  }

  /** The "less" of the sorter chosen for format `f`; no sorter exists for other formats. */
  predicate Less(sp: SemverParser, f: Format, a: string, b: string): (lt: bool)
    ensures lt ==> !f.OtherFormat? && IsValid(sp, Version(f, a)) && IsValid(sp, Version(f, b))
  {
    match f
    case SemverFormat => SemverLess(sp, a, b)
    case DateFormat => DateLess(a, b)
    case OtherFormat(_) => false
  }

  /** Ascending under `Less`: no later element is less than an earlier one. */
  predicate Sorted(sp: SemverParser, f: Format, vs: seq<Version>) {
    forall i, j :: 0 <= i < j < |vs| ==> !Less(sp, f, vs[j].value, vs[i].value)
  }

  /** `Equal` is reflexive on valid versions of the two known formats. */
  lemma EqualReflexive(sp: SemverParser, v: Version)
    requires IsValid(sp, v) && !v.format.OtherFormat?
    ensures Equal(sp, v, v)
  {
  }

  /** Between versions of one format, `Equal` is symmetric and transitive. */
  lemma EqualSymmetricTransitive(sp: SemverParser, u: Version, v: Version, w: Version)
    requires u.format == v.format == w.format
    ensures Equal(sp, u, v) <==> Equal(sp, v, u)
    ensures Equal(sp, u, v) && Equal(sp, v, w) ==> Equal(sp, u, w)
  {
  }

  /** For dates, `Equal` holds exactly when both strings are the same valid date string. */
  lemma DateEqualIsSameString(sp: SemverParser, v: Version, w: Version)
    requires v.format == DateFormat
    ensures Equal(sp, v, w) <==> IsValid(sp, v) && v.value == w.value
  {
  }

  /** The sorters' "less" is irreflexive and transitive, for every format and every string. */
  lemma LessStrictOrder(sp: SemverParser, f: Format, a: string, b: string, c: string)
    ensures !Less(sp, f, a, a)
    ensures Less(sp, f, a, b) && Less(sp, f, b, c) ==> Less(sp, f, a, c)
  {
    match f
    case SemverFormat =>
      if sp(a).Some? && sp(b).Some? && sp(c).Some? {
        PrecedesStrictTotal(sp(a).value, sp(b).value, sp(c).value);
      } else if sp(a).Some? {
        PrecedesStrictTotal(sp(a).value, sp(a).value, sp(a).value);
      }
    case DateFormat =>
    case OtherFormat(_) =>
  }

  /** Two valid versions of a known format are equal or ordered one way: the order is total. */
  lemma LessTotal(sp: SemverParser, f: Format, a: string, b: string)
    requires !f.OtherFormat?
    requires IsValid(sp, Version(f, a)) && IsValid(sp, Version(f, b))
    ensures Equal(sp, Version(f, a), Version(f, b)) || Less(sp, f, a, b) || Less(sp, f, b, a)
    ensures Equal(sp, Version(f, a), Version(f, b)) ==> !Less(sp, f, a, b) && !Less(sp, f, b, a)
  {
    if f == SemverFormat {
      PrecedesStrictTotal(sp(a).value, sp(b).value, sp(b).value);
    }
  }

  // ------------------------------------------------------------------
  // Sorting (`sort.Slice` with a format's sorter)
  // ------------------------------------------------------------------

  /** Ascending under `lt`: no later element is less than an earlier one. */
  ghost predicate SortedBy<T>(lt: (T, T) -> bool, s: seq<T>) {
    forall i, j :: 0 <= i < j < |s| ==> !lt(s[j], s[i])
  }

  /** Every element of `s` belongs to `dom`. */
  ghost predicate Within<T>(s: seq<T>, dom: set<T>) {
    forall x :: x in multiset(s) ==> x in dom
  }

  /** On `dom`, `lt` is a strict weak order: asymmetric, and "not less" is transitive. */
  ghost predicate StrictWeakOn<T>(lt: (T, T) -> bool, dom: set<T>) {
    && (forall a, b | a in dom && b in dom :: lt(a, b) ==> !lt(b, a))
    && (forall a, b, c | a in dom && b in dom && c in dom :: !lt(a, b) && !lt(b, c) ==> !lt(a, c))
  }

  /**
   * One step of Go's `insertionSortCmpFunc`: `x` is appended after the
   * sorted prefix `p` and swapped backwards while it is less than its
   * predecessor.
   */
  function InsertBack<T>(lt: (T, T) -> bool, p: seq<T>, x: T): (r: seq<T>)
    ensures multiset(r) == multiset(p) + multiset{x}
  {
    if p != [] && lt(x, p[|p| - 1]) then
      assert p == p[..|p| - 1] + [p[|p| - 1]];
      InsertBack(lt, p[..|p| - 1], x) + [p[|p| - 1]]
    else
      p + [x]
  }

  /** Go's insertion sort: each element in turn is inserted into the sorted prefix before it. */
  function InsertionSort<T>(lt: (T, T) -> bool, s: seq<T>): (r: seq<T>)
    ensures multiset(r) == multiset(s)
  {
    if s == [] then []
    else
      assert s == s[..|s| - 1] + [s[|s| - 1]];
      InsertBack(lt, InsertionSort(lt, s[..|s| - 1]), s[|s| - 1])
  }

  /** An element that no element of a sorted list exceeds can be appended to it. */
  lemma AppendLargest<T>(lt: (T, T) -> bool, t: seq<T>, y: T)
    requires SortedBy(lt, t)
    requires forall i :: 0 <= i < |t| ==> !lt(y, t[i])
    ensures SortedBy(lt, t + [y])
  {
    var r := t + [y];
    forall i, j | 0 <= i < j < |r| ensures !lt(r[j], r[i]) {
      if j < |t| {
        assert r[i] == t[i] && r[j] == t[j];
      }
    }
  }

  /** `x`, not less than the last element of sorted `p`, is less than none of them and stays at the end. */
  lemma InsertBackStays<T>(lt: (T, T) -> bool, dom: set<T>, p: seq<T>, x: T)
    requires StrictWeakOn(lt, dom) && Within(p + [x], dom) && SortedBy(lt, p)
    requires p == [] || !lt(x, p[|p| - 1])
    ensures SortedBy(lt, p + [x])
  {
    assert multiset(p + [x]) == multiset(p) + multiset{x};
    forall i | 0 <= i < |p| ensures !lt(x, p[i]) {
      if i < |p| - 1 {
        assert !lt(p[|p| - 1], p[i]);
      }
    }
    AppendLargest(lt, p, x);
  }

  /** `last` moves behind `t`, the sorted list `x` was inserted into, when `x` is less than `last`. */
  lemma InsertBackSwapped<T>(lt: (T, T) -> bool, dom: set<T>, init: seq<T>, last: T, x: T, t: seq<T>)
    requires StrictWeakOn(lt, dom) && Within(init + [last] + [x], dom)
    requires SortedBy(lt, init + [last]) && SortedBy(lt, t) && lt(x, last)
    requires multiset(t) == multiset(init) + multiset{x}
    ensures SortedBy(lt, t + [last])
  {
    var p := init + [last];
    assert multiset(init + [last] + [x]) == multiset(init) + multiset{last} + multiset{x};
    forall i | 0 <= i < |t| ensures !lt(last, t[i]) {
      assert t[i] in multiset(init) + multiset{x};
      if t[i] != x {
        var k :| 0 <= k < |init| && init[k] == t[i];
        assert p[k] == init[k] && p[|init|] == last;
      }
    }
    AppendLargest(lt, t, last);
  }

  lemma {:induction false} InsertBackSorted<T>(lt: (T, T) -> bool, dom: set<T>, p: seq<T>, x: T)
    requires StrictWeakOn(lt, dom) && Within(p + [x], dom) && SortedBy(lt, p)
    ensures SortedBy(lt, InsertBack(lt, p, x))
  {
    if p != [] && lt(x, p[|p| - 1]) {
      var init, last := p[..|p| - 1], p[|p| - 1];
      assert p == init + [last];
      assert multiset(p + [x]) == multiset(init) + multiset{last} + multiset{x};
      assert multiset(init + [x]) == multiset(init) + multiset{x};
      assert SortedBy(lt, init) by {
        forall i, j | 0 <= i < j < |init| ensures !lt(init[j], init[i]) {
          assert init[i] == p[i] && init[j] == p[j];
        }
      }
      InsertBackSorted(lt, dom, init, x);
      InsertBackSwapped(lt, dom, init, last, x, InsertBack(lt, init, x));
    } else {
      InsertBackStays(lt, dom, p, x);
    }
  }

  /** On a strict weak order, the insertion sort's output is ascending. */
  lemma {:induction false} InsertionSortSorted<T>(lt: (T, T) -> bool, dom: set<T>, s: seq<T>)
    requires StrictWeakOn(lt, dom) && Within(s, dom)
    ensures SortedBy(lt, InsertionSort(lt, s))
  {
    if s != [] {
      var init, x := s[..|s| - 1], s[|s| - 1];
      assert s == init + [x];
      assert multiset(s) == multiset(init) + multiset{x};
      InsertionSortSorted(lt, dom, init);
      var t := InsertionSort(lt, init);
      assert multiset(t + [x]) == multiset(s);
      InsertBackSorted(lt, dom, t, x);
    }
  }

  /** Two elements of which the second is not less than the first are left in order: the sort is stable. */
  lemma KeepsPair<T>(lt: (T, T) -> bool, a: T, b: T)
    requires !lt(b, a)
    ensures InsertionSort(lt, [a, b]) == [a, b]
  {
    assert [a, b][..1] == [a];
    assert [a][..0] == [];
  }

  /** Three elements none of which is less than its predecessor are left in order, however the first and last compare. */
  lemma KeepsTriple<T>(lt: (T, T) -> bool, a: T, b: T, c: T)
    requires !lt(b, a) && !lt(c, b)
    ensures InsertionSort(lt, [a, b, c]) == [a, b, c]
  {
    assert [a, b, c][..2] == [a, b];
    KeepsPair(lt, a, b);
  }

  /** A last element less than the middle one but not than the first is moved back one place. */
  lemma SwapsLast<T>(lt: (T, T) -> bool, a: T, b: T, c: T)
    requires !lt(b, a) && lt(c, b) && !lt(c, a)
    ensures InsertionSort(lt, [a, b, c]) == [a, c, b]
  {
    assert [a, b, c][..2] == [a, b];
    KeepsPair(lt, a, b);
    assert [a, b][..1] == [a];
    assert InsertBack(lt, [a], c) == [a, c];
    assert InsertBack(lt, [a, b], c) == [a, c] + [b];
  }

  /** The sorter of format `f` as a comparison of versions. */
  function VersionLess(sp: SemverParser, f: Format): (lt: (Version, Version) -> bool)
    ensures forall a, b :: lt(a, b) == Less(sp, f, a.value, b.value)
  {
    (a: Version, b: Version) => Less(sp, f, a.value, b.value)
  }

  /**
   * `sort.Slice` with the sorter of `f`, as Go runs it on up to twelve
   * elements: an insertion sort from left to right. The result is a
   * permutation of `s`.
   */
  function SortVersions(sp: SemverParser, f: Format, s: seq<Version>): (r: seq<Version>)
    ensures multiset(r) == multiset(s)
  {
    InsertionSort(VersionLess(sp, f), s)
  }

  /** Every version in `vs` parses under format `f` (always so for any other format). */
  predicate AllParse(sp: SemverParser, f: Format, vs: seq<Version>) {
    forall i :: 0 <= i < |vs| ==> IsValid(sp, Version(f, vs[i].value))
  }

  /** Two lists holding the same versions both parse or both do not. */
  lemma AllParsePermutation(sp: SemverParser, f: Format, a: seq<Version>, b: seq<Version>)
    requires multiset(a) == multiset(b) && AllParse(sp, f, a)
    ensures AllParse(sp, f, b)
  {
    forall i | 0 <= i < |b| ensures IsValid(sp, Version(f, b[i].value)) {
      assert b[i] in multiset(a);
      var k :| 0 <= k < |a| && a[k] == b[i];
    }
  }

  /** On versions that parse, "not less" is transitive: the sorters' "less" is a strict weak order there. */
  lemma NotLessTransitive(sp: SemverParser, f: Format, a: string, b: string, c: string)
    requires IsValid(sp, Version(f, a)) && IsValid(sp, Version(f, b)) && IsValid(sp, Version(f, c))
    requires !Less(sp, f, a, b) && !Less(sp, f, b, c)
    ensures !Less(sp, f, a, c)
  {
    if f == SemverFormat {
      var x, y, z := sp(a).value, sp(b).value, sp(c).value;
      PrecedesStrictTotal(x, y, z);
      PrecedesStrictTotal(y, z, x);
      PrecedesStrictTotal(z, x, y);
      PrecedesStrictTotal(x, z, y);
      PrecedesStrictTotal(y, x, z);
      PrecedesStrictTotal(z, y, x);
    }
  }

  /** The versions of `s` form a domain on which the format's sorter is a strict weak order, when they all parse. */
  lemma ParsedAreWeaklyOrdered(sp: SemverParser, f: Format, s: seq<Version>)
    requires AllParse(sp, f, s)
    ensures StrictWeakOn(VersionLess(sp, f), set v | v in s) && Within(s, set v | v in s)
  {
    var dom := set v | v in s;
    var lt := VersionLess(sp, f);
    forall a, b | a in dom && b in dom ensures lt(a, b) ==> !lt(b, a) {
      LessStrictOrder(sp, f, a.value, b.value, a.value);
    }
    forall a, b, c | a in dom && b in dom && c in dom ensures !lt(a, b) && !lt(b, c) ==> !lt(a, c) {
      var i :| 0 <= i < |s| && s[i] == a;
      var j :| 0 <= j < |s| && s[j] == b;
      var k :| 0 <= k < |s| && s[k] == c;
      if !lt(a, b) && !lt(b, c) {
        NotLessTransitive(sp, f, a.value, b.value, c.value);
      }
    }
  }

  /** When every version parses, the sort's output is ascending under the format's sorter. */
  lemma SortSorted(sp: SemverParser, f: Format, s: seq<Version>)
    requires AllParse(sp, f, s)
    ensures Sorted(sp, f, SortVersions(sp, f, s))
  {
    ParsedAreWeaklyOrdered(sp, f, s);
    InsertionSortSorted(VersionLess(sp, f), (set v | v in s), s);
    var r := SortVersions(sp, f, s);
    assert SortedBy(VersionLess(sp, f), r);
  }

  /** Two versions of equal precedence keep their order: Go's insertion sort swaps only on "less". */
  lemma KeepsEqualPair(sp: SemverParser, f: Format, a: Version, b: Version)
    requires !Less(sp, f, b.value, a.value)
    ensures SortVersions(sp, f, [a, b]) == [a, b]
  {
    KeepsPair(VersionLess(sp, f), a, b);
  }

  /** The three dates of `UnparsableDateBlocksSorting`: "bad" does not parse, and January comes before February. */
  lemma ThreeDates()
    ensures ParseDate("bad").None?
    ensures DateLess("2023-01-01", "2023-02-01") && !DateLess("2023-02-01", "2023-01-01")
  {
    assert DateShaped("2023-01-01") && DateShaped("2023-02-01");
  }

  /**
   * A version that does not parse is never less nor greater than another,
   * so it blocks every swap across it: the sort leaves `[a, b, c]` as it is
   * even when `c` is less than `a`.
   */
  lemma UnparsableBlocksSorting(sp: SemverParser, f: Format, a: Version, b: Version, c: Version)
    requires !IsValid(sp, Version(f, b.value)) && Less(sp, f, c.value, a.value)
    ensures SortVersions(sp, f, [a, b, c]) == [a, b, c] && !Sorted(sp, f, [a, b, c])
  {
    assert !Less(sp, f, b.value, a.value) && !Less(sp, f, c.value, b.value);
    KeepsTriple(VersionLess(sp, f), a, b, c);
  }

  /**
   * With the dates 2023-02-01, "bad" and 2023-01-01 the sort makes no swap,
   * as Go's insertion sort does, so the result is not ascending.
   */
  lemma UnparsableDateBlocksSorting(sp: SemverParser)
    ensures var vs := [Version(DateFormat, "2023-02-01"), Version(DateFormat, "bad"), Version(DateFormat, "2023-01-01")];
            SortVersions(sp, DateFormat, vs) == vs && !Sorted(sp, DateFormat, vs)
  {
    ThreeDates();
    UnparsableBlocksSorting(sp, DateFormat, Version(DateFormat, "2023-02-01"), Version(DateFormat, "bad"), Version(DateFormat, "2023-01-01"));
  }
}
