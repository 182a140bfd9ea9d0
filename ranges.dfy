/** node-semver ranges in their parsed form, and `maxSatisfying`.

    A range string such as `>=1.2.3 <1.3.0-0 || 2.x` parses into a union of
    comparator sets; a version satisfies it when it passes every comparator
    of one set and, if it is a pre-release, that set names a pre-release of
    the same major.minor.patch (node-semver's `testSet`). Parsing the string
    syntax is not part of this model: ranges are given already parsed, and
    only `*`, `~v` and `^v` are built here. */
module Ranges {
  import opened Results
  import opened SemVer

  datatype Op = Less | AtMost | Greater | AtLeast | Exactly

  datatype Comparator = Comparator(op: Op, bound: Version)

  /** A conjunction of comparators; the empty set is node-semver's ANY. */
  type ComparatorSet = seq<Comparator>

  /** A union (`||`) of comparator sets. */
  type Range = seq<ComparatorSet>

  predicate TestComparator(c: Comparator, v: Version) {
    match c.op
    case Less => Lt(v, c.bound)
    case AtMost => Lte(v, c.bound)
    case Greater => Gt(v, c.bound)
    case AtLeast => Gte(v, c.bound)
    case Exactly => Compare(v, c.bound) == 0
  }

  /** node-semver's `testSet` without `includePrerelease`: a pre-release only
      matches when some comparator of the set is a pre-release of its triple. */
  predicate TestSet(cs: ComparatorSet, v: Version) {
    (forall i | 0 <= i < |cs| :: TestComparator(cs[i], v))
    && (!IsPrerelease(v)
        || exists i | 0 <= i < |cs| :: IsPrerelease(cs[i].bound) && SameTriple(cs[i].bound, v))
  }

  /** `semver.satisfies(v, range)` */
  predicate Satisfies(v: Version, r: Range) {
    exists i | 0 <= i < |r| :: TestSet(r[i], v)
  }

  /** `*`, and also the empty range string. */
  const Any: Range := [[]]

  /** `M.m.p-0`: the lowest version of a triple, used as an exclusive ceiling. */
  function Floor(major: nat, minor: nat, patch: nat): Version {
    Version(major, minor, patch, [Num(0)])
  }

  /** `~v`, desugared as `>=v <M.(m+1).0-0`. Its members are given by
      `TildeMembers`; v itself is always one. */
  function Tilde(v: Version): (r: Range)
    ensures Satisfies(v, r)
  {
    var cs := [Comparator(AtLeast, v), Comparator(Less, Floor(v.major, v.minor + 1, 0))];
    CompareZero(v, v);
    CompareByTriple(v, cs[1].bound);
    assert TestComparator(cs[0], v) && TestComparator(cs[1], v);
    assert IsPrerelease(v) ==> IsPrerelease(cs[0].bound) && SameTriple(cs[0].bound, v);
    assert TestSet([cs][0], v);
    [cs]
  }

  /** The exclusive ceiling of `^v`: the next major, or the next minor when
      the major is 0, or the next patch when major and minor are both 0. */
  function CaretCeiling(v: Version): Version {
    if v.major > 0 then Floor(v.major + 1, 0, 0)
    else if v.minor > 0 then Floor(0, v.minor + 1, 0)
    else Floor(0, 0, v.patch + 1)
  }

  /** `^v`, desugared as `>=v <CaretCeiling(v)`. Its members are given by
      `CaretMembers`; v itself is always one. */
  function Caret(v: Version): (r: Range)
    ensures Satisfies(v, r)
  {
    var cs := [Comparator(AtLeast, v), Comparator(Less, CaretCeiling(v))];
    CompareZero(v, v);
    CompareByTriple(v, cs[1].bound);
    assert TestComparator(cs[0], v) && TestComparator(cs[1], v);
    assert IsPrerelease(v) ==> IsPrerelease(cs[0].bound) && SameTriple(cs[0].bound, v);
    assert TestSet([cs][0], v);
    [cs]
  }

  /** w lies on the line that `^v` spans: the same major when that is at
      least 1, else the same minor when that is at least 1, else the same
      patch. */
  predicate OnCaretLine(v: Version, w: Version) {
    if v.major > 0 then w.major == v.major
    else if v.minor > 0 then w.major == 0 && w.minor == v.minor
    else w.major == 0 && w.minor == 0 && w.patch == v.patch
  }

  /** The union of a list of ranges, as one range string joined by `||`. */
  function Union(rs: seq<Range>): Range {
    if rs == [] then [] else rs[0] + Union(rs[1..])
  }

  /** `rs.join(' || ')` read back as a range. The empty list joins to the
      empty string, which node-semver reads as `*`. */
  function JoinRanges(rs: seq<Range>): Range {
    if rs == [] then Any else Union(rs)
  }

  /** `semver.maxSatisfying(vs, r)`: a left-to-right scan that replaces the
      current maximum by a satisfying entry only when that entry is strictly
      higher, so among equals the first one wins. */
  function MaxSatisfying(vs: seq<Version>, r: Range): (m: Option<Version>)
    ensures m.None? <==> forall i | 0 <= i < |vs| :: !Satisfies(vs[i], r)
    ensures m.Some? ==> m.value in vs && Satisfies(m.value, r)
    ensures m.Some? ==> forall w | w in vs && Satisfies(w, r) :: Lte(w, m.value)
    decreases |vs|
  {
    if vs == [] then None
    else
      var prefix := vs[..|vs| - 1];
      var best := MaxSatisfying(prefix, r);
      var v := vs[|vs| - 1];
      assert vs == prefix + [v];
      if Satisfies(v, r) && (best.None? || Lt(best.value, v)) then
        CompareZero(v, v);
        assert forall w | w in prefix && Satisfies(w, r) :: Lte(w, v) by {
          forall w | w in prefix && Satisfies(w, r) ensures Lte(w, v) {
            LteTransitive(w, best.value, v);
          }
        }
        Some(v)
      else
        assert best.Some? && Satisfies(v, r) ==> Lte(v, best.value) by {
          if best.Some? { NotLtIsGte(best.value, v); }
        }
        best
  }

  // ---------------------------------------------------------------------------
  // What the ranges above match

  /** `*` matches exactly the releases. */
  lemma SatisfiesAny(v: Version)
    ensures Satisfies(v, Any) <==> !IsPrerelease(v)
  {
    assert Any[0] == [];
  }

  /** Below a `-0` floor means below its triple: no version of that triple,
      pre-release or not, ranks under `M.m.p-0`. */
  lemma BelowFloor(w: Version, major: nat, minor: nat, patch: nat)
    ensures Lt(w, Floor(major, minor, patch)) <==> TripleLt(w, Floor(major, minor, patch))
  {
    var f := Floor(major, minor, patch);
    CompareByTriple(w, f);
    if SameTriple(w, f) && w.pre != [] {
      if w.pre[0] == Num(0) {
        assert ComparePreIds(w.pre, f.pre) == ComparePreIds(w.pre[1..], []);
      }
    }
  }

  /** `~v` holds the versions of v's major.minor line from v upwards; a
      pre-release only when v is a pre-release of the same triple. */
  lemma TildeMembers(v: Version, w: Version)
    ensures Satisfies(w, Tilde(v)) <==>
      w.major == v.major && w.minor == v.minor && Gte(w, v)
      && (IsPrerelease(w) ==> IsPrerelease(v) && SameTriple(w, v))
  {
    var cs := Tilde(v)[0];
    BelowFloor(w, v.major, v.minor + 1, 0);
    CompareByTriple(w, v);
    if Satisfies(w, Tilde(v)) {
      assert TestSet(cs, w);
      assert TestComparator(cs[0], w) && TestComparator(cs[1], w);
      if IsPrerelease(w) {
        var i :| 0 <= i < |cs| && IsPrerelease(cs[i].bound) && SameTriple(cs[i].bound, w);
        assert i == 0;
      }
    }
    if w.major == v.major && w.minor == v.minor && Gte(w, v)
       && (IsPrerelease(w) ==> IsPrerelease(v) && SameTriple(w, v)) {
      assert TestComparator(cs[0], w) && TestComparator(cs[1], w);
      if IsPrerelease(w) {
        assert IsPrerelease(cs[0].bound) && SameTriple(cs[0].bound, w);
      }
      assert TestSet(cs, w);
    }
  }

  /** For a release v, `^v` holds exactly the releases on v's caret line
      from v upwards. */
  lemma CaretMembers(v: Version, w: Version)
    requires !IsPrerelease(v)
    ensures Satisfies(w, Caret(v)) <==> !IsPrerelease(w) && OnCaretLine(v, w) && Gte(w, v)
  {
    var c := CaretCeiling(v);
    var cs := Caret(v)[0];
    BelowFloor(w, c.major, c.minor, c.patch);
    CompareByTriple(w, v);
    if Satisfies(w, Caret(v)) {
      assert TestSet(cs, w);
      assert TestComparator(cs[0], w) && TestComparator(cs[1], w);
    }
    if !IsPrerelease(w) && OnCaretLine(v, w) && Gte(w, v) {
      assert TestComparator(cs[0], w) && TestComparator(cs[1], w);
      assert TestSet(cs, w);
    }
  }

  /** A release satisfies its own caret range. */
  lemma CaretHoldsItself(v: Version)
    requires !IsPrerelease(v)
    ensures Satisfies(v, Caret(v))
  {
    CompareZero(v, v);
    CaretMembers(v, v);
  }

  /** Caret lines partition the releases: being on the same line is
      symmetric. */
  lemma OnCaretLineSymmetric(v: Version, w: Version)
    ensures OnCaretLine(v, w) <==> OnCaretLine(w, v)
  {
  }

  lemma {:induction false} UnionSatisfies(v: Version, rs: seq<Range>)
    ensures Satisfies(v, Union(rs)) <==> exists k | 0 <= k < |rs| :: Satisfies(v, rs[k])
  {
    if rs != [] {
      UnionSatisfies(v, rs[1..]);
      var u := Union(rs);
      assert u == rs[0] + Union(rs[1..]);
      if Satisfies(v, u) {
        var i :| 0 <= i < |u| && TestSet(u[i], v);
        if i < |rs[0]| {
          assert TestSet(rs[0][i], v);
          assert Satisfies(v, rs[0]);
        } else {
          assert TestSet(Union(rs[1..])[i - |rs[0]|], v);
          var k :| 0 <= k < |rs| - 1 && Satisfies(v, rs[1..][k]);
          assert Satisfies(v, rs[k + 1]);
        }
      }
      if exists k | 0 <= k < |rs| :: Satisfies(v, rs[k]) {
        var k :| 0 <= k < |rs| && Satisfies(v, rs[k]);
        if k == 0 {
          var i :| 0 <= i < |rs[0]| && TestSet(rs[0][i], v);
          assert u[i] == rs[0][i];
        } else {
          assert Satisfies(v, rs[1..][k - 1]);
          var i :| 0 <= i < |Union(rs[1..])| && TestSet(Union(rs[1..])[i], v);
          assert u[|rs[0]| + i] == Union(rs[1..])[i];
        }
      }
    }
  }

  /** The joined ignore list matches a version when one of its entries does;
      an empty list matches every release. */
  lemma JoinedSatisfies(v: Version, rs: seq<Range>)
    ensures Satisfies(v, JoinRanges(rs)) <==>
      if rs == [] then !IsPrerelease(v)
      else exists k | 0 <= k < |rs| :: Satisfies(v, rs[k])
  {
    if rs == [] {
      SatisfiesAny(v);
    } else {
      UnionSatisfies(v, rs);
    }
  }

  /** The maximum is unique: a satisfying entry that no satisfying entry
      exceeds is the one `maxSatisfying` returns. */
  lemma MaxSatisfyingIs(vs: seq<Version>, r: Range, x: Version)
    requires x in vs && Satisfies(x, r)
    requires forall w | w in vs && Satisfies(w, r) :: Lte(w, x)
    ensures MaxSatisfying(vs, r) == Some(x)
  {
    var i :| 0 <= i < |vs| && vs[i] == x;
    var m := MaxSatisfying(vs, r);
    assert m.Some?;
    assert Lte(m.value, x) && Lte(x, m.value);
    CompareFlip(m.value, x);
    CompareZero(m.value, x);
  }
}
