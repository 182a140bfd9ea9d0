/** Semantic versions and their precedence, as node-semver's `compare`
    implements section 11 of Semantic Versioning 2.0.0 (pre-release
    identifiers per section 9). Build metadata plays no part in precedence
    and is not represented. */
module SemVer {

  /** A pre-release identifier. node-semver turns an identifier made only of
      digits into a number; every other identifier stays a string, so an
      `Alnum` identifier holds at least one non-digit. */
  datatype Ident = Num(n: nat) | Alnum(s: string)

  datatype Version = Version(major: nat, minor: nat, patch: nat, pre: seq<Ident>)

  /** `semver.prerelease(v)` is non-empty. */
  predicate IsPrerelease(v: Version) {
    v.pre != []
  }

  /** The same major.minor.patch triple, whatever the pre-release. */
  predicate SameTriple(a: Version, b: Version) {
    a.major == b.major && a.minor == b.minor && a.patch == b.patch
  }

  function CompareNat(a: nat, b: nat): int {
    if a < b then -1 else if a > b then 1 else 0
  }

  /** JavaScript's `<` on strings: lexicographic on code units, a proper
      prefix being smaller. */
  function CompareChars(a: string, b: string): (c: int)
    ensures -1 <= c <= 1
    decreases |a|
  {
    if a == [] && b == [] then 0
    else if a == [] then -1
    else if b == [] then 1
    else if a[0] < b[0] then -1
    else if a[0] > b[0] then 1
    else CompareChars(a[1..], b[1..])
  }

  /** node-semver's `compareIdentifiers`: numbers compare numerically and
      rank below strings. */
  function CompareIdent(a: Ident, b: Ident): (c: int)
    ensures -1 <= c <= 1
  {
    match (a, b)
    case (Num(x), Num(y)) => CompareNat(x, y)
    case (Num(_), Alnum(_)) => -1
    case (Alnum(_), Num(_)) => 1
    case (Alnum(x), Alnum(y)) => CompareChars(x, y)
  }

  /** The identifier-by-identifier loop of node-semver's `comparePre`: the
      first differing identifier decides, and a list that runs out first is
      smaller. */
  function ComparePreIds(a: seq<Ident>, b: seq<Ident>): (c: int)
    ensures -1 <= c <= 1
    decreases |a|
  {
    if a == [] && b == [] then 0
    else if b == [] then 1
    else if a == [] then -1
    else if a[0] == b[0] then ComparePreIds(a[1..], b[1..])
    else CompareIdent(a[0], b[0])
  }

  /** node-semver's `compareMain`: major, then minor, then patch. */
  function CompareMain(a: Version, b: Version): int {
    if a.major != b.major then CompareNat(a.major, b.major)
    else if a.minor != b.minor then CompareNat(a.minor, b.minor)
    else CompareNat(a.patch, b.patch)
  }

  /** node-semver's `comparePre`: a release ranks above every pre-release of
      the same triple. */
  function ComparePre(a: Version, b: Version): int {
    if a.pre != [] && b.pre == [] then -1
    else if a.pre == [] && b.pre != [] then 1
    else ComparePreIds(a.pre, b.pre)
  }

  /** `semver.compare(a, b)`: -1, 0 or 1. */
  function Compare(a: Version, b: Version): (c: int)
    ensures -1 <= c <= 1
    ensures c == 0 ==> SameTriple(a, b)
  {
    var m := CompareMain(a, b);
    if m != 0 then m else ComparePre(a, b)
  }

  /** `semver.lt`, `semver.gt`, `semver.lte`, `semver.gte`. */
  predicate Lt(a: Version, b: Version) { Compare(a, b) == -1 }
  predicate Gt(a: Version, b: Version) { Compare(a, b) == 1 }
  predicate Lte(a: Version, b: Version) { Compare(a, b) != 1 }
  predicate Gte(a: Version, b: Version) { Compare(a, b) != -1 }

  /** The triple order, on which precedence is decided first. */
  predicate TripleLt(a: Version, b: Version) {
    a.major < b.major
    || (a.major == b.major && a.minor < b.minor)
    || (a.major == b.major && a.minor == b.minor && a.patch < b.patch)
  }

  // ---------------------------------------------------------------------------
  // Compare is a total order whose equivalence is equality

  lemma {:induction false} CompareCharsZero(a: string, b: string)
    ensures CompareChars(a, b) == 0 <==> a == b
    decreases |a|
  {
    if a != [] && b != [] && a[0] == b[0] {
      CompareCharsZero(a[1..], b[1..]);
      assert a == [a[0]] + a[1..] && b == [b[0]] + b[1..];
    }
  }

  lemma {:induction false} CompareCharsFlip(a: string, b: string)
    ensures CompareChars(a, b) == -CompareChars(b, a)
    decreases |a|
  {
    if a != [] && b != [] && a[0] == b[0] {
      CompareCharsFlip(a[1..], b[1..]);
    }
  }

  lemma {:induction false} CompareCharsTransitive(a: string, b: string, c: string)
    requires CompareChars(a, b) == -1 && CompareChars(b, c) == -1
    ensures CompareChars(a, c) == -1
    decreases |a|
  {
    if a != [] && b != [] && c != [] && a[0] == b[0] && b[0] == c[0] {
      CompareCharsTransitive(a[1..], b[1..], c[1..]);
    }
  }

  lemma CompareIdentZero(a: Ident, b: Ident)
    ensures CompareIdent(a, b) == 0 <==> a == b
  {
    if a.Alnum? && b.Alnum? {
      CompareCharsZero(a.s, b.s);
    }
  }

  lemma CompareIdentFlip(a: Ident, b: Ident)
    ensures CompareIdent(a, b) == -CompareIdent(b, a)
  {
    if a.Alnum? && b.Alnum? {
      CompareCharsFlip(a.s, b.s);
    }
  }

  lemma CompareIdentTransitive(a: Ident, b: Ident, c: Ident)
    requires CompareIdent(a, b) == -1 && CompareIdent(b, c) == -1
    ensures CompareIdent(a, c) == -1
  {
    if a.Alnum? && b.Alnum? && c.Alnum? {
      CompareCharsTransitive(a.s, b.s, c.s);
    }
  }

  lemma {:induction false} ComparePreIdsZero(a: seq<Ident>, b: seq<Ident>)
    ensures ComparePreIds(a, b) == 0 <==> a == b
    decreases |a|
  {
    if a != [] && b != [] {
      if a[0] == b[0] {
        ComparePreIdsZero(a[1..], b[1..]);
        assert a == [a[0]] + a[1..] && b == [b[0]] + b[1..];
      } else {
        CompareIdentZero(a[0], b[0]);
      }
    }
  }

  lemma {:induction false} ComparePreIdsFlip(a: seq<Ident>, b: seq<Ident>)
    ensures ComparePreIds(a, b) == -ComparePreIds(b, a)
    decreases |a|
  {
    if a != [] && b != [] {
      if a[0] == b[0] {
        ComparePreIdsFlip(a[1..], b[1..]);
      } else {
        CompareIdentFlip(a[0], b[0]);
      }
    }
  }

  lemma {:induction false} ComparePreIdsTransitive(a: seq<Ident>, b: seq<Ident>, c: seq<Ident>)
    requires ComparePreIds(a, b) == -1 && ComparePreIds(b, c) == -1
    ensures ComparePreIds(a, c) == -1
    decreases |a|
  {
    if a != [] && b != [] && c != [] {
      if a[0] == b[0] && b[0] == c[0] {
        ComparePreIdsTransitive(a[1..], b[1..], c[1..]);
      } else if a[0] == b[0] {
        // decided by b[0] against c[0]
      } else if b[0] == c[0] {
        // decided by a[0] against b[0]
      } else {
        CompareIdentTransitive(a[0], b[0], c[0]);
        CompareIdentZero(a[0], c[0]);
      }
    }
  }

  /** Equal precedence means the same version. */
  lemma CompareZero(a: Version, b: Version)
    ensures Compare(a, b) == 0 <==> a == b
  {
    ComparePreIdsZero(a.pre, b.pre);
  }

  /** Swapping the arguments negates the comparison. */
  lemma CompareFlip(a: Version, b: Version)
    ensures Compare(a, b) == -Compare(b, a)
  {
    ComparePreIdsFlip(a.pre, b.pre);
  }

  lemma CompareTransitive(a: Version, b: Version, c: Version)
    requires Lt(a, b) && Lt(b, c)
    ensures Lt(a, c)
  {
    if SameTriple(a, b) && SameTriple(b, c) && a.pre != [] && b.pre != [] && c.pre != [] {
      ComparePreIdsTransitive(a.pre, b.pre, c.pre);
    }
  }

  /** Precedence is a total order: exactly one of a < b, a == b, a > b. */
  lemma CompareTotal(a: Version, b: Version)
    ensures Lt(a, b) || a == b || Gt(a, b)
    ensures Lte(a, b) && Gte(a, b) ==> a == b
  {
    CompareZero(a, b);
  }

  /** Versions with different triples are ordered by their triples alone. */
  lemma CompareByTriple(a: Version, b: Version)
    ensures TripleLt(a, b) ==> Lt(a, b)
    ensures !SameTriple(a, b) && !TripleLt(a, b) ==> Gt(a, b)
  {
  }

  lemma LteTransitive(a: Version, b: Version, c: Version)
    requires Lte(a, b) && Lte(b, c)
    ensures Lte(a, c)
    ensures Lt(a, b) || Lt(b, c) ==> Lt(a, c)
  {
    CompareZero(a, b);
    CompareZero(b, c);
    if Lt(a, b) && Lt(b, c) {
      CompareTransitive(a, b, c);
    }
  }

  /** Not below means at or above. */
  lemma NotLtIsGte(a: Version, b: Version)
    ensures !Lt(a, b) <==> Lte(b, a)
    ensures !Gt(a, b) <==> Gte(b, a)
  {
    CompareFlip(a, b);
  }
}
