/** The version-freshness check of the MongoDB CI checker (`VersionCheck`):
    validating the options, finding a newer patch of a tested version,
    finding the newer minor and major lines that no environment tests, and
    deciding whether the run fails.

    The released catalogue and the tested environments are inputs here: how
    they are fetched and read, and how results are printed, is not part of
    this model. */
module VersionCheck {
  import opened Results
  import opened SemVer
  import opened Ranges

  /** What the check throws. */
  datatype Error =
    | InvalidConfig       // `Errors.Error.invalidConfig`
    | OptionsNotAnObject  // destructuring `undefined` or `null` options throws a TypeError
    | InvalidVersionNull  // `semver.gt` handed `null` throws a TypeError

  // ---------------------------------------------------------------------------
  // Configuration (the constructor)

  /** The options object; `None` is a key whose value is `undefined`. */
  datatype Options = Options(
    keyVersion: Option<string>,
    keyEnvironments: Option<string>,
    pathToYamlFile: Option<string>,
    ignoreVersions: Option<seq<Range>>)

  /** A constructed checker. Its settings are assigned once, by the
      constructor, and never change afterwards. */
  datatype Checker = Checker(
    keyVersion: string,
    keyEnvironments: string,
    pathToYamlFile: string,
    ignoreVersions: seq<Range>)

  /** `new VersionCheck(options)`: `options` is `None` when it is `undefined`
      or `null`. */
  function Construct(options: Option<Options>): (r: Result<Checker, Error>)
    ensures options.None? ==> r == Failure(OptionsNotAnObject)
    ensures options.Some? ==>
      (r.Failure? <==> options.value.keyVersion.None? || options.value.keyEnvironments.None?
                         || options.value.pathToYamlFile.None?)
    ensures options.Some? && r.Failure? ==> r.error == InvalidConfig
    ensures r.Success? ==>
      && Some(r.value.keyVersion) == options.value.keyVersion
      && Some(r.value.keyEnvironments) == options.value.keyEnvironments
      && Some(r.value.pathToYamlFile) == options.value.pathToYamlFile
      && r.value.ignoreVersions == options.value.ignoreVersions.GetOr([])
  {
    match options
    case None => Failure(OptionsNotAnObject)
    case Some(o) =>
      if o.keyVersion.None? || o.keyEnvironments.None? || o.pathToYamlFile.None? then
        Failure(InvalidConfig)
      else
        Success(Checker(o.keyVersion.value, o.keyEnvironments.value, o.pathToYamlFile.value,
                        o.ignoreVersions.GetOr([])))
  }

  // ---------------------------------------------------------------------------
  // Newer patch of a tested version

  /** `getNewerPatch(versions, version)`: the highest entry of `~version`,
      when it is above `version`. `semver.gt` throws when no entry satisfies
      `~version`. What the result means is stated by `NewerPatchMeaning`. */
  function NewerPatch(versions: seq<Version>, version: Version): (r: Result<Option<Version>, Error>)
    ensures r.Failure? ==> r.error == InvalidVersionNull
    ensures r.Success? && r.value.Some? ==> r.value.value in versions && Gt(r.value.value, version)
  {
    var latest := MaxSatisfying(versions, Tilde(version));
    if latest.None? then Failure(InvalidVersionNull)
    else if Gt(latest.value, version) then Success(Some(latest.value))
    else Success(None)
  }

  /** The search throws exactly when no entry satisfies `~version`. A newer
      patch it returns is an entry of the same major.minor above `version`,
      a pre-release only when `version` is a pre-release of its triple, and
      the highest entry of `~version`; it returns nothing exactly when no
      entry of `~version` is above `version`. */
  lemma NewerPatchMeaning(versions: seq<Version>, version: Version)
    ensures var r := NewerPatch(versions, version);
      r.Failure? <==> forall i | 0 <= i < |versions| :: !Satisfies(versions[i], Tilde(version))
    ensures var r := NewerPatch(versions, version);
      r.Success? && r.value.Some? ==>
        var w := r.value.value;
        && w.major == version.major && w.minor == version.minor
        && (IsPrerelease(w) ==> IsPrerelease(version) && w.patch == version.patch)
        && forall u | u in versions && Satisfies(u, Tilde(version)) :: Lte(u, w)
    ensures var r := NewerPatch(versions, version);
      r.Success? ==>
        (r.value.None? <==> forall u | u in versions && Satisfies(u, Tilde(version)) :: Lte(u, version))
  {
    var latest := MaxSatisfying(versions, Tilde(version));
    if latest.Some? {
      if Gt(latest.value, version) {
        TildeMembers(version, latest.value);
        CompareByTriple(latest.value, version);
      } else {
        forall u | u in versions && Satisfies(u, Tilde(version)) ensures Lte(u, version) {
          LteTransitive(u, latest.value, version);
        }
      }
    }
  }

  /** For a released version, the search reports a newer patch exactly when
      the catalogue holds a release of the same major.minor with a higher
      patch, and throws exactly when it holds no release of that line at or
      above the version. */
  lemma NewerPatchOfRelease(versions: seq<Version>, version: Version)
    requires !IsPrerelease(version)
    ensures NewerPatch(versions, version).Failure? <==>
      forall w | w in versions && !IsPrerelease(w) && w.major == version.major && w.minor == version.minor
        :: w.patch < version.patch
    ensures NewerPatch(versions, version).Success? ==>
      (NewerPatch(versions, version).value.Some? <==>
        exists w | w in versions && !IsPrerelease(w) :: w.major == version.major && w.minor == version.minor
          && w.patch > version.patch)
  {
    var r := NewerPatch(versions, version);
    NewerPatchMeaning(versions, version);
    forall w | w in versions
      ensures Satisfies(w, Tilde(version)) <==>
        !IsPrerelease(w) && w.major == version.major && w.minor == version.minor && w.patch >= version.patch
      ensures Satisfies(w, Tilde(version)) ==>
        (Lte(w, version) <==> w.patch == version.patch)
    {
      TildeMembers(version, w);
      CompareByTriple(w, version);
      CompareZero(w, version);
    }
    if r.Failure? {
      forall w | w in versions && !IsPrerelease(w) && w.major == version.major && w.minor == version.minor
        ensures w.patch < version.patch
      {
        var i :| 0 <= i < |versions| && versions[i] == w;
      }
    }
    if r.Success? && r.value.None? {
      forall w | w in versions && !IsPrerelease(w) && w.major == version.major && w.minor == version.minor
        ensures w.patch <= version.patch
      {
      }
    }
  }

  // ---------------------------------------------------------------------------
  // Untested minor and major lines

  /** `semver.maxSatisfying(tested, '*')`: the highest tested release, or
      `None` (JavaScript `null`) when every tested version is a pre-release. */
  function HighestTested(tested: seq<Version>): (h: Option<Version>)
    ensures h.None? <==> forall i | 0 <= i < |tested| :: IsPrerelease(tested[i])
    ensures h.Some? ==> h.value in tested && !IsPrerelease(h.value)
    ensures h.Some? ==> forall t | t in tested && !IsPrerelease(t) :: Lte(t, h.value)
  {
    assert forall v :: Satisfies(v, Any) <==> !IsPrerelease(v) by {
      forall v ensures Satisfies(v, Any) <==> !IsPrerelease(v) { SatisfiesAny(v); }
    }
    MaxSatisfying(tested, Any)
  }

  /** A catalogue entry that the reduce in `getUntestedMinorsAndMajors`
      keeps, duplicates aside: a release strictly above the highest tested
      one, that no release of the catalogue on its caret line exceeds, and
      that the joined ignore list does not match. */
  predicate IsGap(released: seq<Version>, highest: Version, ignore: seq<Range>, v: Version) {
    && !IsPrerelease(v)
    && Gt(v, highest)
    && (forall w | w in released && !IsPrerelease(w) && OnCaretLine(v, w) :: Lte(w, v))
    && !Satisfies(v, JoinRanges(ignore))
  }

  /** The first occurrences, in catalogue order, of the gaps among the first
      `n` catalogue entries. */
  function Gaps(released: seq<Version>, highest: Version, ignore: seq<Range>, n: nat): seq<Version>
    requires n <= |released|
  {
    if n == 0 then []
    else
      var g := Gaps(released, highest, ignore, n - 1);
      var v := released[n - 1];
      if IsGap(released, highest, ignore, v) && v !in g then g + [v] else g
  }

  /** What `getUntestedMinorsAndMajors(released, tested)` returns. With no
      tested release the baseline is `null`, and the first catalogue release
      to reach the `semver.gt` comparison makes it throw. */
  function Untested(released: seq<Version>, tested: seq<Version>, ignore: seq<Range>): (r: Result<seq<Version>, Error>)
    ensures r.Failure? <==>
      (forall i | 0 <= i < |tested| :: IsPrerelease(tested[i]))
      && (exists i | 0 <= i < |released| :: !IsPrerelease(released[i]))
    ensures r.Failure? ==> r.error == InvalidVersionNull
  {
    match HighestTested(tested)
    case None =>
      if forall i | 0 <= i < |released| :: IsPrerelease(released[i]) then Success([])
      else Failure(InvalidVersionNull)
    case Some(h) => Success(Gaps(released, h, ignore, |released|))
  }

  predicate Distinct(s: seq<Version>) {
    forall i, j | 0 <= i < j < |s| :: s[i] != s[j]
  }

  /** a is b with some entries left out, the rest kept in order. */
  ghost predicate IsSubsequence(a: seq<Version>, b: seq<Version>)
    decreases |b|
  {
    a == []
    || (b != []
        && (IsSubsequence(a, b[..|b| - 1])
            || (a[|a| - 1] == b[|b| - 1] && IsSubsequence(a[..|a| - 1], b[..|b| - 1]))))
  }

  lemma {:induction false} GapsMembers(released: seq<Version>, highest: Version, ignore: seq<Range>, n: nat)
    requires n <= |released|
    ensures forall v :: v in Gaps(released, highest, ignore, n) <==>
      v in released[..n] && IsGap(released, highest, ignore, v)
  {
    if n > 0 {
      GapsMembers(released, highest, ignore, n - 1);
      assert released[..n] == released[..n - 1] + [released[n - 1]];
    }
  }

  lemma {:induction false} GapsDistinct(released: seq<Version>, highest: Version, ignore: seq<Range>, n: nat)
    requires n <= |released|
    ensures Distinct(Gaps(released, highest, ignore, n))
  {
    if n > 0 {
      GapsDistinct(released, highest, ignore, n - 1);
    }
  }

  lemma {:induction false} GapsInOrder(released: seq<Version>, highest: Version, ignore: seq<Range>, n: nat)
    requires n <= |released|
    ensures IsSubsequence(Gaps(released, highest, ignore, n), released[..n])
  {
    if n > 0 {
      GapsInOrder(released, highest, ignore, n - 1);
      var g := Gaps(released, highest, ignore, n - 1);
      var a := Gaps(released, highest, ignore, n);
      var b := released[..n];
      assert b[..|b| - 1] == released[..n - 1];
      if a != g {
        assert a[..|a| - 1] == g;
      }
    }
  }

  /** The catalogue's highest release on v's caret line is what
      `maxSatisfying(released, '^v')` compares with v. */
  lemma TopOfCaretLine(released: seq<Version>, v: Version)
    requires v in released && !IsPrerelease(v)
    ensures MaxSatisfying(released, Caret(v)) == Some(v) <==>
      forall w | w in released && !IsPrerelease(w) && OnCaretLine(v, w) :: Lte(w, v)
  {
    CaretHoldsItself(v);
    var m := MaxSatisfying(released, Caret(v));
    if forall w | w in released && !IsPrerelease(w) && OnCaretLine(v, w) :: Lte(w, v) {
      forall w | w in released && Satisfies(w, Caret(v)) ensures Lte(w, v) {
        CaretMembers(v, w);
      }
      MaxSatisfyingIs(released, Caret(v), v);
    }
    if m == Some(v) {
      forall w | w in released && !IsPrerelease(w) && OnCaretLine(v, w) ensures Lte(w, v) {
        CaretMembers(v, w);
        NotLtIsGte(w, v);
      }
    }
  }

  /** The duplicate test of the reduce compares the accumulator's maximum in
      `^v` with v. Once v is the catalogue's highest release on its caret
      line, that is the same as asking whether v was already added. */
  lemma DuplicateCheckIsMembership(released: seq<Version>, m: seq<Version>, v: Version)
    requires forall w | w in m :: w in released
    requires !IsPrerelease(v)
    requires MaxSatisfying(released, Caret(v)) == Some(v)
    ensures MaxSatisfying(m, Caret(v)) == Some(v) <==> v in m
  {
    if v in m {
      CaretHoldsItself(v);
      var x := MaxSatisfying(m, Caret(v));
      assert x.Some? && Lte(v, x.value);
      assert Lte(x.value, v);
      CompareFlip(v, x.value);
      CompareZero(v, x.value);
    }
  }

  /** `getUntestedMinorsAndMajors(releasedVersions, testedVersions)`: the
      reduce over the catalogue, pushing onto the accumulator each version
      that passes its five filters. */
  method UntestedMinorsAndMajors(checker: Checker, released: seq<Version>, tested: seq<Version>)
    returns (r: Result<seq<Version>, Error>)
    ensures r == Untested(released, tested, checker.ignoreVersions)
  {
    var ignore := checker.ignoreVersions;
    var highest := MaxSatisfying(tested, Any);
    assert highest == HighestTested(tested);
    var m: seq<Version> := [];
    for i := 0 to |released|
      invariant highest.None? ==> m == [] && forall j | 0 <= j < i :: IsPrerelease(released[j])
      invariant highest.Some? ==> m == Gaps(released, highest.value, ignore, i)
    {
      var v := released[i];
      if IsPrerelease(v) {
        continue;
      }
      if highest.None? {
        return Failure(InvalidVersionNull);
      }
      if !Gt(v, highest.value) {
        continue;
      }
      GapsMembers(released, highest.value, ignore, i);
      if MaxSatisfying(m, Caret(v)) == Some(v) {
        continue;
      }
      TopOfCaretLine(released, v);
      if MaxSatisfying(released, Caret(v)) != Some(v) {
        continue;
      }
      DuplicateCheckIsMembership(released, m, v);
      if Satisfies(v, JoinRanges(ignore)) {
        continue;
      }
      m := m + [v];
    }
    assert released[..|released|] == released;
    r := Success(m);
  }

  /** Every reported version is a release above every tested release, in the
      catalogue, the highest release of the catalogue on its caret line, and
      matched by no ignore range (so the ignore list is not empty). */
  lemma UntestedSound(released: seq<Version>, tested: seq<Version>, ignore: seq<Range>)
    ensures Untested(released, tested, ignore).Success? ==>
      forall v | v in Untested(released, tested, ignore).value ::
        && v in released
        && !IsPrerelease(v)
        && (forall t | t in tested && !IsPrerelease(t) :: Lt(t, v))
        && (forall w | w in released && Satisfies(w, Caret(v)) :: Lte(w, v))
        && ignore != []
        && (forall k | 0 <= k < |ignore| :: !Satisfies(v, ignore[k]))
  {
    var r := Untested(released, tested, ignore);
    var h := HighestTested(tested);
    if r.Success? && h.Some? {
      GapsMembers(released, h.value, ignore, |released|);
      assert released[..|released|] == released;
      forall v | v in r.value
        ensures (forall t | t in tested && !IsPrerelease(t) :: Lt(t, v))
        ensures (forall w | w in released && Satisfies(w, Caret(v)) :: Lte(w, v))
        ensures ignore != [] && forall k | 0 <= k < |ignore| :: !Satisfies(v, ignore[k])
      {
        forall t | t in tested && !IsPrerelease(t) ensures Lt(t, v) {
          CompareFlip(v, h.value);
          LteTransitive(t, h.value, v);
        }
        forall w | w in released && Satisfies(w, Caret(v)) ensures Lte(w, v) {
          CaretMembers(v, w);
        }
        JoinedSatisfies(v, ignore);
      }
    }
  }

  /** Conversely, every catalogue release that is above every tested
      release, tops its caret line and is not ignored is reported. */
  lemma UntestedComplete(released: seq<Version>, tested: seq<Version>, ignore: seq<Range>, v: Version)
    requires Untested(released, tested, ignore).Success?
    requires v in released && !IsPrerelease(v)
    requires forall t | t in tested && !IsPrerelease(t) :: Lt(t, v)
    requires forall w | w in released && !IsPrerelease(w) && OnCaretLine(v, w) :: Lte(w, v)
    requires !Satisfies(v, JoinRanges(ignore))
    ensures v in Untested(released, tested, ignore).value
  {
    var h := HighestTested(tested);
    if h.None? {
      assert false;
    } else {
      GapsMembers(released, h.value, ignore, |released|);
      assert released[..|released|] == released;
      CompareFlip(h.value, v);
    }
  }

  /** The result lists catalogue entries in catalogue order, each once. */
  lemma UntestedInCatalogueOrder(released: seq<Version>, tested: seq<Version>, ignore: seq<Range>)
    ensures Untested(released, tested, ignore).Success? ==>
      var g := Untested(released, tested, ignore).value;
      Distinct(g) && IsSubsequence(g, released)
  {
    var h := HighestTested(tested);
    if h.Some? {
      GapsDistinct(released, h.value, ignore, |released|);
      GapsInOrder(released, h.value, ignore, |released|);
      assert released[..|released|] == released;
    }
  }

  /** No two reported versions share a caret line. */
  lemma UntestedOnePerCaretLine(released: seq<Version>, tested: seq<Version>, ignore: seq<Range>)
    ensures Untested(released, tested, ignore).Success? ==>
      var g := Untested(released, tested, ignore).value;
      forall i, j | 0 <= i < |g| && 0 <= j < |g| && i != j :: !OnCaretLine(g[i], g[j])
  {
    var h := HighestTested(tested);
    if h.Some? {
      var g := Gaps(released, h.value, ignore, |released|);
      GapsMembers(released, h.value, ignore, |released|);
      GapsDistinct(released, h.value, ignore, |released|);
      assert released[..|released|] == released;
      forall i, j | 0 <= i < |g| && 0 <= j < |g| && i != j ensures !OnCaretLine(g[i], g[j]) {
        if OnCaretLine(g[i], g[j]) {
          assert g[i] in g && g[j] in g;
          OnCaretLineSymmetric(g[i], g[j]);
          assert Lte(g[j], g[i]) && Lte(g[i], g[j]);
          CompareFlip(g[i], g[j]);
          CompareZero(g[i], g[j]);
          assert false;
        }
      }
    }
  }

  /** Above 0.x, the caret line is the major line: at most one version per
      major is reported, not one per minor. */
  lemma UntestedOnePerMajor(released: seq<Version>, tested: seq<Version>, ignore: seq<Range>)
    ensures Untested(released, tested, ignore).Success? ==>
      var g := Untested(released, tested, ignore).value;
      forall i, j | 0 <= i < |g| && 0 <= j < |g| && i != j && g[i].major >= 1 :: g[i].major != g[j].major
  {
    UntestedOnePerCaretLine(released, tested, ignore);
  }

  /** With an empty ignore list the joined range is the empty string, which
      matches every release: nothing is ever reported. */
  lemma EmptyIgnoreListIgnoresAll(released: seq<Version>, tested: seq<Version>)
    ensures Untested(released, tested, []).Failure? || Untested(released, tested, []) == Success([])
  {
    var h := HighestTested(tested);
    if h.Some? {
      var g := Gaps(released, h.value, [], |released|);
      GapsMembers(released, h.value, [], |released|);
      if g != [] {
        assert g[0] in g;
        JoinedSatisfies(g[0], []);
        assert false;
      }
    }
  }

  // ---------------------------------------------------------------------------
  // The pass/fail decision of `check`

  /** A tested CI environment: its name and the version it uses. */
  datatype Environment = Environment(name: string, version: Version)

  /** An environment reported as using an old patch. */
  datatype StalePatch = StalePatch(environment: string, current: Version, newer: Version)

  /** What `check` reports: the stale environments and the untested versions
      it prints, and whether it marks the run failed. */
  datatype Report = Report(stale: seq<StalePatch>, untested: seq<Version>, failed: bool)

  /** `tests.map(test => test[keyVersion])` */
  function TestedVersions(tests: seq<Environment>): (r: seq<Version>)
    ensures |r| == |tests|
    ensures forall t | t in tests :: t.version in r
    ensures forall v | v in r :: exists t | t in tests :: t.version == v
  {
    var r := seq(|tests|, i requires 0 <= i < |tests| => tests[i].version);
    assert forall t | t in tests :: t.version in r by {
      forall t | t in tests ensures t.version in r {
        var i :| 0 <= i < |tests| && tests[i] == t;
        assert r[i] == t.version;
      }
    }
    assert forall v | v in r :: exists t | t in tests :: t.version == v by {
      forall v | v in r ensures exists t | t in tests :: t.version == v {
        var i :| 0 <= i < |r| && r[i] == v;
        assert tests[i] in tests;
      }
    }
    r
  }

  /** `getNewerPatch` throws for this version. */
  predicate SearchThrows(released: seq<Version>, version: Version) {
    NewerPatch(released, version).Failure?
  }

  /** `getNewerPatch` returns a version for this version. */
  predicate HasNewerPatch(released: seq<Version>, version: Version) {
    var r := NewerPatch(released, version);
    r.Success? && r.value.Some?
  }

  /** One iteration of the loop of `check`: the stale report for one
      environment, if its search finds a newer patch. The reported newer
      version is the one `getNewerPatch` returns, the highest entry of `~v`
      (`NewerPatchMeaning`). */
  function StaleEntry(released: seq<Version>, test: Environment): (r: Result<Option<StalePatch>, Error>)
    ensures r.Failure? <==> SearchThrows(released, test.version)
    ensures r.Failure? ==> r.error == InvalidVersionNull
    ensures r.Success? ==> (r.value.Some? <==> HasNewerPatch(released, test.version))
    ensures r.Success? && r.value.Some? ==>
      var s := r.value.value;
      && s.environment == test.name && s.current == test.version
      && s.newer == NewerPatch(released, test.version).value.value
      && s.newer in released
      && s.newer.major == s.current.major && s.newer.minor == s.current.minor
      && Gt(s.newer, s.current)
  {
    var newer := NewerPatch(released, test.version);
    NewerPatchMeaning(released, test.version);
    if newer.Failure? then Failure(newer.error)
    else if newer.value.None? then Success(None)
    else Success(Some(StalePatch(test.name, test.version, newer.value.value)))
  }

  /** The environments that the loop of `check` reports as stale, in order;
      or the error of the first environment whose search throws. */
  function StalePatches(released: seq<Version>, tests: seq<Environment>): (r: Result<seq<StalePatch>, Error>)
    ensures r.Failure? <==> exists i | 0 <= i < |tests| :: SearchThrows(released, tests[i].version)
    ensures r.Failure? ==> r.error == InvalidVersionNull
    decreases |tests|
  {
    if tests == [] then Success([])
    else
      var init := tests[..|tests| - 1];
      var s := StalePatches(released, init);
      var e := StaleEntry(released, tests[|tests| - 1]);
      ForallLast(tests, init, (t: Environment) => !SearchThrows(released, t.version));
      if s.Failure? then s
      else if e.Failure? then Failure(e.error)
      else if e.value.None? then s
      else Success(s.value + [e.value.value])
  }

  /** Each stale report names a tested environment, its version, and the
      newer patch that the search returns for that version: a catalogue
      entry of the same major.minor line above it. */
  lemma {:induction false} StalePatchesSound(released: seq<Version>, tests: seq<Environment>)
    ensures StalePatches(released, tests).Success? ==>
      forall s | s in StalePatches(released, tests).value ::
        && HasNewerPatch(released, s.current)
        && s.newer == NewerPatch(released, s.current).value.value
        && s.newer in released
        && s.newer.major == s.current.major && s.newer.minor == s.current.minor
        && Gt(s.newer, s.current)
        && exists i | 0 <= i < |tests| :: tests[i] == Environment(s.environment, s.current)
    decreases |tests|
  {
    if tests != [] {
      var init := tests[..|tests| - 1];
      StalePatchesSound(released, init);
      assert forall i | 0 <= i < |init| :: init[i] == tests[i];
    }
  }

  /** Conversely, every environment whose search returns a newer patch is
      reported, with that patch. */
  lemma {:induction false} StalePatchesComplete(released: seq<Version>, tests: seq<Environment>, i: nat)
    requires i < |tests| && StalePatches(released, tests).Success?
    requires HasNewerPatch(released, tests[i].version)
    ensures StalePatch(tests[i].name, tests[i].version, NewerPatch(released, tests[i].version).value.value)
      in StalePatches(released, tests).value
    decreases |tests|
  {
    var init := tests[..|tests| - 1];
    var x := StalePatch(tests[i].name, tests[i].version, NewerPatch(released, tests[i].version).value.value);
    StalePatchesStep(released, tests);
    var e := StaleEntry(released, tests[|tests| - 1]);
    var rest := if e.value.Some? then [e.value.value] else [];
    if i < |init| {
      assert init[i] == tests[i];
      StalePatchesComplete(released, init, i);
      assert x in StalePatches(released, init).value;
    } else {
      assert e.value == Some(x);
      assert x in rest;
    }
  }

  /** The reports for all environments are those for all but the last,
      followed by the last one's report, if any. */
  lemma StalePatchesStep(released: seq<Version>, tests: seq<Environment>)
    requires tests != [] && StalePatches(released, tests).Success?
    ensures var e := StaleEntry(released, tests[|tests| - 1]);
      && StalePatches(released, tests[..|tests| - 1]).Success?
      && e.Success?
      && StalePatches(released, tests).value ==
           StalePatches(released, tests[..|tests| - 1]).value + (if e.value.Some? then [e.value.value] else [])
  {
  }

  /** Nothing is reported stale exactly when no environment has a newer
      patch. */
  lemma {:induction false} StalePatchesEmpty(released: seq<Version>, tests: seq<Environment>)
    ensures StalePatches(released, tests).Success? ==>
      (StalePatches(released, tests).value == [] <==>
        forall i | 0 <= i < |tests| :: !HasNewerPatch(released, tests[i].version))
    decreases |tests|
  {
    if tests != [] && StalePatches(released, tests).Success? {
      StalePatchesEmpty(released, tests[..|tests| - 1]);
      StalePatchesLast(released, tests);
      ForallLast(tests, tests[..|tests| - 1], (t: Environment) => !HasNewerPatch(released, t.version));
    }
  }

  /** A property holds for every entry of a non-empty sequence when it holds
      for every entry but the last, and for the last. */
  lemma ForallLast<T>(s: seq<T>, init: seq<T>, p: T -> bool)
    requires s != [] && init == s[..|s| - 1]
    ensures (forall i | 0 <= i < |s| :: p(s[i])) <==>
      (forall i | 0 <= i < |init| :: p(init[i])) && p(s[|s| - 1])
  {
    assert forall i | 0 <= i < |init| :: init[i] == s[i];
  }

  /** The last environment adds a report exactly when it has a newer
      patch. */
  lemma StalePatchesLast(released: seq<Version>, tests: seq<Environment>)
    requires tests != []
    ensures StalePatches(released, tests).Success? ==>
      && StalePatches(released, tests[..|tests| - 1]).Success?
      && (StalePatches(released, tests).value == [] <==>
            StalePatches(released, tests[..|tests| - 1]).value == []
            && !HasNewerPatch(released, tests[|tests| - 1].version))
  {
  }

  /** `check()`, from the moment the catalogue and the tested environments
      are known: it fails the run when some environment has a newer patch or
      some newer line is untested, and only then. */
  method Check(checker: Checker, released: seq<Version>, tests: seq<Environment>) returns (r: Result<Report, Error>)
    ensures r.Failure? <==>
      StalePatches(released, tests).Failure?
      || Untested(released, TestedVersions(tests), checker.ignoreVersions).Failure?
    ensures r.Failure? ==> r.error == InvalidVersionNull
    ensures r.Success? ==>
      && r.value.stale == StalePatches(released, tests).value
      && r.value.untested == Untested(released, TestedVersions(tests), checker.ignoreVersions).value
    ensures r.Success? ==>
      (r.value.failed <==>
        (exists i | 0 <= i < |tests| :: HasNewerPatch(released, tests[i].version))
        || r.value.untested != [])
  {
    var failed := false;
    var stale: seq<StalePatch> := [];
    for i := 0 to |tests|
      invariant StalePatches(released, tests[..i]) == Success(stale)
      invariant failed <==> stale != []
    {
      var test := tests[i];
      assert tests[..i + 1][..i] == tests[..i];
      var newer := NewerPatch(released, test.version);
      if newer.Failure? {
        assert tests[i].version == test.version;
        return Failure(newer.error);
      }
      if newer.value.Some? {
        stale := stale + [StalePatch(test.name, test.version, newer.value.value)];
        failed := true;
      }
    }
    assert tests[..|tests|] == tests;
    StalePatchesEmpty(released, tests);
    var untested := UntestedMinorsAndMajors(checker, released, TestedVersions(tests));
    if untested.Failure? {
      return Failure(untested.error);
    }
    if |untested.value| > 0 {
      failed := true;
    }
    r := Success(Report(stale, untested.value, failed));
  }
}
