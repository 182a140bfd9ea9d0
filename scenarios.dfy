/** The check on small concrete catalogues. */
module Scenarios {
  import opened Results
  import opened SemVer
  import opened Ranges
  import opened VersionCheck

  function Release(major: nat, minor: nat, patch: nat): Version {
    Version(major, minor, patch, [])
  }

  /** `7.x`, which node-semver reads as `>=7.0.0 <8.0.0-0`. */
  function SevenX(): Range {
    [[Comparator(AtLeast, Release(7, 0, 0)), Comparator(Less, Floor(8, 0, 0))]]
  }

  /** 4.2.0 is tested while 4.2.1 is out: the environment is on an old
      patch. */
  lemma OldPatchReported()
    ensures NewerPatch([Release(4, 2, 0), Release(4, 2, 1), Release(4, 4, 0)], Release(4, 2, 0))
      == Success(Some(Release(4, 2, 1)))
  {
    var released := [Release(4, 2, 0), Release(4, 2, 1), Release(4, 4, 0)];
    NewerPatchOfRelease(released, Release(4, 2, 0));
    NewerPatchMeaning(released, Release(4, 2, 0));
    assert released[1].patch > 0;
    var n := NewerPatch(released, Release(4, 2, 0));
    assert n.value.value == Release(4, 2, 1);
  }

  /** With 4.2.0 tested, 4.4.0 is an untested line, as long as the ignore
      list is not empty. */
  lemma UntestedLineReported()
    ensures Untested([Release(4, 2, 0), Release(4, 2, 1), Release(4, 4, 0)], [Release(4, 2, 0)], [SevenX()])
      == Success([Release(4, 4, 0)])
  {
    var released := [Release(4, 2, 0), Release(4, 2, 1), Release(4, 4, 0)];
    var tested := [Release(4, 2, 0)];
    var ignore := [SevenX()];
    var h := Release(4, 2, 0);
    assert !IsPrerelease(tested[0]);
    assert HighestTested(tested) == Some(h);
    CompareZero(h, h);
    assert !IsGap(released, h, ignore, released[0]);
    assert released[2] in released && OnCaretLine(released[1], released[2]);
    assert !IsGap(released, h, ignore, released[1]);
    NotIgnoredBySevenX(released[2]);
    JoinedSatisfies(released[2], ignore);
    CompareZero(released[2], released[2]);
    assert IsGap(released, h, ignore, released[2]);
    assert Gaps(released, h, ignore, 1) == [];
    assert Gaps(released, h, ignore, 2) == [];
    assert Gaps(released, h, ignore, 3) == [released[2]];
    assert Untested(released, tested, ignore) == Success(Gaps(released, h, ignore, 3));
  }

  lemma NotIgnoredBySevenX(v: Version)
    requires v.major < 7
    ensures !Satisfies(v, SevenX())
  {
    var cs := SevenX()[0];
    CompareByTriple(v, Release(7, 0, 0));
    assert !TestComparator(cs[0], v);
    assert !TestSet(cs, v);
  }

  /** The same catalogue under the default empty ignore list: the joined
      range is empty, so 4.4.0 is not reported. */
  lemma DefaultIgnoreListHidesUntestedLine()
    ensures Untested([Release(4, 2, 0), Release(4, 2, 1), Release(4, 4, 0)], [Release(4, 2, 0)], [])
      == Success([])
  {
    var tested := [Release(4, 2, 0)];
    assert !IsPrerelease(tested[0]);
    EmptyIgnoreListIgnoresAll([Release(4, 2, 0), Release(4, 2, 1), Release(4, 4, 0)], tested);
  }

  /** 5.0.1 is the newest patch of its line; the 5.1.0-rc0 pre-release is
      not a newer patch. */
  lemma PrereleaseNotANewerPatch()
    ensures NewerPatch([Release(5, 0, 0), Release(5, 0, 1), Version(5, 1, 0, [Alnum("rc0")])], Release(5, 0, 1))
      == Success(None)
  {
    var released := [Release(5, 0, 0), Release(5, 0, 1), Version(5, 1, 0, [Alnum("rc0")])];
    assert forall w | w in released && !IsPrerelease(w) :: w.patch <= 1;
    assert released[1] in released && released[1].patch == 1;
    NewerPatchOfRelease(released, Release(5, 0, 1));
  }

  /** Nor is the 5.1.0-rc0 pre-release an untested line. */
  lemma PrereleaseNotAnUntestedLine()
    ensures Untested([Release(5, 0, 0), Release(5, 0, 1), Version(5, 1, 0, [Alnum("rc0")])], [Release(5, 0, 1)], [SevenX()])
      == Success([])
  {
    var released := [Release(5, 0, 0), Release(5, 0, 1), Version(5, 1, 0, [Alnum("rc0")])];
    var tested := [Release(5, 0, 1)];
    var h := Release(5, 0, 1);
    assert !IsPrerelease(tested[0]);
    assert HighestTested(tested) == Some(h);
    CompareZero(h, h);
    assert !IsGap(released, h, [SevenX()], released[0]);
    assert !IsGap(released, h, [SevenX()], released[1]);
    assert !IsGap(released, h, [SevenX()], released[2]);
    assert Gaps(released, h, [SevenX()], 1) == [];
    assert Gaps(released, h, [SevenX()], 2) == [];
  }

  /** An ignore range hides a newer major line. */
  lemma IgnoredMajorNotReported()
    ensures Untested([Release(6, 0, 0), Release(6, 0, 1), Release(7, 0, 0)], [Release(6, 0, 1)], [SevenX()])
      == Success([])
  {
    var released := [Release(6, 0, 0), Release(6, 0, 1), Release(7, 0, 0)];
    var tested := [Release(6, 0, 1)];
    var h := Release(6, 0, 1);
    assert !IsPrerelease(tested[0]);
    assert HighestTested(tested) == Some(h);
    CompareZero(h, h);
    var seven := released[2];
    var cs := SevenX()[0];
    assert TestComparator(cs[0], seven) && TestComparator(cs[1], seven);
    assert TestSet(cs, seven);
    JoinedSatisfies(seven, [SevenX()]);
    assert !IsGap(released, h, [SevenX()], released[0]);
    assert !IsGap(released, h, [SevenX()], released[1]);
    assert !IsGap(released, h, [SevenX()], released[2]);
    assert Gaps(released, h, [SevenX()], 1) == [];
    assert Gaps(released, h, [SevenX()], 2) == [];
  }

  /** Without a tested release the baseline is `null`, and the first
      release of the catalogue makes the search throw. */
  lemma NoTestedReleaseThrows()
    ensures Untested([Release(6, 0, 0)], [], [SevenX()]) == Failure(InvalidVersionNull)
  {
    assert !IsPrerelease([Release(6, 0, 0)][0]);
  }
}
