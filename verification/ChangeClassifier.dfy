/** Classification of one component's change between two versions. */
module ChangeClassifier {
  import opened Common
  import opened BumpLevels

  datatype VersionNumber = VersionNumber(major: nat, minor: nat, patch: nat, prerelease: Option<string>)

  /** An empty prerelease label counts as none. */
  function Label(v: VersionNumber): Option<string> {
    if v.prerelease == Some("") then None else v.prerelease
  }

  /** The two versions denote the same semantic version. */
  predicate SameVersion(a: VersionNumber, b: VersionNumber) {
    a.major == b.major && a.minor == b.minor && a.patch == b.patch && Label(a) == Label(b)
  }

  function ClassifyChange(prior: Option<VersionNumber>, current: VersionNumber): BumpLevel {
    match prior
    case None => Minor
    case Some(p) =>
      if p.major != current.major then Major
      else if p.minor != current.minor then Minor
      else if p.patch != current.patch then Patch
      else if Label(p) != Label(current) then Patch
      else NoBump
  }

  /** The change between two existing versions. */
  function Distance(a: VersionNumber, b: VersionNumber): BumpLevel {
    ClassifyChange(Some(a), b)
  }

  function Max(a: BumpLevel, b: BumpLevel): BumpLevel {
    if AtMost(a, b) then b else a
  }

  /** `Distance` is an ultrametric on semantic versions. */
  lemma DistanceIsUltrametric(a: VersionNumber, b: VersionNumber, c: VersionNumber)
    ensures Distance(a, b) == NoBump <==> SameVersion(a, b)
    ensures Distance(a, b) == Distance(b, a)
    ensures AtMost(Distance(a, c), Max(Distance(a, b), Distance(b, c)))
  {
  }

  /**
   * The level names the highest position that differs, whatever the direction; a label counts as the
   * lowest position, an empty one is no label, and a component without a prior version is a minor change.
   */
  lemma LevelIsHighestDifference(a: VersionNumber, b: VersionNumber)
    ensures Distance(a, b) == Major <==> a.major != b.major
    ensures AtMost(Distance(a, b), Patch) <==> a.major == b.major && a.minor == b.minor
    ensures Distance(a, b) == NoBump <==>
      && (a.major, a.minor, a.patch) == (b.major, b.minor, b.patch)
      && (a.prerelease == b.prerelease || {a.prerelease, b.prerelease} <= {None, Some("")})
    ensures ClassifyChange(None, b) == Minor
  {
  }

  /** The greatest change between neighbours of a history. */
  ghost function LargestStep(history: seq<VersionNumber>): BumpLevel
    requires |history| > 0
  {
    if |history| == 1 then NoBump
    else Max(LargestStep(history[..|history| - 1]), Distance(history[|history| - 2], history[|history| - 1]))
  }

  /** Across any history, the end-to-end change never exceeds the largest recorded step. */
  lemma {:induction false} EndToEndChangeBounded(history: seq<VersionNumber>)
    requires |history| > 0
    ensures AtMost(Distance(history[0], history[|history| - 1]), LargestStep(history))
    decreases |history|
  {
    if |history| == 1 {
      DistanceIsUltrametric(history[0], history[0], history[0]);
    } else {
      var n := |history|;
      EndToEndChangeBounded(history[..n - 1]);
      DistanceIsUltrametric(history[0], history[n - 2], history[n - 1]);
    }
  }
}
