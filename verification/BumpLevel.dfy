/** Bump levels, their order, and the contraction-only propagation policy. */
module BumpLevels {

  datatype BumpLevel = NoBump | Patch | Minor | Major {
    /** The semantic ordinal over which maxima are taken. */
    function Ordinal(): (n: nat)
      ensures n <= 3
    {
      match this
      case NoBump => 0
      case Patch => 1
      case Minor => 2
      case Major => 3
    }
  }

  function ByOrdinal(n: nat): BumpLevel
    requires n <= 3
  {
    [NoBump, Patch, Minor, Major][n]
  }

  predicate AtMost(a: BumpLevel, b: BumpLevel) {
    a.Ordinal() <= b.Ordinal()
  }

  /** `P`: a dependency's level as felt by its dependent. */
  function Propagate(level: BumpLevel): BumpLevel {
    match level
    case NoBump => NoBump
    case Patch => Patch
    case Minor => Patch
    case Major => Minor
  }

  /** The greatest level of a set; `NoBump` when the set is empty. */
  function Highest(levels: set<BumpLevel>): BumpLevel {
    if Major in levels then Major
    else if Minor in levels then Minor
    else if Patch in levels then Patch
    else NoBump
  }

  /** `Highest` is the least upper bound of its argument. */
  lemma HighestIsLeastUpperBound(levels: set<BumpLevel>, bound: BumpLevel)
    ensures AtMost(Highest(levels), bound) <==> forall l :: l in levels ==> AtMost(l, bound)
  {
  }

  method MaxLevel(levels: seq<BumpLevel>) returns (highest: BumpLevel)
    ensures forall l :: l in levels ==> AtMost(l, highest)
    ensures highest in levels || (highest == NoBump && levels == [])
  {
    var top := 0;
    for i := 0 to |levels|
      invariant top <= 3
      invariant forall j :: 0 <= j < i ==> levels[j].Ordinal() <= top
      invariant ByOrdinal(top) in levels[..i] || (top == 0 && i == 0)
    {
      assert levels[..i + 1] == levels[..i] + [levels[i]];
      if levels[i].Ordinal() > top {
        top := levels[i].Ordinal();
      }
    }
    assert levels[..|levels|] == levels;
    highest := ByOrdinal(top);
  }
}
