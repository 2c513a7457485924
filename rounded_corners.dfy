/**
 * `roundedCorners(_:corners:)`: under a right-to-left layout the requested
 * corners are mirrored left to right before they are rounded.
 */
module RoundedCorners {
  /** The four members of `UIRectCorner`. */
  datatype Corner = TopLeft | TopRight | BottomLeft | BottomRight

  /** `.allCorners`. */
  const AllCorners: set<Corner> := {TopLeft, TopRight, BottomLeft, BottomRight}

  datatype LayoutDirection = LeftToRight | RightToLeft

  /** The corner on the opposite side of the same edge. */
  function Mirror(c: Corner): Corner
  {
    match c
    case TopLeft => TopRight
    case TopRight => TopLeft
    case BottomLeft => BottomRight
    case BottomRight => BottomLeft
  }

  lemma EveryCorner(c: Corner)
    ensures c in AllCorners
  {
    match c
    case TopLeft =>
    case TopRight =>
    case BottomLeft =>
    case BottomRight =>
  }

  predicate IsTop(c: Corner) { c == TopLeft || c == TopRight }

  /** Mirroring swaps left and right, keeps top and bottom, and undoes itself. */
  lemma MirrorProperties(c: Corner)
    ensures Mirror(c) != c
    ensures IsTop(Mirror(c)) <==> IsTop(c)
    ensures Mirror(Mirror(c)) == c
  {
  }

  /** Every corner of the set, mirrored. */
  function Mirrored(corners: set<Corner>): set<Corner>
  {
    set c | c in corners :: Mirror(c)
  }

  /**
   * `UIRectCorner.flipped`: starting from the empty set, each corner the set
   * contains adds its mirror image.
   */
  method Flipped(corners: set<Corner>) returns (newCorners: set<Corner>)
    ensures forall c :: c in newCorners <==> Mirror(c) in corners
    ensures newCorners == Mirrored(corners)
  {
    newCorners := {};
    if TopLeft in corners { newCorners := newCorners + {TopRight}; }
    if TopRight in corners { newCorners := newCorners + {TopLeft}; }
    if BottomLeft in corners { newCorners := newCorners + {BottomRight}; }
    if BottomRight in corners { newCorners := newCorners + {BottomLeft}; }
    forall c ensures c in newCorners <==> Mirror(c) in corners {
      match c
      case TopLeft =>
      case TopRight =>
      case BottomLeft =>
      case BottomRight =>
    }
    MirroredMembership(corners);
  }

  /** A corner is in the mirrored set exactly when its mirror image is in the original. */
  lemma MirroredMembership(corners: set<Corner>)
    ensures forall c :: c in Mirrored(corners) <==> Mirror(c) in corners
  {
    forall c ensures c in Mirrored(corners) <==> Mirror(c) in corners {
      MirrorProperties(c);
      if Mirror(c) in corners {
        assert Mirror(Mirror(c)) in Mirrored(corners);
      }
    }
  }

  /** `adjustedCorners`: the corners as given, mirrored under a right-to-left layout. */
  function AdjustedCorners(corners: set<Corner>, layoutDirection: LayoutDirection): set<Corner>
  {
    if layoutDirection == RightToLeft then Mirrored(corners) else corners
  }

  // ---------------------------------------------------------------------------
  // Properties of flipping
  // ---------------------------------------------------------------------------

  /** Flipping twice gives back the corners asked for. */
  lemma FlipInvolution(corners: set<Corner>)
    ensures Mirrored(Mirrored(corners)) == corners
  {
    MirroredMembership(corners);
    MirroredMembership(Mirrored(corners));
    forall c ensures c in Mirrored(Mirrored(corners)) <==> c in corners {
      MirrorProperties(c);
    }
  }

  /** Mirroring is one-to-one, so a set and its mirror image are equally large. */
  lemma {:induction false} FlipKeepsCount(corners: set<Corner>)
    ensures |Mirrored(corners)| == |corners|
    decreases |corners|
  {
    if corners != {} {
      var c :| c in corners;
      var rest := corners - {c};
      FlipKeepsCount(rest);
      MirroredMembership(corners);
      MirroredMembership(rest);
      MirrorProperties(c);
      assert Mirrored(corners) == Mirrored(rest) + {Mirror(c)};
      assert Mirror(c) !in Mirrored(rest);
    }
  }

  /** Flipping keeps top corners at the top and bottom corners at the bottom. */
  lemma FlipKeepsEdges(corners: set<Corner>)
    ensures (set c | c in Mirrored(corners) && IsTop(c)) == Mirrored(set c | c in corners && IsTop(c))
    ensures (set c | c in Mirrored(corners) && !IsTop(c)) == Mirrored(set c | c in corners && !IsTop(c))
  {
    var top := set c | c in corners && IsTop(c);
    var bottom := set c | c in corners && !IsTop(c);
    MirroredMembership(corners);
    MirroredMembership(top);
    MirroredMembership(bottom);
    forall c ensures IsTop(Mirror(c)) <==> IsTop(c) {
      MirrorProperties(c);
    }
  }

  /** All corners stay all corners, and no corner stays no corner. */
  lemma FlipAllAndNone()
    ensures Mirrored(AllCorners) == AllCorners
    ensures Mirrored({}) == {}
  {
    MirroredMembership(AllCorners);
    forall c ensures c in AllCorners {
      EveryCorner(c);
    }
  }

  /** A single corner flips to its mirror image, as each `if contains` line says. */
  lemma FlipSingleCorner(c: Corner)
    ensures Mirrored({c}) == {Mirror(c)}
  {
    MirroredMembership({c});
    forall d ensures d in Mirrored({c}) <==> d == Mirror(c) {
      MirrorProperties(d);
      MirrorProperties(c);
    }
  }

  /** The corners asked for under left-to-right, mirrored under right-to-left; adjusting twice under either layout is no change. */
  lemma AdjustedCornersProperties(corners: set<Corner>, layoutDirection: LayoutDirection)
    ensures layoutDirection == LeftToRight ==> AdjustedCorners(corners, layoutDirection) == corners
    ensures layoutDirection == RightToLeft ==> (forall c :: c in AdjustedCorners(corners, layoutDirection) <==> Mirror(c) in corners)
    ensures AdjustedCorners(AdjustedCorners(corners, layoutDirection), layoutDirection) == corners
    ensures |AdjustedCorners(corners, layoutDirection)| == |corners|
  {
    MirroredMembership(corners);
    FlipInvolution(corners);
    FlipKeepsCount(corners);
  }
}
