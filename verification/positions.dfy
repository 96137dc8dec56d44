/** The labels the protocol runs on: each point enters the protocol as the
    text of its floored coordinates, `${x} ${y}` (`convertToPositionString`,
    `convertToFlooredStrings`). The visualisation passes grid cells: Bob's
    units binned into cells and the cells Alice's units can see. Unit ids
    play no part. Coordinates are integers here, so flooring leaves them
    unchanged. */
module Positions {
  import opened Options
  import opened Decimal
  import opened Seqs
  import opened Group
  import opened Aead
  import opened Matcher
  import opened Psi
  import opened Plane

  /** `${Math.floor(x)} ${Math.floor(y)}`; never empty, and it reads back
      as the position it was printed from. */
  function PositionString(p: Pos): (r: string)
    ensures r != ""
    ensures ParsePair(r, ' ') == Some((p.x, p.y))
  {
    PairRoundTrip(p.x, ' ', p.y);
    Pair(p.x, ' ', p.y)
  }

  /** Distinct positions give distinct labels. */
  lemma PositionStringInjective(p: Pos, q: Pos)
    requires PositionString(p) == PositionString(q)
    ensures p == q
  {
    assert ParsePair(PositionString(p), ' ') == ParsePair(PositionString(q), ' ');
  }

  /** The labels of a list of points, in order. */
  function FlooredStrings(points: seq<Pos>): (r: seq<string>)
    ensures |r| == |points|
    ensures forall i :: 0 <= i < |points| ==> r[i] == PositionString(points[i])
  {
    MapSeq(points, (p: Pos) => PositionString(p))
  }

  /** The matching phase of a run over points: Bob's and Alice's points
      enter as their labels. */
  function PositionMatches(s: Suite, k: int, scalars: seq<int>, nonces: seq<Nonce>,
                           bob: seq<Pos>, alice: seq<Pos>): seq<Match>
    requires RunInputs(s, k, scalars, nonces, FlooredStrings(bob), FlooredStrings(alice))
  {
    Matches(s, k, scalars, nonces, FlooredStrings(bob), FlooredStrings(alice))
  }

  /** Every result reads back as one of Bob's points, and no point is
      reported twice. */
  lemma PositionMatchesSound(s: Suite, k: int, scalars: seq<int>, nonces: seq<Nonce>,
                             bob: seq<Pos>, alice: seq<Pos>)
    requires RunInputs(s, k, scalars, nonces, FlooredStrings(bob), FlooredStrings(alice))
    ensures var r := PositionMatches(s, k, scalars, nonces, bob, alice);
            && (forall m :: m in r ==> exists b :: 0 <= b < |bob| && ParsePair(m.unit, ' ') == Some((bob[b].x, bob[b].y)))
            && UnitsDistinct(r)
  {
    MatchesSound(s, k, scalars, nonces, FlooredStrings(bob), FlooredStrings(alice));
  }

  /** A point's label is among the labels of a list exactly when the point
      is in the list. */
  lemma LabelHeld(points: seq<Pos>, p: Pos)
    ensures PositionString(p) in FlooredStrings(points) <==> p in points
  {
    var l := FlooredStrings(points);
    if PositionString(p) in l {
      var i :| 0 <= i < |l| && l[i] == PositionString(p);
      PositionStringInjective(points[i], p);
    }
  }

  /** With an injective H2 and no false off-diagonal candidates, a point
      is reported exactly when both parties hold it; point labels are never empty, so no label is lost to the
      falsy empty plaintext. */
  lemma PositionMatchesExact(s: Suite, k: int, scalars: seq<int>, nonces: seq<Nonce>,
                             bob: seq<Pos>, alice: seq<Pos>, p: Pos)
    requires RunInputs(s, k, scalars, nonces, FlooredStrings(bob), FlooredStrings(alice))
    requires H2Injective(s) && NoFalseCandidates(s, scalars, FlooredStrings(bob), FlooredStrings(alice))
    ensures (exists m :: m in PositionMatches(s, k, scalars, nonces, bob, alice) && m.unit == PositionString(p))
            <==> p in alice && p in bob
  {
    var bl, al := FlooredStrings(bob), FlooredStrings(alice);
    assert forall u :: u in bl ==> u != "";
    ExactMember(s, k, scalars, nonces, bl, al, PositionString(p));
    LabelHeld(alice, p);
    LabelHeld(bob, p);
  }
}
