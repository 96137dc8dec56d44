/** One run of the trial-decryption PSI protocol (`PSIProtocol`).

    The holder (Bob) publishes one encrypted record per label, keyed by
    H2(H1(u)·k). The requester (Alice) blinds each of her labels with her own
    scalar, Bob multiplies each blinded point by k, and Alice unblinds every
    response with every one of her scalars, trying each resulting key on
    Bob's records. Randomness (Bob's key, Alice's scalars, the nonces) is
    passed in. */
module Psi {
  import opened Options
  import opened ModArith
  import opened Group
  import opened Aead
  import opened Matcher
  import opened Seqs

  /** One row of Bob's published table. */
  datatype BobRow = BobRow(unit: string, ku: Key, ok: Point, box: Boxed)

  /** One blinded query sent by Alice. */
  datatype AliceRow = AliceRow(unit: string, xv: Point)

  /** Bob's response to one blinded query. */
  datatype Response = Response(unit: string, yv: Point)

  /** The four collections a run hands to the presentation layer. */
  datatype RunOutput = RunOutput(
    bobTable: seq<BobRow>,
    aliceSent: seq<AliceRow>,
    aliceScalars: seq<int>,
    results: seq<Match>)

  /** o_k = H1(u)·k: Bob's owned point for a label. */
  function OwnedPoint(s: Suite, k: int, u: string): Point
    requires s.n > 0
  {
    Mul(s, HashToGroup(s, u), k)
  }

  /** k_u = H2(o_k): the key of Bob's record for a label. */
  function BobKey(s: Suite, k: int, u: string): Key
    requires s.n > 0
  {
    DeriveKey(s, OwnedPoint(s, k, u))
  }

  /** Bob publishes: one row per label, in order, each record encrypting the
      label under the label's key with the row's nonce. */
  function Publish(s: Suite, k: int, units: seq<string>, nonces: seq<Nonce>): (t: seq<BobRow>)
    requires s.n > 0 && |nonces| == |units|
    ensures |t| == |units|
    ensures forall i :: 0 <= i < |t| ==>
              && t[i].unit == units[i]
              && t[i].ok == OwnedPoint(s, k, units[i])
              && t[i].ku == BobKey(s, k, units[i])
              && t[i].box.nonce == nonces[i]
    ensures forall i :: 0 <= i < |t| ==> Opened(t[i].ku, t[i].box) == Some(units[i])
    ensures forall i, key :: 0 <= i < |t| && key != t[i].ku ==> Opened(key, t[i].box) == None
  {
    seq(|units|, i requires 0 <= i < |units| =>
      var u := units[i];
      BobRow(u, BobKey(s, k, u), OwnedPoint(s, k, u), Encrypt(BobKey(s, k, u), nonces[i], u)))
  }

  /** The records Alice scans: ciphertext and nonce of each row. */
  function Records(t: seq<BobRow>): (r: seq<Boxed>)
    ensures |r| == |t| && forall i :: 0 <= i < |t| ==> r[i] == t[i].box
  {
    seq(|t|, i requires 0 <= i < |t| => t[i].box)
  }

  /** Alice blinds: x_v = H1(v)·r, with the scalar of the same index. */
  function Blind(s: Suite, units: seq<string>, scalars: seq<int>): (sent: seq<AliceRow>)
    requires s.n > 0 && |scalars| == |units|
    ensures |sent| == |units|
    ensures forall i :: 0 <= i < |sent| ==> sent[i].unit == units[i]
    ensures forall i :: 0 <= i < |sent| ==>
              sent[i].xv == Mul(s, HashToGroup(s, units[i]), scalars[i])
  {
    seq(|units|, i requires 0 <= i < |units| =>
      AliceRow(units[i], Mul(s, HashToGroup(s, units[i]), scalars[i])))
  }

  /** Bob responds: y_v = x_v·k, keeping the order of the queries. */
  function Respond(s: Suite, k: int, sent: seq<AliceRow>): (resp: seq<Response>)
    requires s.n > 0
    ensures |resp| == |sent|
    ensures forall i :: 0 <= i < |resp| ==> resp[i].unit == sent[i].unit
    ensures forall i :: 0 <= i < |resp| ==> resp[i].yv == Mul(s, sent[i].xv, k)
  {
    seq(|sent|, i requires 0 <= i < |sent| => Response(sent[i].unit, Mul(s, sent[i].xv, k)))
  }

  /** Every scalar is nonzero modulo n, hence invertible. */
  predicate Invertible(s: Suite, scalars: seq<int>)
    requires s.n > 0
  {
    forall j :: 0 <= j < |scalars| ==> scalars[j] % s.n != 0
  }

  /** k_v = H2(y·r⁻¹): the candidate key from a response and a scalar. */
  function CandidateKey(s: Suite, y: Point, r: int): Key
    requires Valid(s) && r % s.n != 0
  {
    DeriveKey(s, Unblind(s, y, r))
  }

  /** The candidate keys of one response, one per scalar, in scalar order. */
  function Row(s: Suite, y: Point, scalars: seq<int>): (c: seq<Key>)
    requires Valid(s) && Invertible(s, scalars)
    ensures |c| == |scalars|
    ensures forall j :: 0 <= j < |scalars| ==> c[j] == CandidateKey(s, y, scalars[j])
  {
    seq(|scalars|, j requires 0 <= j < |scalars| => CandidateKey(s, y, scalars[j]))
  }

  /** All candidate keys in scan order: every response, and for each
      response every one of Alice's scalars. */
  function Candidates(s: Suite, resp: seq<Response>, scalars: seq<int>): (c: seq<Key>)
    requires Valid(s) && Invertible(s, scalars)
    ensures |c| == |resp| * |scalars|
  {
    Flatten(CandidateRows(s, resp, scalars), |scalars|)
  }

  function CandidateRows(s: Suite, resp: seq<Response>, scalars: seq<int>): (rows: seq<seq<Key>>)
    requires Valid(s) && Invertible(s, scalars)
    ensures |rows| == |resp|
    ensures forall i :: 0 <= i < |resp| ==> rows[i] == Row(s, resp[i].yv, scalars)
  {
    seq(|resp|, i requires 0 <= i < |resp| => Row(s, resp[i].yv, scalars))
  }

  /** Scan order: the candidate for response i and scalar j sits at index
      i·|scalars| + j. */
  lemma CandidateAt(s: Suite, resp: seq<Response>, scalars: seq<int>, i: int, j: int)
    requires Valid(s) && Invertible(s, scalars)
    requires 0 <= i < |resp| && 0 <= j < |scalars|
    ensures 0 <= i * |scalars| + j < |resp| * |scalars|
    ensures Candidates(s, resp, scalars)[i * |scalars| + j] == CandidateKey(s, resp[i].yv, scalars[j])
  {
    var rows := CandidateRows(s, resp, scalars);
    assert Flatten(rows, |scalars|)[i * |scalars| + j] == rows[i][j];
  }

  /** Every candidate comes from some response and some scalar. */
  lemma CandidateFrom(s: Suite, resp: seq<Response>, scalars: seq<int>, key: Key)
    requires Valid(s) && Invertible(s, scalars)
    requires key in Candidates(s, resp, scalars)
    ensures exists i, j :: 0 <= i < |resp| && 0 <= j < |scalars|
                           && key == CandidateKey(s, resp[i].yv, scalars[j])
  {
    var rows := CandidateRows(s, resp, scalars);
    FlattenMember(rows, |scalars|, key);
    var i, j :| 0 <= i < |rows| && 0 <= j < |scalars| && rows[i][j] == key;
    assert key == CandidateKey(s, resp[i].yv, scalars[j]);
  }

  /** The scalars of a run: a prime group order, Bob's private scalar and
      one scalar per Alice label, each as drawn by key-pair generation (in
      [1, n-1]). */
  predicate KeyMaterial(s: Suite, k: int, scalars: seq<int>, alice: seq<string>) {
    && Valid(s)
    && IsScalar(s, k)
    && |scalars| == |alice|
    && (forall j :: 0 <= j < |scalars| ==> IsScalar(s, scalars[j]))
  }

  /** What a run demands of its random inputs: the key material and one
      nonce per Bob record. */
  predicate RunInputs(s: Suite, k: int, scalars: seq<int>, nonces: seq<Nonce>,
                      bob: seq<string>, alice: seq<string>)
  {
    KeyMaterial(s, k, scalars, alice) && |nonces| == |bob|
  }

  lemma ScalarNonzero(s: Suite, r: int)
    requires IsScalar(s, r)
    ensures r % s.n != 0
  {
    DivModUnique(r, s.n, 0, r);
  }

  lemma ScalarsInvertible(s: Suite, scalars: seq<int>)
    requires s.n > 0 && forall j :: 0 <= j < |scalars| ==> IsScalar(s, scalars[j])
    ensures Invertible(s, scalars)
  {
    forall j | 0 <= j < |scalars|
      ensures scalars[j] % s.n != 0
    {
      ScalarNonzero(s, scalars[j]);
    }
  }

  /** The units of a result list are pairwise distinct. */
  predicate UnitsDistinct(results: seq<Match>) {
    forall a, b :: 0 <= a < b < |results| ==> results[a].unit != results[b].unit
  }

  /** Whatever opens one of Bob's records is the record's own label, under
      that label's key. */
  lemma {:induction false} TableResults(s: Suite, k: int, bob: seq<string>, nonces: seq<Nonce>, results: seq<Match>)
    requires s.n > 0 && |nonces| == |bob|
    requires forall m :: m in results ==> OpensTo(m.key, Records(Publish(s, k, bob, nonces)), m.unit)
    ensures forall m :: m in results ==> m.unit in bob && m.key == BobKey(s, k, m.unit)
  {
    var table := Publish(s, k, bob, nonces);
    var records := Records(table);
    forall m | m in results
      ensures m.unit in bob && m.key == BobKey(s, k, m.unit)
    {
      var i :| 0 <= i < |records| && Opens(m.key, records[i]) && Opened(m.key, records[i]).value == m.unit;
      assert records[i] == table[i].box;
    }
  }

  /** Distinct keys and one key per unit give distinct units. */
  lemma UnitsDistinctFromKeys(s: Suite, k: int, results: seq<Match>)
    requires s.n > 0 && KeysDistinct(results)
    requires forall m :: m in results ==> m.key == BobKey(s, k, m.unit)
    ensures UnitsDistinct(results)
  {
    forall a, b | 0 <= a < b < |results|
      ensures results[a].unit != results[b].unit
    {
      assert results[a] in results && results[b] in results;
    }
  }

  /** The responses Alice receives in a run. */
  function Responses(s: Suite, k: int, scalars: seq<int>, alice: seq<string>): seq<Response>
    requires s.n > 0 && |scalars| == |alice|
  {
    Respond(s, k, Blind(s, alice, scalars))
  }

  /** Alice's matching phase of a run: every response against every scalar,
      tried on Bob's published records. */
  function Matches(s: Suite, k: int, scalars: seq<int>, nonces: seq<Nonce>,
                   bob: seq<string>, alice: seq<string>): seq<Match>
    requires RunInputs(s, k, scalars, nonces, bob, alice)
  {
    ScalarsInvertible(s, scalars);
    MatchAll(Records(Publish(s, k, bob, nonces)), Candidates(s, Responses(s, k, scalars, alice), scalars))
  }

  /** Every emitted unit is one of Bob's labels and carries that label's key;
      keys and units are pairwise distinct; at most one result per
      (response, scalar) candidate, so none when Bob has no records. */
  lemma MatchesSound(s: Suite, k: int, scalars: seq<int>, nonces: seq<Nonce>,
                     bob: seq<string>, alice: seq<string>)
    requires RunInputs(s, k, scalars, nonces, bob, alice)
    ensures var r := Matches(s, k, scalars, nonces, bob, alice);
            && (forall m :: m in r ==> m.unit in bob && m.unit != "" && m.key == BobKey(s, k, m.unit))
            && KeysDistinct(r) && UnitsDistinct(r)
            && |r| <= |alice| * |alice|
            && (|bob| == 0 ==> r == [])
  {
    var r := Matches(s, k, scalars, nonces, bob, alice);
    TableResults(s, k, bob, nonces, r);
    UnitsDistinctFromKeys(s, k, r);
    LeadingMembers(r);
  }

  /** One whole run (`PSIProtocol`): the four collections handed to the
      presentation layer. */
  function Run(s: Suite, k: int, scalars: seq<int>, nonces: seq<Nonce>,
               bob: seq<string>, alice: seq<string>): (out: RunOutput)
    requires RunInputs(s, k, scalars, nonces, bob, alice)
    ensures |out.bobTable| == |bob| && |out.aliceSent| == |alice| && out.aliceScalars == scalars
    ensures forall m :: m in out.results ==> m.unit in bob && m.unit != "" && m.key == BobKey(s, k, m.unit)
    ensures KeysDistinct(out.results) && UnitsDistinct(out.results)
    ensures |out.results| <= |alice| * |alice|
    ensures |bob| == 0 ==> out.results == []
  {
    MatchesSound(s, k, scalars, nonces, bob, alice);
    RunOutput(Publish(s, k, bob, nonces), Blind(s, alice, scalars), scalars,
              Matches(s, k, scalars, nonces, bob, alice))
  }

  /** The diagonal candidate (response i, scalar i) of label v is Bob's key
      for v: blinding, responding and unblinding with the same scalar yields
      Bob's owned point. */
  lemma DiagonalKey(s: Suite, k: int, scalars: seq<int>, alice: seq<string>, i: int)
    requires Valid(s) && |scalars| == |alice| && 0 <= i < |alice| && scalars[i] % s.n != 0
    ensures CandidateKey(s, Responses(s, k, scalars, alice)[i].yv, scalars[i]) == BobKey(s, k, alice[i])
  {
    BlindRespondUnblind(s, alice[i], scalars[i], k);
  }

  /** Bob's key for each of Alice's labels is among her candidates: the
      diagonal one (response i, scalar i). */
  lemma DiagonalCandidate(s: Suite, k: int, scalars: seq<int>, alice: seq<string>, i: int)
    requires Valid(s) && |scalars| == |alice| && Invertible(s, scalars) && 0 <= i < |alice|
    ensures BobKey(s, k, alice[i]) in Candidates(s, Responses(s, k, scalars, alice), scalars)
  {
    var resp := Responses(s, k, scalars, alice);
    var cands := Candidates(s, resp, scalars);
    DiagonalKey(s, k, scalars, alice, i);
    CandidateAt(s, resp, scalars, i, i);
    var idx := i * |scalars| + i;
    assert 0 <= idx < |cands| && cands[idx] == BobKey(s, k, alice[i]);
  }

  /** Bob's record for a non-empty label opens under that label's key. */
  lemma OwnKeyOpens(s: Suite, k: int, bob: seq<string>, nonces: seq<Nonce>, b: int)
    requires s.n > 0 && |nonces| == |bob| && 0 <= b < |bob| && bob[b] != ""
    ensures OpensAny(BobKey(s, k, bob[b]), Records(Publish(s, k, bob, nonces)))
  {
    var table := Publish(s, k, bob, nonces);
    assert Records(table)[b] == table[b].box;
    assert Opens(BobKey(s, k, bob[b]), Records(table)[b]);
  }

  /** Completeness: a label Alice queries that Bob also holds is recovered,
      provided no other Bob label shares its key (no hash collision). */
  lemma Completeness(s: Suite, k: int, scalars: seq<int>, nonces: seq<Nonce>,
                     bob: seq<string>, alice: seq<string>, v: string)
    requires RunInputs(s, k, scalars, nonces, bob, alice)
    requires v in alice && v in bob && v != ""
    requires forall w :: w in bob && BobKey(s, k, w) == BobKey(s, k, v) ==> w == v
    ensures exists m :: m in Matches(s, k, scalars, nonces, bob, alice) && m.unit == v
  {
    var i :| 0 <= i < |alice| && alice[i] == v;
    var b :| 0 <= b < |bob| && bob[b] == v;
    ScalarsInvertible(s, scalars);
    DiagonalCandidate(s, k, scalars, alice, i);
    OwnKeyOpens(s, k, bob, nonces, b);
    var r := Matches(s, k, scalars, nonces, bob, alice);
    var m :| m in r && m.key == BobKey(s, k, v);
    MatchesSound(s, k, scalars, nonces, bob, alice);
    assert m.unit == v;
  }

  /** H2 never maps two distinct points to the same key. */
  ghost predicate H2Injective(s: Suite) {
    forall p, q :: s.h2(p) == s.h2(q) ==> p == q
  }

  /** No off-diagonal coincidence: for Alice's label i, any scalar j and a
      Bob label b that differs from label i, H1(a_i)·r_i is not H1(b)·r_j;
      equivalently H1(a_i)·r_i·r_j⁻¹ is not H1(b). */
  predicate NoFalseCandidates(s: Suite, scalars: seq<int>, bob: seq<string>, alice: seq<string>)
    requires s.n > 0 && |scalars| == |alice|
  {
    forall i, j, b :: 0 <= i < |alice| && 0 <= j < |alice| && 0 <= b < |bob| && alice[i] != bob[b] ==>
      Mul(s, HashToGroup(s, alice[i]), scalars[i]) != Mul(s, HashToGroup(s, bob[b]), scalars[j])
  }

  /** A candidate key that equals Bob's key for u comes from a point whose
      unblinding is H1(u), when H2 is injective. */
  lemma CandidateHit(s: Suite, k: int, x: Point, r: int, u: string)
    requires Valid(s) && IsScalar(s, k) && r % s.n != 0 && H2Injective(s)
    requires CandidateKey(s, Mul(s, x, k), r) == BobKey(s, k, u)
    ensures Unblind(s, x, r) == HashToGroup(s, u)
  {
    var h := HashToGroup(s, u);
    assert Unblind(s, Mul(s, x, k), r) == Mul(s, h, k);
    ScalarNonzero(s, k);
    var y := Unblind(s, x, r);
    assert Mul(s, y, k) == Mul(s, h, k) by {
      UnblindCommutes(s, x, k, r);
    }
    MulCancel(s, y, h, k);
  }

  /** Soundness: under an injective H2 and no off-diagonal coincidence,
      every emitted unit is in both parties' lists. */
  lemma MatchesInIntersection(s: Suite, k: int, scalars: seq<int>, nonces: seq<Nonce>,
                              bob: seq<string>, alice: seq<string>)
    requires RunInputs(s, k, scalars, nonces, bob, alice)
    requires H2Injective(s) && NoFalseCandidates(s, scalars, bob, alice)
    ensures forall m :: m in Matches(s, k, scalars, nonces, bob, alice) ==> m.unit in alice && m.unit in bob
  {
    ScalarsInvertible(s, scalars);
    MatchesSound(s, k, scalars, nonces, bob, alice);
    forall m | m in Matches(s, k, scalars, nonces, bob, alice)
      ensures m.unit in alice
    {
      HitIsQueried(s, k, scalars, nonces, bob, alice, m);
    }
  }

  lemma HitIsQueried(s: Suite, k: int, scalars: seq<int>, nonces: seq<Nonce>,
                     bob: seq<string>, alice: seq<string>, m: Match)
    requires RunInputs(s, k, scalars, nonces, bob, alice)
    requires H2Injective(s) && NoFalseCandidates(s, scalars, bob, alice)
    requires Invertible(s, scalars)
    requires m in Matches(s, k, scalars, nonces, bob, alice)
    requires m.unit in bob && m.key == BobKey(s, k, m.unit)
    ensures m.unit in alice
  {
    var resp := Responses(s, k, scalars, alice);
    CandidateFrom(s, resp, scalars, m.key);
    var i, j :| 0 <= i < |resp| && 0 <= j < |scalars| && m.key == CandidateKey(s, resp[i].yv, scalars[j]);
    var x := Mul(s, HashToGroup(s, alice[i]), scalars[i]);
    assert resp[i].yv == Mul(s, x, k);
    CandidateHit(s, k, x, scalars[j], m.unit);
    ReblindCancels(s, x, scalars[j]);
    DivModUnique(x, s.n, 0, x);
    var b :| 0 <= b < |bob| && bob[b] == m.unit;
    assert Mul(s, HashToGroup(s, bob[b]), scalars[j]) == x;
    assert alice[i] == bob[b];
  }

  /** Disjoint lists give no matches, under an injective H2 and no
      H1(a_i)·r_i·r_j⁻¹ equal to any H1(b). Diagonal candidates alone would
      need only the first; the off-diagonal ones (j != i) need the second. */
  lemma DisjointNoMatches(s: Suite, k: int, scalars: seq<int>, nonces: seq<Nonce>,
                          bob: seq<string>, alice: seq<string>)
    requires RunInputs(s, k, scalars, nonces, bob, alice)
    requires forall u :: u in alice ==> u !in bob
    requires H2Injective(s) && NoFalseCandidates(s, scalars, bob, alice)
    ensures Matches(s, k, scalars, nonces, bob, alice) == []
  {
    MatchesInIntersection(s, k, scalars, nonces, bob, alice);
    LeadingMembers(Matches(s, k, scalars, nonces, bob, alice));
  }

  /** Correctness: the recovered units are exactly the labels both parties
      hold, each once. */
  lemma Exactness(s: Suite, k: int, scalars: seq<int>, nonces: seq<Nonce>,
                  bob: seq<string>, alice: seq<string>)
    requires RunInputs(s, k, scalars, nonces, bob, alice)
    requires H2Injective(s) && NoFalseCandidates(s, scalars, bob, alice)
    requires forall u :: u in bob ==> u != ""
    ensures (set m | m in Matches(s, k, scalars, nonces, bob, alice) :: m.unit)
            == (set u | u in alice && u in bob)
    ensures UnitsDistinct(Matches(s, k, scalars, nonces, bob, alice))
  {
    MatchesSound(s, k, scalars, nonces, bob, alice);
    MatchesInIntersection(s, k, scalars, nonces, bob, alice);
    var r := Matches(s, k, scalars, nonces, bob, alice);
    forall u | u in alice && u in bob
      ensures u in (set m | m in r :: m.unit)
    {
      forall w | w in bob && BobKey(s, k, w) == BobKey(s, k, u)
        ensures w == u
      {
        NoKeyCollision(s, k, scalars, bob, alice, u, w);
      }
      Completeness(s, k, scalars, nonces, bob, alice, u);
    }
  }

  /** Exactness for one label: it is recovered exactly when both parties
      hold it. */
  lemma ExactMember(s: Suite, k: int, scalars: seq<int>, nonces: seq<Nonce>,
                    bob: seq<string>, alice: seq<string>, v: string)
    requires RunInputs(s, k, scalars, nonces, bob, alice)
    requires H2Injective(s) && NoFalseCandidates(s, scalars, bob, alice)
    requires forall u :: u in bob ==> u != ""
    ensures (exists m :: m in Matches(s, k, scalars, nonces, bob, alice) && m.unit == v) <==> v in alice && v in bob
  {
    Exactness(s, k, scalars, nonces, bob, alice);
    var r := Matches(s, k, scalars, nonces, bob, alice);
    var units := set m | m in r :: m.unit;
    assert units == set u | u in alice && u in bob;
    if v in alice && v in bob {
      assert v in units;
    }
    if exists m :: m in r && m.unit == v {
      var m :| m in r && m.unit == v;
      assert v in units;
    }
  }

  /** Under the same assumptions, a label Alice queries shares its key with
      no other Bob label. */
  lemma NoKeyCollision(s: Suite, k: int, scalars: seq<int>, bob: seq<string>, alice: seq<string>,
                       u: string, w: string)
    requires Valid(s) && IsScalar(s, k) && |scalars| == |alice|
    requires H2Injective(s) && NoFalseCandidates(s, scalars, bob, alice)
    requires u in alice && w in bob && BobKey(s, k, w) == BobKey(s, k, u)
    ensures w == u
  {
    ScalarNonzero(s, k);
    MulCancel(s, HashToGroup(s, w), HashToGroup(s, u), k);
    var i :| 0 <= i < |alice| && alice[i] == u;
    var b :| 0 <= b < |bob| && bob[b] == w;
    assert Mul(s, HashToGroup(s, alice[i]), scalars[i]) == Mul(s, HashToGroup(s, bob[b]), scalars[i]);
  }

  /** A duplicated query yields one result: Bob ["x"], Alice ["x", "x"]. */
  lemma DuplicateQuery(s: Suite, k: int, scalars: seq<int>, nonces: seq<Nonce>)
    requires RunInputs(s, k, scalars, nonces, ["x"], ["x", "x"])
    ensures var r := Matches(s, k, scalars, nonces, ["x"], ["x", "x"]);
            |r| == 1 && r[0].unit == "x"
  {
    var r := Matches(s, k, scalars, nonces, ["x"], ["x", "x"]);
    MatchesSound(s, k, scalars, nonces, ["x"], ["x", "x"]);
    Completeness(s, k, scalars, nonces, ["x"], ["x", "x"], "x");
    LeadingMembers(r);
  }

  /** A label both parties hold is lost when it is empty: the source's
      `if (decryptedUnit)` treats the empty plaintext as a failure, so Bob
      [""] and Alice [""] give no result although their intersection is
      {""}. */
  lemma EmptyLabelLost(s: Suite, k: int, scalars: seq<int>, nonces: seq<Nonce>)
    requires RunInputs(s, k, scalars, nonces, [""], [""])
    ensures "" in [""] && Matches(s, k, scalars, nonces, [""], [""]) == []
  {
    MatchesSound(s, k, scalars, nonces, [""], [""]);
  }

  /** The shared label of the first fixture: Bob u1, u2, u3 and Alice
      v1, v2, u3 have only u3 in common. */
  lemma FixtureLabels()
    ensures forall u :: u in ["v1", "v2", "u3"] && u in ["u1", "u2", "u3"] ==> u == "u3"
    ensures "u3" in ["v1", "v2", "u3"] && "u3" in ["u1", "u2", "u3"]
  {
    var alice, bob := ["v1", "v2", "u3"], ["u1", "u2", "u3"];
    assert alice[2] == "u3" && bob[2] == "u3";
    forall u | u in alice && u in bob
      ensures u == "u3"
    {
      assert u == "v1" || u == "v2" || u == "u3";
      assert u[0] == 'u';
    }
  }

  /** Bob u1, u2, u3 and Alice v1, v2, u3: exactly one result, u3 with
      Bob's key for it (injective H2, no false off-diagonal candidates). */
  lemma SharedFixture(s: Suite, k: int, scalars: seq<int>, nonces: seq<Nonce>)
    requires RunInputs(s, k, scalars, nonces, ["u1", "u2", "u3"], ["v1", "v2", "u3"])
    requires H2Injective(s) && NoFalseCandidates(s, scalars, ["u1", "u2", "u3"], ["v1", "v2", "u3"])
    ensures Matches(s, k, scalars, nonces, ["u1", "u2", "u3"], ["v1", "v2", "u3"]) == [Match("u3", BobKey(s, k, "u3"))]
  {
    var bob, alice := ["u1", "u2", "u3"], ["v1", "v2", "u3"];
    var r := Matches(s, k, scalars, nonces, bob, alice);
    FixtureLabels();
    MatchesSound(s, k, scalars, nonces, bob, alice);
    MatchesInIntersection(s, k, scalars, nonces, bob, alice);
    assert forall u :: u in bob ==> u != "";
    ExactMember(s, k, scalars, nonces, bob, alice, "u3");
    LeadingMembers(r);
  }

  lemma NextRow(i: int, m: int)
    ensures i * m + m == (i + 1) * m
  {
  }

  /** One candidate key as the source handles it: skip it if it is already
      used, otherwise scan Bob's rows in order and stop at the first whose
      decryption is truthy, recording the match and marking the key used. */
  method TryKey(table: seq<BobRow>, kv: Key, usedKeys: set<Key>, decryptedUnits: seq<Match>)
    returns (usedKeys': set<Key>, decryptedUnits': seq<Match>)
    ensures MatchState(usedKeys', decryptedUnits')
            == Step(MatchState(usedKeys, decryptedUnits), Records(table), kv)
  {
    usedKeys', decryptedUnits' := usedKeys, decryptedUnits;
    if kv in usedKeys {
      return;
    }
    var records := Records(table);
    var t := 0;
    while t < |table|
      invariant 0 <= t <= |table|
      invariant TryRecords(kv, records) == TryRecords(kv, records[t..])
    {
      var decrypted := Decrypt(kv, table[t].box.ciphertext, table[t].box.nonce);
      if decrypted.Some? && decrypted.value != "" {
        assert records[t..][0] == records[t];
        decryptedUnits' := decryptedUnits + [Match(decrypted.value, kv)];
        usedKeys' := usedKeys + {kv};
        return;
      }
      assert records[t..][1..] == records[t + 1..];
      t := t + 1;
    }
  }

  /** Alice's matching loops as the source writes them: for every response,
      for every one of her scalars, compute the candidate key
      k_v = H2(y_v·r⁻¹) and try it. The loops compute the fold
      `MatchAll` over the candidates in scan order. */
  method MatchLoops(s: Suite, resp: seq<Response>, scalars: seq<int>, table: seq<BobRow>)
    returns (decryptedUnits: seq<Match>)
    requires Valid(s) && Invertible(s, scalars)
    ensures decryptedUnits == MatchAll(Records(table), Candidates(s, resp, scalars))
  {
    ghost var records := Records(table);
    ghost var cands := Candidates(s, resp, scalars);
    ghost var init := MatchState({}, []);
    ghost var p := 0;
    decryptedUnits := [];
    var usedKeys: set<Key> := {};
    var i := 0;
    while i < |resp|
      invariant 0 <= i <= |resp|
      invariant p == i * |scalars| && p <= |cands|
      invariant MatchState(usedKeys, decryptedUnits) == MatchFrom(init, records, cands[..p])
    {
      var j := 0;
      while j < |scalars|
        invariant 0 <= j <= |scalars|
        invariant p == i * |scalars| + j && p <= |cands|
        invariant MatchState(usedKeys, decryptedUnits) == MatchFrom(init, records, cands[..p])
      {
        var kv := CandidateKey(s, resp[i].yv, scalars[j]);
        CandidateAt(s, resp, scalars, i, j);
        MatchFromSnoc(records, cands, p);
        usedKeys, decryptedUnits := TryKey(table, kv, usedKeys, decryptedUnits);
        p := p + 1;
        j := j + 1;
      }
      NextRow(i, |scalars|);
      i := i + 1;
    }
    assert cands[..p] == cands;
  }
}
