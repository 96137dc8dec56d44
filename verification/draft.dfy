/** The earlier draft of the protocol (`psiProtocol` in App.js).

    Bob computes a key k_u = H2(H1(u)·k) per label; Alice blinds each label
    with the scalar of the same index, Bob multiplies by k, and Alice
    unblinds each response with the scalar of the SAME index only. She then
    looks her key up directly in Bob's key list (which a real requester
    would not hold) and keeps her own label, in her order, with no
    de-duplication. */
module Draft {
  import opened Options
  import opened Group
  import opened Matcher
  import opened Seqs
  import opened Psi

  /** One entry of Bob's key list: label, key k_u and owned point o_k. */
  datatype KeyRow = KeyRow(unit: string, ku: Key, ok: Point)

  /** Bob's key list, one entry per label in order. */
  function BobKeys(s: Suite, k: int, units: seq<string>): (t: seq<KeyRow>)
    requires s.n > 0
    ensures |t| == |units|
    ensures forall i :: 0 <= i < |t| ==>
              t[i].unit == units[i] && t[i].ku == BobKey(s, k, units[i]) && t[i].ok == OwnedPoint(s, k, units[i])
  {
    seq(|units|, i requires 0 <= i < |units| =>
      KeyRow(units[i], BobKey(s, k, units[i]), OwnedPoint(s, k, units[i])))
  }

  /** `Array.find` on the key: the first entry whose key is kv, if any. */
  function Find(rows: seq<KeyRow>, kv: Key): (r: Option<KeyRow>)
    ensures r.None? <==> forall i :: 0 <= i < |rows| ==> rows[i].ku != kv
    ensures r.Some? ==> exists i :: 0 <= i < |rows| && rows[i] == r.value && r.value.ku == kv
                                    && forall j :: 0 <= j < i ==> rows[j].ku != kv
  {
    if |rows| == 0 then None
    else if rows[0].ku == kv then Some(rows[0])
    else
      var r := Find(rows[1..], kv);
      assert r.Some? ==> exists i :: 1 <= i < |rows| && rows[i] == r.value && r.value.ku == kv
                                     && forall j :: 0 <= j < i ==> rows[j].ku != kv by {
        if r.Some? {
          var i :| 0 <= i < |rows[1..]| && rows[1..][i] == r.value && r.value.ku == kv
                   && forall j :: 0 <= j < i ==> rows[1..][j].ku != kv;
          assert forall j :: 1 <= j < i + 1 ==> rows[j].ku != kv by {
            forall j | 1 <= j < i + 1 ensures rows[j].ku != kv {
              assert rows[j] == rows[1..][j - 1];
            }
          }
        }
      }
      r
  }

  /** k_v: Alice's key for her i-th label, the i-th response unblinded with
      the i-th scalar. */
  function AliceKey(s: Suite, k: int, scalars: seq<int>, alice: seq<string>, i: int): Key
    requires KeyMaterial(s, k, scalars, alice) && 0 <= i < |alice|
  {
    ScalarNonzero(s, scalars[i]);
    CandidateKey(s, Responses(s, k, scalars, alice)[i].yv, scalars[i])
  }

  /** The map step for Alice's i-th label: her label and key when the key is
      in Bob's list, null otherwise. */
  function Outcome(s: Suite, k: int, scalars: seq<int>, bob: seq<string>, alice: seq<string>, i: int): Option<Match>
    requires KeyMaterial(s, k, scalars, alice) && 0 <= i < |alice|
  {
    var kv := AliceKey(s, k, scalars, alice, i);
    if Find(BobKeys(s, k, bob), kv).Some? then Some(Match(alice[i], kv)) else None
  }

  /** The draft's result list (`map` then `filter(Boolean)`). */
  function DraftMatches(s: Suite, k: int, scalars: seq<int>, bob: seq<string>, alice: seq<string>): seq<Match>
    requires KeyMaterial(s, k, scalars, alice)
  {
    Somes(seq(|alice|, i requires 0 <= i < |alice| => Outcome(s, k, scalars, bob, alice, i)))
  }

  /** The set of Bob's keys. */
  function BobKeySet(s: Suite, k: int, bob: seq<string>): set<Key>
    requires s.n > 0
  {
    set u | u in bob :: BobKey(s, k, u)
  }

  /** v's key under Bob's scalar is one of Bob's keys. */
  predicate KeyShared(s: Suite, k: int, bob: seq<string>, v: string)
    requires s.n > 0
  {
    BobKey(s, k, v) in BobKeySet(s, k, bob)
  }

  /** The intended draft result: Alice's labels whose key is one of Bob's,
      in her order and with repetitions, each paired with its key. */
  function SharedByKey(s: Suite, k: int, bob: seq<string>, alice: seq<string>): seq<Match>
    requires s.n > 0
  {
    MapSeq(Filter(alice, v => KeyShared(s, k, bob, v)), v => Match(v, BobKey(s, k, v)))
  }

  /** The draft computes the intended result: same-index unblinding recovers
      exactly Bob's key for the label, and `find` succeeds exactly when that
      key is in Bob's list. */
  lemma DraftIsShared(s: Suite, k: int, scalars: seq<int>, bob: seq<string>, alice: seq<string>)
    requires KeyMaterial(s, k, scalars, alice)
    ensures DraftMatches(s, k, scalars, bob, alice) == SharedByKey(s, k, bob, alice)
  {
    var opts := seq(|alice|, i requires 0 <= i < |alice| => Outcome(s, k, scalars, bob, alice, i));
    var p := v => KeyShared(s, k, bob, v);
    var f := v => Match(v, BobKey(s, k, v));
    forall i | 0 <= i < |alice|
      ensures opts[i] == if p(alice[i]) then Some(f(alice[i])) else None
    {
      ScalarNonzero(s, scalars[i]);
      DiagonalKey(s, k, scalars, alice, i);
      var keys := BobKeys(s, k, bob);
      var kv := BobKey(s, k, alice[i]);
      if p(alice[i]) {
        var u :| u in bob && BobKey(s, k, u) == kv;
        var b :| 0 <= b < |bob| && bob[b] == u;
        assert keys[b].ku == kv;
      }
    }
    SomesOfGuarded(opts, alice, p, f);
  }

  /** The labels of a result list, in order. */
  function Units(r: seq<Match>): seq<string> {
    MapSeq(r, (m: Match) => m.unit)
  }

  /** At most one result per Alice label; every result is one of Alice's
      labels paired with its key, and that key is one of Bob's. */
  lemma DraftBounds(s: Suite, k: int, scalars: seq<int>, bob: seq<string>, alice: seq<string>)
    requires KeyMaterial(s, k, scalars, alice)
    ensures var r := DraftMatches(s, k, scalars, bob, alice);
            && |r| <= |alice|
            && forall m :: m in r ==> m.unit in alice && m.key == BobKey(s, k, m.unit) && m.key in BobKeySet(s, k, bob)
  {
    DraftIsShared(s, k, scalars, bob, alice);
  }

  /** Completeness: every Alice label that Bob also holds is in the result
      with Bob's key for it; no assumption on the hashes is needed. */
  lemma DraftCompleteness(s: Suite, k: int, scalars: seq<int>, bob: seq<string>, alice: seq<string>, v: string)
    requires KeyMaterial(s, k, scalars, alice)
    requires v in alice && v in bob
    ensures Match(v, BobKey(s, k, v)) in DraftMatches(s, k, scalars, bob, alice)
  {
    DraftIsShared(s, k, scalars, bob, alice);
    var kept := Filter(alice, v => KeyShared(s, k, bob, v));
    assert v in kept;
    var i :| 0 <= i < |kept| && kept[i] == v;
    assert MapSeq(kept, v => Match(v, BobKey(s, k, v)))[i] == Match(v, BobKey(s, k, v));
  }

  /** No de-duplication: a label Bob holds appears in the result as many
      times as Alice lists it. */
  lemma DraftKeepsDuplicates(s: Suite, k: int, scalars: seq<int>, bob: seq<string>, alice: seq<string>, v: string)
    requires KeyMaterial(s, k, scalars, alice)
    requires v in bob
    ensures multiset(Units(DraftMatches(s, k, scalars, bob, alice)))[v] == multiset(alice)[v]
  {
    DraftIsShared(s, k, scalars, bob, alice);
    var p := v => KeyShared(s, k, bob, v);
    var f := v => Match(v, BobKey(s, k, v));
    MapSeqInverse(Filter(alice, p), f, (m: Match) => m.unit);
    FilterCount(alice, p, v);
  }

  /** Bob's keys of two label lists collide only on equal labels. */
  ghost predicate KeysInjective(s: Suite, k: int, xs: seq<string>, ys: seq<string>)
    requires s.n > 0
  {
    forall x, y :: x in xs && y in ys && BobKey(s, k, x) == BobKey(s, k, y) ==> x == y
  }

  /** With no key collisions between the lists, every result label is one of
      Bob's, so the result is Alice's list restricted to Bob's labels. */
  lemma DraftSound(s: Suite, k: int, scalars: seq<int>, bob: seq<string>, alice: seq<string>)
    requires KeyMaterial(s, k, scalars, alice) && KeysInjective(s, k, alice, bob)
    ensures forall m :: m in DraftMatches(s, k, scalars, bob, alice) ==> m.unit in bob
  {
    DraftBounds(s, k, scalars, bob, alice);
  }

  /** Whether a label's key is shared follows from list membership when
      keys do not collide. */
  lemma SharedIffHeld(s: Suite, k: int, bob: seq<string>, alice: seq<string>, v: string)
    requires s.n > 0 && KeysInjective(s, k, alice, bob) && v in alice
    ensures KeyShared(s, k, bob, v) <==> v in bob
  {
  }

  /** A label whose first character starts none of Bob's labels is not
      shared when keys do not collide. */
  lemma NotHeldByInitial(s: Suite, k: int, bob: seq<string>, alice: seq<string>, v: string)
    requires s.n > 0 && KeysInjective(s, k, alice, bob) && v in alice && |v| > 0
    requires forall u :: u in bob ==> |u| > 0 && u[0] != v[0]
    ensures !KeyShared(s, k, bob, v)
  {
    SharedIffHeld(s, k, bob, alice, v);
  }

  /** Alice's and Bob's hard-coded labels. */
  const HardBob: seq<string> := ["u1", "u2", "u3", "u4", "u5"]
  const HardAlice: seq<string> := ["v1", "v2", "u3", "v4", "v5"]

  /** Which of Alice's hard-coded labels Bob holds, read off their first
      characters. */
  lemma HardLabels()
    ensures forall u :: u in HardBob ==> |u| > 0 && u[0] == 'u'
    ensures "v1" in HardAlice && "v2" in HardAlice && "v4" in HardAlice && "v5" in HardAlice
    ensures "u3" in HardAlice && "u3" in HardBob
    ensures "v1"[0] == 'v' && "v2"[0] == 'v' && "v4"[0] == 'v' && "v5"[0] == 'v'
  {
    assert HardAlice[0] == "v1" && HardAlice[1] == "v2" && HardAlice[2] == "u3";
    assert HardAlice[3] == "v4" && HardAlice[4] == "v5" && HardBob[2] == "u3";
  }

  /** Filtering the hard-coded Alice list keeps only u3 when the filter
      rejects the v labels and accepts u3. */
  lemma HardFilter(p: string -> bool)
    requires !p("v1") && !p("v2") && p("u3") && !p("v4") && !p("v5")
    ensures Filter(HardAlice, p) == ["u3"]
  {
    var t4, t3, t2, t1 := ["v5"], ["v4", "v5"], ["u3", "v4", "v5"], ["v2", "u3", "v4", "v5"];
    FilterCons("v5", [], p);
    assert t4 == ["v5"] + [];
    FilterCons("v4", t4, p);
    assert t3 == ["v4"] + t4;
    FilterCons("u3", t3, p);
    assert t2 == ["u3"] + t3;
    FilterCons("v2", t2, p);
    assert t1 == ["v2"] + t2;
    FilterCons("v1", t1, p);
    assert HardAlice == ["v1"] + t1;
  }

  /** The hard-coded run: Bob holds u1..u5, Alice v1, v2, u3, v4, v5; with
      no key collisions the only result is u3 with Bob's key for it. */
  lemma DraftHardCoded(s: Suite, k: int, scalars: seq<int>)
    requires KeyMaterial(s, k, scalars, HardAlice) && KeysInjective(s, k, HardAlice, HardBob)
    ensures DraftMatches(s, k, scalars, HardBob, HardAlice) == [Match("u3", BobKey(s, k, "u3"))]
  {
    var p := v => KeyShared(s, k, HardBob, v);
    HardLabels();
    NotHeldByInitial(s, k, HardBob, HardAlice, "v1");
    NotHeldByInitial(s, k, HardBob, HardAlice, "v2");
    NotHeldByInitial(s, k, HardBob, HardAlice, "v4");
    NotHeldByInitial(s, k, HardBob, HardAlice, "v5");
    SharedIffHeld(s, k, HardBob, HardAlice, "u3");
    HardFilter(p);
    DraftIsShared(s, k, scalars, HardBob, HardAlice);
  }
}
