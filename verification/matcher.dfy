/** Trial-decryption matching with first-success-wins deduplication
    (the requester's final phase).

    Candidates are tried in scan order. A candidate whose key already produced
    a match is skipped; otherwise the holder's records are tried in order and
    the first one that opens yields a match, after which the key is marked
    used. The set of used keys is threaded through a left fold. */
module Matcher {
  import opened Options
  import opened Group
  import opened Aead

  /** A confirmed intersection element: the recovered label and the key. */
  datatype Match = Match(unit: string, key: Key)

  /** The matcher's state: the used-key set and the results so far. */
  datatype MatchState = MatchState(used: set<Key>, results: seq<Match>)

  /** The plaintext a record yields under a key, if any. */
  function Opened(key: Key, b: Boxed): Option<string> {
    Decrypt(key, b.ciphertext, b.nonce)
  }

  /** The success test of the record scan: decryption returned a truthy
      string. A record whose plaintext is the empty string opens, but the
      empty string is falsy, so it counts as a failure. */
  predicate Opens(key: Key, b: Boxed) {
    Opened(key, b).Some? && Opened(key, b).value != ""
  }

  /** Some record opens under the key. */
  predicate OpensAny(key: Key, records: seq<Boxed>) {
    exists i :: 0 <= i < |records| && Opens(key, records[i])
  }

  /** Some record opens under the key to the given unit. */
  predicate OpensTo(key: Key, records: seq<Boxed>, unit: string) {
    exists i :: 0 <= i < |records| && Opens(key, records[i]) && Opened(key, records[i]).value == unit
  }

  /** Try the records in order; the plaintext of the first that opens. */
  function TryRecords(key: Key, records: seq<Boxed>): (r: Option<string>)
    ensures r.None? <==> !OpensAny(key, records)
    ensures r.Some? ==> exists i :: 0 <= i < |records| && Opens(key, records[i])
                                    && Opened(key, records[i]).value == r.value
                                    && forall j :: 0 <= j < i ==> !Opens(key, records[j])
  {
    if |records| == 0 then None
    else if Opens(key, records[0]) then Some(Opened(key, records[0]).value)
    else
      var r := TryRecords(key, records[1..]);
      assert forall i :: 1 <= i < |records| ==> records[i] == records[1..][i - 1];
      r
  }

  /** The keys of a result list are pairwise distinct. */
  predicate KeysDistinct(results: seq<Match>) {
    forall a, b :: 0 <= a < b < |results| ==> results[a].key != results[b].key
  }

  /** The keys appearing in a result list. */
  function KeysOf(results: seq<Match>): set<Key> {
    set m | m in results :: m.key
  }

  /** The invariant of the fold: the used set is exactly the set of result
      keys, result keys are distinct, and each result is a non-empty
      plaintext that a record opens to under the result's key. */
  predicate Sound(st: MatchState, records: seq<Boxed>) {
    && st.used == KeysOf(st.results)
    && KeysDistinct(st.results)
    && forall m :: m in st.results ==> m.unit != "" && OpensTo(m.key, records, m.unit)
  }

  /** One candidate key. */
  function Step(st: MatchState, records: seq<Boxed>, key: Key): MatchState {
    if key in st.used then st
    else
      match TryRecords(key, records)
      case None => st
      case Some(unit) => MatchState(st.used + {key}, st.results + [Match(unit, key)])
  }

  lemma StepSound(st: MatchState, records: seq<Boxed>, key: Key)
    requires Sound(st, records)
    ensures Sound(Step(st, records, key), records)
    ensures key in st.used ==> Step(st, records, key) == st
    ensures OpensAny(key, records) ==> key in Step(st, records, key).used
  {
    if key !in st.used && TryRecords(key, records).Some? {
      var st' := Step(st, records, key);
      assert st'.results == st.results + [Match(TryRecords(key, records).value, key)];
      assert forall m :: m in st.results ==> m.key in st.used;
      forall m | m in st'.results
        ensures m.key in st'.used
      {
      }
    }
  }

  /** The fold over the candidates, in scan order. */
  function MatchFrom(st: MatchState, records: seq<Boxed>, candidates: seq<Key>): (r: MatchState)
    requires Sound(st, records)
    ensures Sound(r, records)
    ensures |st.results| <= |r.results| <= |st.results| + |candidates|
    ensures r.results[..|st.results|] == st.results
    ensures st.used <= r.used
    ensures forall m :: m in r.results[|st.results|..] ==> m.key in candidates
    ensures forall c :: c in candidates && OpensAny(c, records) ==> c in r.used
    decreases |candidates|
  {
    if |candidates| == 0 then st
    else
      StepSound(st, records, candidates[0]);
      var st' := Step(st, records, candidates[0]);
      var r := MatchFrom(st', records, candidates[1..]);
      assert r.results[|st.results|..] == st'.results[|st.results|..] + r.results[|st'.results|..];
      r
  }

  /** The whole matcher: fold the candidates from the empty state. */
  function MatchAll(records: seq<Boxed>, candidates: seq<Key>): (r: seq<Match>)
    ensures |r| <= |candidates|
    ensures KeysDistinct(r)
    ensures forall m :: m in r ==> m.unit != "" && OpensTo(m.key, records, m.unit)
    ensures forall m :: m in r ==> m.key in candidates
    ensures forall c :: c in candidates && OpensAny(c, records) ==> exists m :: m in r && m.key == c
  {
    var st := MatchFrom(MatchState({}, []), records, candidates);
    assert st.results[0..] == st.results;
    st.results
  }

  /** Folding over c1 + c2 is folding over c1 and then over c2. */
  lemma {:induction false} MatchFromAppend(st: MatchState, records: seq<Boxed>, c1: seq<Key>, c2: seq<Key>)
    requires Sound(st, records)
    ensures MatchFrom(st, records, c1 + c2) == MatchFrom(MatchFrom(st, records, c1), records, c2)
    decreases |c1|
  {
    if |c1| > 0 {
      StepSound(st, records, c1[0]);
      assert (c1 + c2)[0] == c1[0];
      assert (c1 + c2)[1..] == c1[1..] + c2;
      MatchFromAppend(Step(st, records, c1[0]), records, c1[1..], c2);
    } else {
      assert c1 + c2 == c2;
    }
  }

  /** Extending the scanned prefix by one candidate is one more step. */
  lemma MatchFromSnoc(records: seq<Boxed>, c: seq<Key>, p: int)
    requires 0 <= p < |c|
    ensures MatchFrom(MatchState({}, []), records, c[..p + 1])
            == Step(MatchFrom(MatchState({}, []), records, c[..p]), records, c[p])
  {
    var init := MatchState({}, []);
    assert c[..p + 1] == c[..p] + [c[p]];
    MatchFromAppend(init, records, c[..p], [c[p]]);
    var st := MatchFrom(init, records, c[..p]);
    StepSound(st, records, c[p]);
    assert [c[p]][1..] == [];
  }

  /** Results follow scan order: the results for a prefix of the candidates
      are a prefix of the results for the whole scan. */
  lemma ScanOrder(records: seq<Boxed>, c1: seq<Key>, c2: seq<Key>)
    ensures |MatchAll(records, c1)| <= |MatchAll(records, c1 + c2)|
    ensures MatchAll(records, c1 + c2)[..|MatchAll(records, c1)|] == MatchAll(records, c1)
  {
    var init := MatchState({}, []);
    MatchFromAppend(init, records, c1, c2);
  }
}
