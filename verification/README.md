# psi-demo in Dafny

A model of the private-set-intersection demo. It has three parts.

1. **The trial-decryption PSI run** (`PSIProtocol`):
   - Bob, the holder, publishes one ideal-AEAD record per label. The record is keyed by k_u = H2(H1(u)·k).
   - Alice, the requester, blinds each label with her own scalar. Bob multiplies each blinded point by k.
   - For every response and every one of her scalars, Alice unblinds and derives a candidate key. She tries each candidate on Bob's records in order and keeps the first plaintext that opens, skipping keys that already produced a match.
   - The labels are the text of floored points, `${x} ${y}`. In the visualisation the points are grid cells: Bob's units binned into cells, and the cells Alice's units can see (`Visibility.GridSet`). Unit ids play no part in the protocol.
2. **The earlier draft of the protocol** (`psiProtocol` in App.js):
   - It uses hard-coded label lists and unblinds each response with the scalar of the same index only.
   - It checks the key directly against Bob's key list and does not de-duplicate.
3. **The grid and visibility helpers**: `binToGrid`, `generateVisibilityGridSet`, `isWithinVisibility` and `visbilityFunction`.

Modelling choices:
- **Group points.** A group element is its discrete logarithm e in [0, n), so scalar multiplication is e·a mod n. The group order n is a parameter, assumed prime (`ModArith.IsPrime`).
- **Hashes.** H1 and H2 are uninterpreted functions carried in a `Group.Suite` value. H1 is a digest reduced mod n, as `keyFromPrivate` does.
- **Inverse.** The modular inverse (`invm`) is computed by extended Euclid.
- **Cipher.** The secretbox is an ideal authenticated cipher: a ciphertext opens only under its own key and nonce. Failure is `None`, the source's `null`.
- **Empty plaintext.** The source tests `if (decryptedUnit)`, so a record whose plaintext is the empty string counts as a failure. The model keeps this: `Matcher.Opens` requires a non-empty plaintext.
- **Used keys.** `usedKeys` holds base64 texts of keys. Base64 is injective, so the model keeps the keys themselves in a set.
- **Random inputs.** Bob's private key, Alice's scalars and the nonces are parameters. `Psi.KeyMaterial` and `Psi.RunInputs` state what key-pair generation guarantees of them: scalars in [1, n−1] and one nonce per record.
- **Coordinates.** Coordinates, radii and grid sizes are integers, so `Math.floor` of a coordinate is the coordinate. `Math.sqrt(d) <= R` becomes `R >= 0 && d <= R*R`, and `Math.sqrt(d) < R` becomes `R > 0 && d < R*R`.

The matcher is a left fold (`Matcher.MatchFrom`) over the candidate keys in scan order: response-major, scalar-minor. The nested imperative loops of the source (`Psi.MatchLoops`, `Psi.TryKey`) are proved equal to this fold.

One might expect disjoint label sets to give no matches whatever the scalars. The code does not guarantee this:
- It derives a candidate from every (response, scalar) pair, not only the diagonal one, so a false match needs only H1(a_i)·r_i·r_j⁻¹ = H1(b) for some Bob label b.
- The model therefore states disjointness (`Psi.DisjointNoMatches`) and exactness (`Psi.Exactness`) under two named assumptions:
  - H2 is injective (`Psi.H2Injective`);
  - no such false off-diagonal point exists (`Psi.NoFalseCandidates`).

## Model

| member | source | states |
|---|---|---|
| Aead.Encrypt | src/psiCalculation.js:24-39 | the returned nonce is the one drawn; opening with the same key and nonce gives back the message; opening with any other key gives null, not an exception |
| ModArith.Inverse | src/psiCalculation.js:138 | for r coprime to n the result lies in [0, n) and r·inv ≡ 1 (mod n) |
| ModArith.PrimeCoprime | src/psiCalculation.js:138 | a scalar that is nonzero modulo a prime n is coprime to n, so `invm` is defined for every key-pair scalar |
| ModArith.ExtGcd | src/psiCalculation.js:138 | the returned pair are Bezout coefficients: a·x + b·y = gcd(a, b) |
| Group.BlindRespondUnblind | src/psiCalculation.js:97-140 | blinding H1(u) with a, multiplying by b and unblinding with a gives H1(u)·b, so the diagonal candidate point is Bob's owned point |
| Group.UnblindCommutes | src/psiCalculation.js:127-140 | unblinding after Bob's multiplication equals multiplying after unblinding |
| Group.MulCancel | src/psiCalculation.js:97 | multiplying by a scalar that is nonzero mod n is injective on points |
| Group.ReblindCancels | src/psiCalculation.js:138-139 | multiplying an unblinded point by the same scalar gives back the original point |
| Psi.Publish | src/psiCalculation.js:93-103 | one row per label in input order; row i carries label i, its owned point, its key and its nonce; record i opens under its own key to label i and under no other key |
| Psi.Blind | src/psiCalculation.js:120-123 | one blinded query per Alice label, in order, carrying that label and x_v = H1(v)·r_i with the scalar of the same index; unblinding the response recovers H1(v)·k (`Group.BlindRespondUnblind`) |
| Psi.Respond | src/psiCalculation.js:127-130 | one response per query, in order, carrying the query's label and y_v = x_v·k |
| Psi.Candidates | src/psiCalculation.js:136-140 | there is one candidate key per (response, scalar) pair |
| Psi.CandidateAt | src/psiCalculation.js:136-140 | candidate number i·m + j is the key from response i unblinded with scalar j |
| Psi.CandidateFrom | src/psiCalculation.js:136-140 | every candidate key comes from some response and some scalar |
| Matcher.TryRecords | src/psiCalculation.js:148-154 | None exactly when no record opens to a non-empty plaintext; otherwise the plaintext of the first record that does |
| Matcher.StepSound | src/psiCalculation.js:143-154 | a key already used leaves the state unchanged; a key that opens some record ends up used; the used set stays the set of result keys |
| Matcher.MatchFrom | src/psiCalculation.js:133-157 | earlier results are kept as a prefix; at most one new result per candidate; every result opens a record to its non-empty unit; every candidate that opens a record ends up used |
| Matcher.MatchAll | src/psiCalculation.js:133-157 | at most one result per candidate; result keys are pairwise distinct and are candidates; every result is the plaintext of a record under its key; every opening candidate is matched |
| Matcher.MatchFromAppend | src/psiCalculation.js:136-154 | scanning two candidate lists in a row is scanning the first and continuing from its state |
| Matcher.ScanOrder | src/psiCalculation.js:136-154 | results follow candidate order: the results for a prefix of the candidates are a prefix of the results |
| Psi.TryKey | src/psiCalculation.js:143-154 | the inner record loop, with its early return and break, computes one fold step |
| Psi.MatchLoops | src/psiCalculation.js:133-157 | the nested response and scalar loops compute exactly the fold over the candidates in scan order |
| Psi.MatchesSound | src/psiCalculation.js:143-154 | every result is one of Bob's labels, non-empty, paired with Bob's key for it; keys and units are pairwise distinct; at most \|Alice\|² results; none when Bob has no records |
| Psi.Run | src/psiCalculation.js:86-163 | the four output collections: Bob's table and Alice's queries have one row per label, the scalars are returned as drawn, and the results satisfy the soundness facts above |
| Psi.DiagonalKey | src/psiCalculation.js:97-140 | Alice's candidate from her own response and her own scalar is Bob's key for that label |
| Psi.Completeness | src/psiCalculation.js:95-155 | an Alice label that Bob also holds is among the result units, unless another Bob label shares its key |
| Psi.DisjointNoMatches | src/psiCalculation.js:133-157 | disjoint label lists give no results, under an injective H2 and no false off-diagonal candidate |
| Psi.Exactness | src/psiCalculation.js:86-157 | under the same assumptions, and with every Bob label non-empty, the set of result units is the set of labels both parties hold, each once |
| Psi.EmptyLabelLost | src/psiCalculation.js:148-153 | an empty label both parties hold is not reported: Bob [""] and Alice [""] give no result, because an empty plaintext counts as a failed decryption |
| Psi.DuplicateQuery | src/psiCalculation.js:136-154 | Bob ["x"] and Alice ["x", "x"] give exactly one result, for "x" |
| Psi.SharedFixture | src/psiCalculation.js:86-157 | Bob u1, u2, u3 and Alice v1, v2, u3 give exactly one result, u3 with Bob's key |
| Decimal.PairRoundTrip | src/psiCalculation.js:48-50 | a two-integer label `${a}<sep>${b}` reads back as (a, b) when the separator cannot occur in a number |
| Decimal.ParseIntToString | src/psiCalculation.js:49 | the decimal text of an integer reads back as that integer |
| Positions.PositionString | src/psiCalculation.js:48-50 | the position label is never empty and reads back as the position |
| Positions.PositionStringInjective | src/psiCalculation.js:48-50 | distinct positions give distinct labels |
| Positions.FlooredStrings | src/psiCalculation.js:41-45 | one label per point, in order, each the point's `${x} ${y}` label |
| Positions.PositionMatchesSound | src/psiCalculation.js:86-157 | every result of a run over points reads back as one of Bob's points, and no label is reported twice |
| Positions.PositionMatchesExact | src/psiCalculation.js:86-157 | under the exactness assumptions, a point is reported exactly when both parties hold it; point labels are never empty |
| Draft.BobKeys | src/App.js:26-31 | one entry per Bob label, in order, with k_u = H2(H1(u)·k) and o_k = H1(u)·k |
| Draft.Find | src/App.js:61 | None exactly when no entry has the key; otherwise the first entry with that key |
| Draft.DraftIsShared | src/App.js:40-63 | the draft's result is Alice's labels whose key is one of Bob's keys, in her order, each with that key |
| Draft.DraftBounds | src/App.js:53-63 | at most one result per Alice label; each result is one of Alice's labels with Bob's key for it, and that key is in Bob's list |
| Draft.DraftCompleteness | src/App.js:26-61 | every Alice label that Bob also holds is in the result, with no assumption on the hashes |
| Draft.DraftKeepsDuplicates | src/App.js:53-63 | a label Bob holds appears in the result as many times as Alice lists it |
| Draft.DraftSound | src/App.js:53-63 | when Bob's keys of the two lists collide only on equal labels, every result label is one of Bob's |
| Draft.DraftHardCoded | src/App.js:26-61 | with the hard-coded lists and no key collisions, the result is exactly [u3 with Bob's key] |
| Visibility.FloorDiv | src/PSIVisualization.js:11-16 | `Math.floor(a / g)`: for g > 0, q·g ≤ a < (q+1)·g; for g < 0, the bracketing is reversed |
| Visibility.FloorDivUnique | src/PSIVisualization.js:11-16 | the floor is the only integer with that bracketing |
| Visibility.BinToGrid | src/PSIVisualization.js:11-16 | with g > 0, cellX·g ≤ x < (cellX+1)·g, and likewise for y |
| Visibility.CellKeyInjective | src/PSIVisualization.js:35-40 | distinct cells have distinct map keys `${x},${y}` |
| Visibility.Scan | src/PSIVisualization.js:24-25 | the loop visits lo + i·g in order, and visits exactly the values in [lo, hi] congruent to lo mod g |
| Visibility.UnitSamplesSound | src/PSIVisualization.js:23-32 | every cell sampled around a unit is the cell of a lattice point (ax−R+i·g, ay−R+j·g) within distance R of it |
| Visibility.UnitSamplesComplete | src/PSIVisualization.js:23-32 | the cell of every such lattice point is sampled |
| Visibility.GridSetIsDedup | src/PSIVisualization.js:19-48 | the result is the sampled cells with repeats removed, in order of first insertion (units, then x, then y), pairwise distinct |
| Visibility.GridSetMember | src/PSIVisualization.js:19-48 | a cell is in the result exactly when it is the cell of a lattice point within distance R of some Alice unit |
| Visibility.OwnCell | src/PSIVisualization.js:24-32 | when g divides R, as with R = 100 and g = 50, each Alice unit's own cell is in the result |
| Visibility.BoundarySampledNotVisible | src/PSIVisualization.js:24-58 | the point at distance exactly R from a unit is sampled (inclusive test) yet not within visibility (strict test) |
| Visibility.WithinSymmetric | src/PSIVisualization.js:53-58 | the range test does not depend on the order of its two units |
| Visibility.WithinImpliesInCircle | src/PSIVisualization.js:53-58 | a unit within visibility of another passes the inclusive sampling test around it |
| Visibility.SeenByAny | src/PSIVisualization.js:70-71 | `some`: true exactly when one of Alice's units is strictly within range |
| Visibility.VisibleIdsMember | src/PSIVisualization.js:68-75 | an id is reported exactly when a Bob unit with that id is within range 100 of some Alice unit; at most one id per Bob unit |
| Visibility.VisibleIdsAppend | src/PSIVisualization.js:68-75 | Bob's order is kept: the ids for a concatenation are the concatenation of the ids |

## Left out

- Cryptography: P-256 arithmetic, SHA-512 and SHA-256, XSalsa20-Poly1305, and the UTF-8, base64 and hex codecs are foreign library calls. H1 and H2 are uninterpreted functions and the cipher is ideal. The point at infinity is the exponent 0. When the first 32 bytes of the SHA-512 digest, read as a number, are 0 modulo the group order, `hashToGroup` (psiCalculation.js:11-14) returns the point at infinity, and `H2` (psiCalculation.js:17-21) then throws, because encoding that point reads its missing x coordinate. The model derives a key from the exponent 0 instead; the exception path has negligible probability and is not modelled. The sizes of keys (32 bytes) and nonces (24 bytes) are not modelled.
- The draft's own `hashToGroup` and `H2` (SHA-256 based, App.js:11-21): these are another pair of uninterpreted functions in a `Suite` value.
- Randomness: `genKeyPair` and `randomBytes` become parameters, constrained by `Psi.KeyMaterial` and `Psi.RunInputs`.
- `deriveRandomValues` (psiCalculation.js:65-83) is unfinished and unused.
- `getIdArray` and `getPositionArray` are unused.
- `async`, `console.log`, React state setters, timers, konva rendering, the motion and bounce loop, and HomePage.js: these are presentation only.
- Non-integer coordinates: `Math.floor` of a fraction and floating-point `Math.sqrt` are not modelled.
  - Integer squared distances are compared exactly. This matches the doubles as long as they stay below 2^52.
  - Integers print as plain decimal text. JavaScript switches to exponent notation at 10^21, which is not modelled.
- Visibility.FloorDiv: a grid size of 0, which gives `Infinity` or `NaN` in the source, is excluded by the precondition.
- Visibility.GridSet: a grid size of 0 or less is excluded by the precondition. With such a grid size the source's loops do not terminate as soon as one loop body runs, that is, when Alice has a unit and the radius is at least 0. With no Alice units, or a negative radius, the source returns an empty array.
- Psi.Completeness: assumes no other Bob label shares the queried label's key. Under a collision the source recovers whichever colliding label's record comes first. It also requires the label to be non-empty, because the source treats an empty decrypted plaintext as a failure.
- Psi.Exactness: assumes an injective H2 and no false off-diagonal candidate. Without them, an off-diagonal candidate can recover a label Alice does not hold. The same holds for Psi.DisjointNoMatches, Psi.SharedFixture and Positions.PositionMatchesExact. Psi.Exactness also requires every Bob label to be non-empty, because the source treats an empty decrypted plaintext as a failure: with Bob [""] and Alice [""] the intersection is {""} but the source reports nothing (`Psi.EmptyLabelLost`). Position labels are never empty, so Positions.PositionMatchesExact needs no such assumption.
- Draft.DraftSound: assumes Bob's keys of the two lists collide only on equal labels. Without this, a colliding Alice label would be reported.
