# A verified model of leelo

leelo unlocks an encrypted volume when enough network providers answer and a TPM agrees. This project models its core
in Dafny and proves what that core is for: that an enrolled credential comes back from every quorum and only then, and
that the records kept along the way never overstate what happened.

The model follows the program from the bottom up.

- **Sharing** (`gf256`, `polynomial`, `lagrange`, `sharing`, `secretshift`): arithmetic in GF(2^8) and threshold sharing of
  32-byte secrets.
- **Policy** (`policytree`, `policycompile`, `policydecision`, `policysharing`, `policysecrecy`, `policysession`): nested
  threshold trees, their compilation to flat plans, the decision, nested sharing over a plan and what it hides, and the
  one-release session.
- **Envelope** (`sequences`, `cbor`, `descriptors`, `envelope`, `crypto`, `frame`): the canonical encoding of descriptors
  and bodies, and the signed frame.
- **Engine** (`networkphase`, `phasehistory`, `leafkeys`, `releasegate`, `unlock`, `roundtrip`, `enroll`): the
  bounded-concurrency network phase, the release gate, the unlock operation, enrollment, and the round trip between the
  last two.
- **Records** (`journaltext`, `journal`, `metrics`, `metricruns`, `attemptruns`, `registryruns`, `verdictruns`, `collector`): the
  enrollment journal over files that fail and crash, its reader, and the collector's event state with its log.

Code that updates variables in place is a method or a class with the source's fields; code that computes is a function.
Each method is tied to a specification function or to the property itself, and the lemmas are about those functions.

What lies outside the program is a parameter. Random bytes are a finite supply that can run out. Cryptographic primitives
are functions with stated laws (`CryptoLaws.Laws`): a signature verifies, opening undoes sealing, an honest evaluation
finalizes to the pseudorandom output, and any evaluation that passes the proof finalizes to that same output. The last of
these is soundness of the evaluation proof. Neither secrecy of the primitives nor unforgeability of signatures or sealed
keys is assumed. `CryptoLaws.LawsConsistent` gives primitives that keep all the laws at once, with distinct key identities
for keys that differ early. A clock is monotone and otherwise arbitrary. Provider replies, their order, the deadline,
TPM results, file-system faults and crash points are arbitrary inputs. JSON is a pair of functions; a written record reads
back and holds no raw newline. Integers are unbounded except where the source saturates or
bounds them, and those places are written out.

## Model

| member | source | states |
|---|---|---|
| GF256.MulIsRemainder | crates/leelo-sss/src/gf256.rs:11-147 | the eight masked rounds give the remainder of the carry-less product by x^8+x^4+x^3+x+1, for all byte pairs |
| GF256.MulComm | crates/leelo-sss/src/gf256.rs:116-147 | multiplication commutes |
| GF256.MulAssoc | crates/leelo-sss/src/gf256.rs:116-147 | multiplication associates |
| GF256.MulDistributes | crates/leelo-sss/src/gf256.rs:116-147 | multiplication distributes over addition |
| GF256.MulInverse | crates/leelo-sss/src/gf256.rs:149-208 | the addition chain for a^254 inverts every nonzero element |
| GF256.NoZeroDivisors | crates/leelo-sss/src/gf256.rs:116-147 | a product is zero only if a factor is |
| Polynomials.Evaluate | crates/leelo-sss/src/interpolation.rs:23-38 | the backward loop computes the value of the polynomial |
| Polynomials.UniqueInterpolant | crates/leelo-sss/src/interpolation.rs:10-38 | exactly one polynomial of length n passes through n points with distinct coordinates |
| Polynomials.AgreeingPolynomials | crates/leelo-sss/src/interpolation.rs:10-38 | polynomials of length n that agree at n distinct points are equal |
| Polynomials.SecretIndependence | crates/leelo-sss/src/lib.rs:141-150 | given t-1 distinct nonzero coordinates and any bytes there, each candidate secret byte has exactly one coefficient vector |
| Lagrange.Weights | crates/leelo-sss/src/interpolation.rs:69-102 | the loops compute every Lagrange weight at the target |
| Lagrange.WeightedSum | crates/leelo-sss/src/interpolation.rs:114-130 | the loop computes the weighted sum |
| Lagrange.NewtonStep | crates/leelo-sss/src/interpolation.rs:40-67 | how a weight changes when the last coordinate is dropped |
| Lagrange.PartitionOfUnity | crates/leelo-sss/src/interpolation.rs:40-67 | for distinct coordinates the weights at any target sum to one |
| Lagrange.Interpolation | crates/leelo-sss/src/interpolation.rs:40-130 | from n points with distinct coordinates on a polynomial of length n the weighted sum is its value at every target |
| Sharing.Entropy.TryFill | crates/leelo-sss/src/lib.rs:143-145 | a draw yields exactly the next bytes of the supply or fails and draws nothing |
| Sharing.FillColumn | crates/leelo-sss/src/lib.rs:146-149 | one byte column of every share is the polynomial at that share's coordinate, all else unchanged |
| Sharing.FillShares | crates/leelo-sss/src/lib.rs:135-151 | one coefficient vector per byte, drawn in order, evaluated at coordinates 1 to n |
| Sharing.Split | crates/leelo-sss/src/lib.rs:116-152 | each refusal for its own reason; otherwise the shares of the table read from the supply, or no entropy exactly when too little is left |
| Sharing.Interpolate | crates/leelo-sss/src/lib.rs:163-174 | bytewise interpolation at the target |
| Sharing.CheckIndices | crates/leelo-sss/src/lib.rs:195-202 | the first zero or repeated coordinate, or none |
| Sharing.Accumulate | crates/leelo-sss/src/lib.rs:205-211 | the accumulated difference is zero exactly when it was and the strings agree |
| Sharing.Reconstruct | crates/leelo-sss/src/lib.rs:182-216 | every refusal with its own condition: the threshold, more than 31 shares, fewer than the threshold, the first zero or repeated coordinate by position; otherwise success exactly when polynomials fit all points, with their constant terms, and inconsistent shares if none do |
| Sharing.ReconstructOutcome | crates/leelo-sss/src/lib.rs:182-216 | for every threshold and every list of shares, without hypotheses: success exactly on valid points that some polynomials fit, with their constant terms |
| Sharing.RefusedIndex | crates/leelo-sss/src/lib.rs:195-202 | a list of the right length is refused for its earliest zero or repeated coordinate, and has one exactly when its coordinates are not valid |
| Sharing.ReconstructExact | crates/leelo-sss/src/lib.rs:182-216 | on distinct nonzero coordinates it succeeds exactly when all points lie on polynomials of degree below the threshold, with their constant terms; otherwise shares are inconsistent |
| Sharing.QuorumRecovers | crates/leelo-sss/src/lib.rs:116-216 | any t or more shares of a split, in any order, give the secret, for every secret, threshold, count and coefficient table |
| Sharing.OrderIndependent | crates/leelo-sss/src/lib.rs:182-216 | permuting the shares does not change the outcome |
| Sharing.TamperingDetected | crates/leelo-sss/src/lib.rs:195-216 | replacing one share of a consistent set larger than t by any share at a coordinate of its own keeps the secret exactly if the new share lies on the polynomials, and otherwise gives inconsistent shares |
| Sharing.EveryCandidateOnce | crates/leelo-sss/src/lib.rs:141-150 | any t-1 shares are explained by every candidate secret, each by exactly one coefficient table |
| PolicyTree.SatisfiedMonotone | crates/leelo-policy/src/verified_compile.rs:61-82 | more available leaves never unsatisfy a tree |
| PolicyTree.EverythingSatisfied | crates/leelo-policy/src/verified_compile.rs:61-82 | all leaves together satisfy every valid tree |
| PolicyTree.NothingSatisfied | crates/leelo-policy/src/verified_compile.rs:61-82 | no valid tree is satisfied by nothing |
| PolicyTree.ForestLayout | crates/leelo-policy/src/verified_compile.rs:84-117 | children laid out in postorder are the first child and then the others |
| PolicyTree.ThresholdLayout | crates/leelo-policy/src/verified_compile.rs:84-117 | a laid-out threshold is its children followed by one gate listing their roots |
| PolicyCompile.Compiler.CompileNode | crates/leelo-policy/src/lib.rs:238-284 | compiles exactly the admissible subtrees to their postorder gates; each refusal names a limit the subtree breaks, and a duplicate identity is one that was used before or occurs twice |
| PolicyCompile.Compiler.CompileForest | crates/leelo-policy/src/lib.rs:265-279 | the same for children in order, with their gate indices |
| PolicyCompile.SameProvider | crates/leelo-policy/src/verified_compile.rs:119-133 | the byte loop decides equality |
| PolicyCompile.CheckSubtree | crates/leelo-policy/src/verified_compile.rs:135-219 | accepts a position exactly when the subtree's own layout is there, with the cursors after it |
| PolicyCompile.CheckForest | crates/leelo-policy/src/verified_compile.rs:168-216 | the same for children in order |
| PolicyCompile.CheckCompilation | crates/leelo-policy/src/verified_compile.rs:302-327 | accepts exactly one pair of gate and leaf lists for a tree, its own plan |
| PolicyCompile.NewPolicy | crates/leelo-policy/src/lib.rs:92-112 | succeeds exactly on acceptable trees; the checker never refuses the compiler's output |
| PolicyDecision.EvaluateGate | crates/leelo-policy/src/verified.rs:53-100 | the loop counts the true children against the threshold |
| PolicyDecision.EvaluateNetwork | crates/leelo-policy/src/verified.rs:102-131 | the value of the last gate, each from those before it |
| PolicyDecision.NodeValue | crates/leelo-policy/src/verified_compile.rs:239-300 | the root gate of every compiled subtree evaluates to the tree's meaning |
| PolicyDecision.RecordResponse | crates/leelo-policy/src/verified.rs:133-145 | a response is recorded once; a repetition changes nothing |
| PolicyDecision.CollectResponses | crates/leelo-policy/src/lib.rs:200-213 | one flag per leaf, or the first unknown or repeated identity |
| PolicyDecision.ResponsesRefused | crates/leelo-policy/src/lib.rs:200-213 | a list is refused for its earliest unknown or repeated identity, and has one exactly when it is not a list of distinct known leaves |
| PolicyDecision.NetworkSatisfied | crates/leelo-policy/src/lib.rs:138-141 | the evaluated plan on the collected responses |
| PolicyDecision.DecisionMeansTree | crates/leelo-policy/src/lib.rs:138-141 | on distinct known leaves the decision is the recursive threshold semantics of the source tree; every other list is refused |
| PolicyDecision.DecisionMonotone | crates/leelo-policy/src/lib.rs:138-141 | the decision depends only on the set and never turns off |
| PolicySharing.SplitGate | crates/leelo-policy/src/lib.rs:215-235 | shares a secret down one compiled subtree exactly when the random bytes suffice; the leaf payloads in order, from the bytes drawn |
| PolicySharing.SplitNetwork | crates/leelo-policy/src/lib.rs:145-156 | the leaf payloads of the whole tree, or no entropy exactly when too little is left |
| PolicySharing.TakeShares | crates/leelo-policy/src/lib.rs:175-182 | moves the children's values out of the working list as shares at their positions |
| PolicySharing.RecoverNetwork | crates/leelo-policy/src/lib.rs:158-196 | one pass over the plan, with the refusals of the response collection first |
| PolicySharing.ThresholdGateRuns | crates/leelo-policy/src/lib.rs:174-189 | a threshold gate rebuilds its secret exactly when enough children are satisfied |
| PolicySharing.RunNode | crates/leelo-policy/src/lib.rs:158-196 | a compiled subtree recovers its secret exactly when it is satisfied |
| PolicySharing.NestedRecovery | crates/leelo-policy/src/lib.rs:138-235 | recovery from any sublist of the leaf payloads, in any order, returns the secret exactly when the decision holds for those leaves, and otherwise missing factors, never a sharing error |
| PolicySharing.RecoveredOutcomes | crates/leelo-policy/src/lib.rs:158-196 | from arbitrary payloads of distinct known leaves the only failures are missing factors, exactly when unsatisfied, and inconsistent shares |
| PolicySharing.RunNodeExact | crates/leelo-policy/src/lib.rs:158-196 | a compiled subtree, run on arbitrary payloads, leaves exactly the value read off the tree itself |
| PolicySharing.RecoveredExact | crates/leelo-policy/src/lib.rs:158-213 | recovery from any payloads, honest or not: the earliest unknown or repeated leaf is refused; otherwise the result is the value of the tree, missing factors if it holds none, and inconsistent shares exactly if the shares of some threshold lie on no polynomials |
| SecretShift.ShareStays | crates/leelo-sss/src/lib.rs:141-150 | moving the secret along a mask leaves the shares where the mask vanishes as they are |
| SecretShift.ShiftTableBack | crates/leelo-sss/src/lib.rs:141-150 | moving the secret back restores every coefficient |
| PolicySecrecy.NestedIndependence | crates/leelo-policy/src/lib.rs:145-156 | the payloads of leaves that do not satisfy the policy fit every secret equally often: a bijection between the random tables that explain them for any two secrets |
| PolicySessions.PolicySession.constructor | crates/leelo-policy/src/lib.rs:297-312 | a new session has no observation |
| PolicySessions.PolicySession.DoAuthenticateEnvelope | crates/leelo-policy/src/lib.rs:314-320 | sets its flag or refuses after a release |
| PolicySessions.PolicySession.DoAcceptNetwork | crates/leelo-policy/src/lib.rs:332-346 | records a known new leaf and re-evaluates the plan, or refuses and changes nothing |
| PolicySessions.PolicySession.DoConfirmTpm | crates/leelo-policy/src/lib.rs:348-352 | sets its flag or refuses and changes nothing |
| PolicySessions.PolicySession.DoConfirmLive | crates/leelo-policy/src/lib.rs:354-358 | sets its flag or refuses and changes nothing |
| PolicySessions.PolicySession.DoAuthenticateRoot | crates/leelo-policy/src/lib.rs:368-375 | granted exactly when every mandatory factor is present |
| PolicySessions.PolicySession.DoRelease | crates/leelo-policy/src/lib.rs:381-395 | released exactly with all factors and the root, once |
| PolicySessions.PolicySession.TryRelease | crates/leelo-policy/src/verified.rs:156-190 | permitted exactly when every mandatory observation is present and nothing was released |
| PolicySessions.SessionRuns | crates/leelo-policy/src/lib.rs:286-395 | over every call sequence the state is a function of the set of accepted calls, the network flag is the tree's meaning, and root authentication implies all mandatory factors |
| PolicySessions.CallExact | crates/leelo-policy/src/lib.rs:286-395 | after every call sequence, which calls are granted and why each other one is refused, by the accepted calls alone |
| PolicySessions.FrozenAfterRelease | crates/leelo-policy/src/lib.rs:381-395 | after a release every call is refused and nothing changes |
| Descriptors.ValidateDescriptor | crates/leelo-envelope/src/lib.rs:283-316 | refuses exactly invalid fields first, then exactly invalid bindings |
| Descriptors.PolicyLeaves | crates/leelo-envelope/src/lib.rs:294-315 | a policy has 1 to 29 leaves with distinct identities and providers |
| Cbor.HeadRoundTrip | scripts/check-protocol-vector.py:18-48 | a head decodes to its kind and count whatever follows it |
| Cbor.Encoder.PutHead | scripts/check-protocol-vector.py:18-24 | appends one head |
| Cbor.Encoder.PutString | scripts/check-protocol-vector.py:30-34 | appends one length-prefixed string |
| Cbor.Decoder.GetHead | scripts/check-protocol-vector.py:41-50 | on any input the decoded head of the wanted kind and the position after it, or nothing read; an encoded head reads back |
| Cbor.Decoder.GetString | crates/leelo-envelope/src/lib.rs:101-110 | on any input the bytes its head announces, if they are there, or nothing read; an encoded string reads back |
| Envelopes.PutNode | crates/leelo-envelope/src/lib.rs:119-151 | appends the encoding of a tree |
| Envelopes.GetNode | crates/leelo-envelope/src/lib.rs:153-181 | every tree within depth and node budget reads back from its encoding, and whatever is read is within both budgets |
| Envelopes.DescriptorBytes | crates/leelo-envelope/src/lib.rs:183-230 | encodes exactly the valid descriptors, or the validation's refusal |
| Envelopes.DescriptorInjective | crates/leelo-envelope/src/lib.rs:183-230 | no two descriptors share an encoding |
| Envelopes.ReadDescriptor | crates/leelo-envelope/src/lib.rs:232-281 | yields d exactly when d is valid and the input is the encoding of d |
| Envelopes.DescriptorSize | crates/leelo-envelope/src/lib.rs:183-230 | a valid descriptor encodes in at most 16000 bytes |
| Envelopes.BodyBytes | crates/leelo-envelope/src/lib.rs:358-403 | encodes exactly the valid bodies; the size refusal never occurs |
| Envelopes.BodySize | crates/leelo-envelope/src/lib.rs:358-403 | every valid body encodes below the envelope limit less 128 |
| Envelopes.BodyInjective | crates/leelo-envelope/src/lib.rs:358-403 | no two bodies share an encoding |
| Envelopes.ReadBody | crates/leelo-envelope/src/lib.rs:405-439 | yields b exactly when b is valid and the input is the encoding of b |
| Frames.FrameInjective | crates/leelo-envelope/src/lib.rs:448-461 | a frame determines body and signature |
| Frames.FrameSize | crates/leelo-envelope/src/lib.rs:448-466 | every signed valid body fits the frame limit, its message the signing limit |
| Frames.Sign | crates/leelo-envelope/src/lib.rs:448-461 | succeeds exactly on valid bodies, and the result authenticates under the public key |
| Frames.Authenticate | crates/leelo-envelope/src/lib.rs:463-489 | succeeds exactly on the frame of a valid body with a verifying signature, with that body and its context |
| NetworkPhase.OperationReport.Configure | crates/leelo-engine/src/observation.rs:122-131 | one unstarted slot per binding |
| NetworkPhase.OperationReport.Provider | crates/leelo-engine/src/observation.rs:152-157 | marks one slot and no other |
| NetworkPhase.OperationReport.Degraded | crates/leelo-engine/src/observation.rs:114-117 | holds exactly when some provider failed |
| NetworkPhase.OperationReport.Cancel | crates/leelo-engine/src/lib.rs:390-402 | marks exactly the started providers without an outcome |
| NetworkPhase.Run | crates/leelo-engine/src/lib.rs:403-507 | every state of every interleaving satisfies the invariant with the exact outcome classification |
| NetworkPhase.StepInv | crates/leelo-engine/src/lib.rs:425-507 | each poll, completion and deadline keeps the invariant |
| NetworkPhase.BoundedConcurrency | crates/leelo-engine/src/lib.rs:408-425 | while the phase goes on exactly min(4, n - completed) evaluations are pending |
| NetworkPhase.LaunchesOnce | crates/leelo-engine/src/lib.rs:416-505 | a step launches nothing but the next unlaunched provider |
| NetworkPhase.AvailableMeansAuthenticated | crates/leelo-engine/src/lib.rs:455-473 | available leaves are exactly the authenticated completions |
| NetworkPhase.AvailableObservable | crates/leelo-engine/src/lib.rs:467-485 | available leaves are distinct and known, so the decision never refuses them |
| NetworkPhase.DeadlineDiagnostics | crates/leelo-engine/src/lib.rs:426-446 | at the deadline the diagnostics name exactly the failed and the queued but incomplete providers, once each |
| NetworkPhase.QuorumReport | crates/leelo-engine/src/observation.rs:114-117 | on success the report is degraded exactly when there are diagnostics |
| NetworkPhase.NoOperationCancel | crates/leelo-engine/src/lib.rs:478-485 | no provider is ever marked canceled by a failed operation |
| NetworkPhase.DeadlineEnds | crates/leelo-engine/src/lib.rs:426-446 | the deadline ends the phase whenever it strikes, and nothing reopens it |
| NetworkPhase.AnswersEnd | crates/leelo-engine/src/lib.rs:425-507 | from every state, letting pending providers answer, whatever they answer, ends the phase within one completion per provider left, without the deadline |
| NetworkPhase.RecoveryLoop.OnComplete | crates/leelo-engine/src/lib.rs:447-505 | one completion updates loop and report as one step of the step system |
| NetworkPhase.RecoveryLoop.OnDeadline | crates/leelo-engine/src/lib.rs:426-446 | the deadline ends the phase as the step system does |
| NetworkPhase.RecoverNetworkObserved | crates/leelo-engine/src/lib.rs:403-507 | the loop under any schedule ends in the state of the step system |
| PhaseHistory.HistoryExact | crates/leelo-engine/src/lib.rs:403-507 | for every schedule exactly the answers that were launched, polled for and in time count, with the results they carried, and the phase runs exactly until the deadline, a satisfying set of answers or the last provider |
| NetworkPhase.AppendTimeouts | crates/leelo-engine/src/lib.rs:429-441 | the loop appends a timeout for each queued provider without one |
| LeafKeys.LeafContextInjective | crates/leelo-envelope/src/lib.rs:325-331 | no two leaves of any two envelopes share a wrapping context, unless context and identity agree |
| LeafKeys.NetworkInputInjective | crates/leelo-envelope/src/lib.rs:333-340 | an evaluation input determines binding, node and seed |
| LeafKeys.RecoverLeafExact | crates/leelo-engine/src/lib.rs:336-366 | whatever a provider replies: its own failure is passed on, a reply whose proof fails is an invalid proof, and any other gives the enrolled share; the honest answer authenticates under every blinding |
| ReleaseGates.ReleaseState.Matches | crates/leelo-engine/src/release.rs:26-40 | the byte loop decides equality of contexts |
| ReleaseGates.ReleaseState.Advance | crates/leelo-engine/src/release.rs:42-59 | advances exactly from the expected phase, on the same context, with live authorization where it is needed |
| ReleaseGates.ReleaseState.Network | crates/leelo-engine/src/release.rs:61-65 | accepted exactly as the first check |
| ReleaseGates.ReleaseState.Tpm | crates/leelo-engine/src/release.rs:67-72 | accepted exactly as the second check, live where required |
| ReleaseGates.ReleaseState.Payload | crates/leelo-engine/src/release.rs:74-78 | accepted exactly as the third check |
| ReleaseGates.ReleaseState.Release | crates/leelo-engine/src/release.rs:80-87 | accepted exactly as the fourth check, within the deadline |
| ReleaseGates.GateOrder | crates/leelo-engine/src/release.rs:42-87 | out of any sequence of checks the gate accepts a prefix of network, TPM, payload, release, each met once and in that order |
| ReleaseGates.GateOpens | crates/leelo-engine/src/release.rs:42-87 | a sequence that contains the four met checks in order opens the gate |
| Unlocking.Clock.CheckDeadline | crates/leelo-engine/src/lib.rs:127-135 | late exactly when the reading has reached the deadline |
| Unlocking.PhaseErrorKinds | crates/leelo-engine/src/lib.rs:160-168 | without a share the network stage ends as inconsistent shares, missing factors or the deadline, by its exit |
| Unlocking.RootDetermined | crates/leelo-engine/src/recovery.rs:159-163 | the two root shares always determine a root |
| Unlocking.RootOf | crates/leelo-engine/src/recovery.rs:159-163 | the shares at coordinates 1 and 2 reconstruct without a sharing error |
| Unlocking.AcceptAll | crates/leelo-engine/src/recovery.rs:138-140 | the session accepts every available leaf |
| Unlocking.UnlockOperation.NetworkStage | crates/leelo-engine/src/recovery.rs:117-143 | with a share session and gate both record the network factor; without one neither moves |
| Unlocking.UnlockOperation.TpmStage | crates/leelo-engine/src/recovery.rs:144-158 | succeeds exactly with an authorized seed that opens the TPM leaf in time |
| Unlocking.UnlockOperation.PayloadStage | crates/leelo-engine/src/recovery.rs:159-183 | succeeds exactly when the payload opens under the root and the last reading is before the deadline |
| Unlocking.UnlockOperation.ReleaseStage | crates/leelo-engine/src/recovery.rs:169-178 | releases exactly before the deadline; a late gate reports the deadline |
| Unlocking.UnlockOperation.Run | crates/leelo-engine/src/recovery.rs:117-183 | which credential leaves and exactly when; gate and session stay in lockstep, and the gate is open exactly on success |
| Unlocking.NoGenericRefusal | crates/leelo-engine/src/recovery.rs:117-183 | the generic policy and sharing errors are unreachable unless the TPM adapter itself returns them |
| Unlocking.EvidenceLive | crates/leelo-engine/src/recovery.rs:30-52 | an accepted TPM share carries the authorization its mode asks for |
| Unlocking.Begin | crates/leelo-engine/src/recovery.rs:84-116 | begins exactly on an authentic envelope for this volume and slot, in a supported mode, in time, with each refusal in order |
| Unlocking.TimeoutSettles | crates/leelo-engine/src/lib.rs:426-446 | a schedule in which the deadline strikes settles the network stage of every envelope |
| Unlocking.Unlock | crates/leelo-engine/src/lib.rs:529-582 | the outcome of the whole operation on raw bytes, for authentic and for other inputs |
| RoundTrips.RootRecovered | crates/leelo-engine/src/recovery.rs:159-163 | the two root shares of an enrollment give its root |
| RoundTrips.EvidenceOpens | crates/leelo-engine/src/recovery.rs:30-73 | the sealed seed and the network secret open the enrolled credential |
| RoundTrips.CompletedFromEvents | crates/leelo-engine/src/lib.rs:426-507 | every completion and the deadline exit come from an event of the schedule |
| RoundTrips.QuorumShare | crates/leelo-engine/src/lib.rs:447-495 | the quorum of an enrolled envelope yields the enrolled network secret, whoever answered, in whatever order, whatever the others replied |
| RoundTrips.UnlockRoundTrip | crates/leelo-engine/src/recovery.rs:117-183 | with the sealed seed, unlocking returns the enrolled credential exactly when the quorum is reached and the last reading is in time |
| RoundTrips.HonestQuorum | crates/leelo-engine/src/lib.rs:403-507 | if providers that satisfy the policy answer honestly and the deadline does not strike, the phase ends with a quorum |
| Enrolling.DrawSecrets | crates/leelo-engine/src/lib.rs:213-216 | credential, root, its two shares and the TPM seed, exactly from the next 128 bytes |
| Enrolling.GatherSecrets | crates/leelo-engine/src/lib.rs:206-219 | the steps before the network succeed exactly when descriptor, mode, entropy, TPM and clock allow it, with credential, root, coefficients and seed drawn in this order |
| Enrolling.ShareNetwork | crates/leelo-engine/src/lib.rs:228-318 | the network leaves, exactly when the supply suffices and all providers answer, shared with coins that are exactly the next bytes of the supply |
| Enrolling.SealEnvelope | crates/leelo-engine/src/lib.rs:319-334 | the TPM leaf, the network leaves and the payload are signed as one body that holds exactly this material, blob and nonces |
| Enrolling.WrapLeaves | crates/leelo-engine/src/lib.rs:241-318 | every share is wrapped under its provider's output, each with its own nonce, exactly when all providers answer with a valid proof in time, else the refusal names the first that does not |
| Enrolling.FreshSplitRecovers | crates/leelo-engine/src/lib.rs:228-239 | all shares of a fresh split recover the secret, so the comparison before signing never fails |
| Enrolling.Prepare | crates/leelo-engine/src/lib.rs:199-335 | succeeds exactly when descriptor, mode, entropy, TPM, providers and clock allow it, with the refusal of the first step that fails; the envelope then authenticates and holds the material, which is exactly the bytes drawn, in order, the sealed blob and one nonce per ciphertext |
| Enrolling.PreparedUnlocks | crates/leelo-engine/src/lib.rs:199-335 | unlocking a prepared envelope on its own volume and slot returns the enrolled credential for every completion order that reaches the quorum in time |
| JournalText.LowerHex | crates/leelo-collector/src/reconcile.rs:322-336 | decodes lower-case hexadecimal of the exact length |
| JournalText.UnhexedExact | crates/leelo-collector/src/reconcile.rs:322-336 | accepts exactly the text the encoder writes for n bytes |
| JournalText.IdentityRoundTrip | crates/leelo-collector/src/reconcile.rs:338-352 | the reader recovers a recorded identity exactly when the descriptor has one |
| JournalText.IdentityExact | crates/leelo-collector/src/reconcile.rs:338-352 | an identity is read from a record exactly when the record is the canonical text of a nonzero binding, a nonzero volume and a slot below 32 |
| JournalText.CommittedExact | crates/leelo-collector/src/reconcile.rs:356-398 | for all bytes: the reader reads exactly the files of one to four newline-terminated lines within the limits, in the order of the phases, all of one identity, with a path and a 48-byte hash on the second, and calls four lines committed |
| JournalText.JournalCommitted | crates/leelo-collector/src/reconcile.rs:356-398 | the line loop decides exactly that: pending or committed by the number of lines, and nothing for any other bytes |
| JournalText.WholeRecords | crates/leelo-collector/src/reconcile.rs:356-398 | n whole records read as pending, or committed with all four, exactly when each is readable |
| JournalText.CutJournal | crates/leelo-collector/src/reconcile.rs:356-398 | cut at any byte the journal reads as committed only when complete, as pending exactly after one to three whole records, and otherwise as nothing |
| Journals.Disk.Create | crates/leelo-cli/src/enrollment.rs:20-22 | creates a file exactly when the operation works and the file does not exist, and otherwise changes nothing |
| Journals.Disk.Write | crates/leelo-cli/src/enrollment.rs:23-26 | appends all bytes exactly when the operation works, and otherwise the prefix the fault leaves |
| Journals.Disk.SyncFile | crates/leelo-cli/src/enrollment.rs:27-30 | makes the written bytes durable exactly when the operation works |
| Journals.Disk.SyncDirectory | crates/leelo-cli/src/enrollment.rs:31-33 | makes the directory entry durable exactly when the operation works |
| Journals.Begin | crates/leelo-cli/src/enrollment.rs:44-60 | succeeds exactly when there is no journal and four operations work; then the first record and its directory entry are durable, before there is any envelope; an existing journal is left alone |
| Journals.EarlySafe | crates/leelo-cli/src/enrollment.rs:44-60 | the states before the envelope exists are safe for every envelope and hash that may follow |
| Journals.EnrollmentJournal.Record | crates/leelo-cli/src/enrollment.rs:62-66 | appends one record exactly when the write works, else a part of it, every state on the way safe |
| Journals.EnrollmentJournal.Phase | crates/leelo-cli/src/enrollment.rs:68-76 | appends one identity record and makes it durable, exactly when both operations work |
| Journals.EnrollmentJournal.SavePending | crates/leelo-cli/src/enrollment.rs:87-92 | the whole bundle and its directory entry are durable exactly when there was none and four operations work; an existing bundle is left alone |
| Journals.EnrollmentJournal.Stage | crates/leelo-cli/src/enrollment.rs:88-97 | the bundle and three records are durable before the storage adapter, exactly when there was no bundle and seven operations work |
| Journals.EnrollmentJournal.Commit | crates/leelo-cli/src/enrollment.rs:78-121 | for all faults every state on the way is safe; an I/O error exactly when there is a bundle or one of the seven operations before the storage adapter fails, the adapter's own error when it fails, committed but unjournaled exactly when it succeeded and one of the last two operations fails, else its token; each outcome fixes the reported storage state |
| Journals.Enroll | crates/leelo-cli/src/enrollment.rs:215-252 | begin, prepare and commit in program order: every state of the whole history is safe for the envelope that was prepared, for all faults and outcomes, and the faults of the thirteen operations decide the result |
| Journals.CrashSafe | crates/leelo-cli/src/enrollment.rs:44-121 | after a crash in any such state the journal reads as committed only if the adapter had succeeded; once it was called the bundle and the first three records survive |
| Metrics.FillBuckets | crates/leelo-collector/src/metrics.rs:191-195 | the loop bumps exactly the buckets whose limit the duration meets |
| Metrics.Collected.Increment | crates/leelo-collector/src/metrics.rs:170-179 | one counter, or the overflow count when the registry is full |
| Metrics.Collected.Observe | crates/leelo-collector/src/metrics.rs:181-196 | one histogram, or the overflow count when the registry is full |
| Metrics.Collected.Accept | crates/leelo-collector/src/metrics.rs:54-168 | a fresh event enters windows and counts; any other changes only its own counter |
| VerdictRuns.VerdictExact | crates/leelo-collector/src/metrics.rs:54-79 | over every run the verdict on the next event, by the accepted events: a duplicate exactly if its key is among the last 65536, rejected exactly if it is invalid, has no attempt or is a second terminal event of an attempt in the window, else accepted |
| VerdictRuns.EventsConserved | crates/leelo-collector/src/metrics.rs:54-106 | the accepted events are those chosen by these conditions from the received ones; every event is accepted, rejected or a duplicate, and counted as exactly that |
| VerdictRuns.TotalsExact | crates/leelo-collector/src/metrics.rs:80-107 | over every run the eviction count is what entered the two windows and is no longer there, and the last time is that of the latest accepted event |
| VerdictRuns.LatestIsMaximum | crates/leelo-collector/src/metrics.rs:107 | the latest time is the maximum over the accepted events, reached by one of them |
| MetricRuns.ReplayRebuilds | crates/leelo-collector/src/metrics.rs:54-168 | replaying only the accepted events rebuilds windows, attempts, counters and histograms, across evictions too |
| MetricRuns.RunBounded | crates/leelo-collector/src/metrics.rs:60-100 | over every run set and queue of both windows are in bijection within 65536 entries, the registry stays within 512 series, and the event window is exactly the last accepted keys |
| MetricRuns.CountedOnce | crates/leelo-collector/src/metrics.rs:60-86 | an event is counted twice only with more than 65536 accepted events in between |
| AttemptRuns.AttemptsExact | crates/leelo-collector/src/metrics.rs:66-101 | the attempt window is the first-in first-out window of the accepted events; each attempt in it holds the largest drop count, and whether there was a terminal event, of its events since it entered |
| AttemptRuns.LargestIsMaximum | crates/leelo-collector/src/metrics.rs:96-101 | the kept drop count is the maximum over the events, reached by one of them |
| AttemptRuns.DropsConserved | crates/leelo-collector/src/metrics.rs:87-101 | the reported total is the sum, over every stay of an attempt in the window, of the largest drop count reported during that stay, saturating |
| AttemptRuns.TerminalOnce | crates/leelo-collector/src/metrics.rs:66-79 | a second terminal event of one attempt is accepted only if the attempt left the window in between |
| RegistryRuns.HistogramsCumulative | crates/leelo-collector/src/metrics.rs:181-196 | so buckets are cumulative and none exceeds the count |
| RegistryRuns.RegistryExact | crates/leelo-collector/src/metrics.rs:106-196 | over every run, full registry or not, each counter and each histogram bucket is the saturated number of accepted events it stands for, and each sum that of their durations; a series is missing only if it stands for none or all 512 places are taken |
| RegistryRuns.OverflowExact | crates/leelo-collector/src/metrics.rs:170-196 | over every run the overflow count is the number of updates to series that a full registry did not take |
| RegistryRuns.SumIsTotal | crates/leelo-collector/src/metrics.rs:181-196 | without negative durations the held sum is the total, or the largest double where the total exceeds it |
| EventLogs.CompleteLines | crates/leelo-collector/src/linux.rs:62-71 | the backward scan finds the end of the last complete line |
| EventLogs.Replay | crates/leelo-collector/src/linux.rs:50-87 | cuts off a torn tail, counts it once, and feeds every complete line |
| EventLogs.ReplayTorn | crates/leelo-collector/src/linux.rs:50-87 | a log of whole lines with any torn tail feeds exactly the logged events |
| EventLogs.ReplayAnything | crates/leelo-collector/src/linux.rs:50-87 | replaying any bytes offers the events of the complete lines in order and rejects once each malformed line and a torn tail |
| EventLogs.Collector.Receive | crates/leelo-collector/src/linux.rs:174-197 | an accepted event is appended when the write works; a failed append is rolled back or stops the collector with a torn tail; the log is rotated exactly when the line does not fit, and events are lost from the files only by a failed write or a second rotation |
| EventLogs.Collector.Restart | crates/leelo-collector/src/linux.rs:50-87 | a restart rebuilds the state exactly when no accepted event was lost to a failed write or a second rotation |

## Left out

- Metrics.Collected.Observe: durations are real numbers, so the rounding of double arithmetic is not modelled.
- Metrics.Collected.Increment: a metric key is its name with its label values, not the rendered text; distinct keys are taken to render differently.
- Metrics.Collected.Accept: the validity of a record is a parameter, so the vocabulary of the telemetry crate is not modelled.
- EventLogs.Collector.Receive: errors of renaming and reopening at a rotation, which stop the collector, are not modelled.
- Enrolling.Prepare: the observation marks of the report during enrollment are not modelled, only those of recovery.
- Unlocking.UnlockOperation.Run: the executor's own start-up error is not modelled. The network stage is given a schedule that ends it; every schedule with the deadline does, and every state has one without it.
- Envelopes.GetNode: does not say which tree is read from bytes that are not an encoding; `Envelopes.ReadDescriptor` refuses them all by comparing with the re-encoding.
- LeafKeys.RecoverLeafExact: input-length errors of key derivation and blinding cannot occur for the fixed lengths used and have no branch.
- CryptoLaws: secrecy and unforgeability are not stated; constant-time behaviour and zeroization are not modelled.
- JournalText.JournalCommitted: JSON syntax is a parameter with inverse laws; texts are sequences of characters, which gives the same verdict as bytes because only ASCII digits and hyphens are accepted.
- Journals.EnrollmentJournal.Commit: progress messages and emitted telemetry events are not modelled; only the storage state and the boot-test flag are.
- The wire protocol, server, key store and TPM and LUKS adapters are separate components behind the interfaces modelled as parameters.
- Rendering of metrics, boot reconciliation and freshness of inventories are separate reports over the states modelled here.
- Error display, command-line parsing, file permissions and telemetry transport are not modelled.
