# Royak: a verified model of its state, streams and protocols

Royak is a container orchestrator in one binary. This project models, in Dafny 4.11, the
algorithms and state machines of Royak whose correctness depends on every input, every run or
every interleaving, and proves what they promise.

`dafny verify dfyconfig.toml` checks the whole project.

## Contents

| file | Royak component |
|---|---|
| `StrategicMerge.dfy`, `StrategicMergeLaws.dfy` | strategic merge of a JSON patch into a manifest |
| `Framing.dfy`, `MeshStream.dfy` | sealed frames of the node-to-node mesh, reassembled from TCP reads |
| `MeshRouting.dfy` | the cross-node routing decision and the hand-off headers |
| `MeshProxy.dfy` | the mesh proxy's two ends, and a whole cross-node request |
| `MeshFirstRead.dfy` | the same hop without encryption, for every length of the peer's first read |
| `StateFile.dfy`, `NeuralState.dfy` | the indexed key-value store and its binary file |
| `RaftStore.dfy` | Raft log storage and replicated state machine |
| `LeaderLease.dfy` | the file-based leader lease |
| `BuildRegistry.dfy` | background image builds |
| `StreamDemux.dfy`, `WebSocket.dfy`, `Chunked.dfy` | Docker exec streams, WebSocket frames, chunked transfer coding |
| `Ingress.dfy`, `ServiceLb.dfy`, `RoundRobin.dfy` | ingress table, NodePort pod choice, cyclic choice |
| `Calendar.dfy`, `Base64.dfy`, `PodToken.dfy` | civil dates, Base64, pod identity tokens |
| `Bytes.dfy`, `Bits.dfy`, `Strings.dfy`, `Utf8Text.dfy` | integers on the wire, bit operations, text, UTF-8 and its lossy decoding |
| `ClusterTypes.dfy` | entities that several components share |

Algorithms that the code performs by loops and field updates are methods and classes, each tied by
its postcondition to a function of the inputs or of the old state; the laws are lemmas about those
functions. Docker, AES-GCM, HMAC, the key embedding and, for header text, UTF-8 are function-valued
parameters, so the results hold for any of them. Two facts are assumed where a member names them:
what AES-GCM sealed opens again (`MeshStream.Correct`), and UTF-8 decodes what it encoded, keeps line
feeds and is not confused across an ASCII byte (`MeshRouting.Lawful`, `MeshFirstRead.Utf8Laws`).

## Main results

- **Merge.** The merged document is described position by position without the element loop; every
  patch value is found at its path; merging twice is merging once for distinctly keyed patches whose
  nulls only delete and whose key choice is stable, and stability of the key choice has an exact
  condition. For each hypothesis there are documents that break idempotence without it. A patch changes
  nothing exactly if the document already holds it.
- **Streams.** For *every* byte stream and *every* cut into reads, accumulate-and-drain loops yield
  what one pass over the whole stream yields (`Framing`). The mesh relay, with its two-phase
  hand-over of a partly consumed buffer, Docker's demultiplexer and the WebSocket reader are
  instances.
- **A cross-node request.** Routing, hand-off headers, sealing, an arbitrary network and the peer's
  two phases compose: the peer dials the pod and port the sender's router chose, and the pod receives
  the framed head and the client's bytes. When the hand-off survives the request line is stated by an
  exact condition, and for the unencrypted hop what the peer reads is determined for every length of
  its first read.
- **Store.** Through every sequence of operations the store is a plain map; `load` inverts `save`,
  and the outcome of loading a truncated file is determined for every length.
- **Raft.** Every run in openraft's calling order keeps log, purge point, applied point and world in
  agreement with the committed sequence, so replicas never diverge: one that applied further is the
  other plus the committed entries in between.
- **Lease.** One mutator at all times holds exactly in those runs in which no rename of a lease is a
  race: over the running lease of an instance that has not stood down, over its expired one, or after
  that one's lease was removed by somebody's release or displaced through the temporary file all
  instances share. The runs include every interleaving of clock reading, look, open, write, rename,
  failure, crash and release, with arbitrary clocks. Each of the four happens in a given run, and a
  run is safe once attempts and releases are unbroken and leaders come back in time.
- **Chunked bodies.** The byte decoder inverts the coding for every message; the text decoder does if
  and only if every chunk is text by itself. For every message of text and every cut the outcome of
  both is determined, panics included; UTF-8 and its lossy decoding are defined byte by byte.
- **Builds.** After every interleaving a poll answers for the build launched by the first start since
  the last clear, as read off the event history alone.
- **Calendar.** The day-count conversion is the Gregorian calendar walked day by day, and a bijection
  with the dates from 1970 on.

## Where the code does less than one would expect

Each is a lemma or a postcondition of the model.

- `load` passes a file of 20 to 23 bytes through its size guard and then indexes out of range
  (`StateFile.TruncatedFileIsRefused`). The comment at the head of `src/neural_state.rs` describes a
  16-byte header; the code writes 24 bytes, and the model follows the code.
- A file that repeats a key loads into a store whose index is not a bijection
  (`NeuralState.NeuralState.FromImage`); deleting then brings an old entry back
  (`NeuralState.RepeatedKeyComesBack`).
- The lease's read and write are separate, so two instances can both become leader
  (`LeaderLease.OverlappingLooksMakeTwoLeaders`); so are the read and the removal of a release
  (`LeaderLease.StalledReleaseMakesTwoLeaders`); instances share one temporary file, so one can rename
  the lease of another (`LeaderLease.CrossedWritesMakeTwoLeaders`); and a leader whose tick outlasts the lease time goes
  on mutating beside its successor (`LeaderLease.SlowTickMakesTwoLeaders`).
- An encrypted peer whose first TCP read delivers fewer than eight bytes is not recognised as a peer
  (`MeshStream.RelayRequest`).
- A request whose lines before the first CRLF hold an empty line or a hand-off header of their own
  defeats the injected headers (`MeshRouting.HandoffArrivesIff`, `MeshRouting.OwnHeaderWins`).
- Without encryption the peer decides by its first read: one that ends inside the injected headers
  makes it take another pod or another port (`MeshFirstRead.PlaintextFirstReadIff`).
- Captured exec returns the arrived part of a last, incomplete frame; interactive exec drops it
  (`StreamDemux.BothWays`). Captured exec also undoes a chunked transfer coding, interactive exec
  takes the chunked bytes for frames and as a rule sends nothing (`StreamDemux.ChunkedStreamsAgreeIff`).
- The text decoder of chunked bodies slices by byte positions: a character split between chunks, or
  cut off near the end of one, makes it panic (`Chunked.SplitCharacterPanics`, `Chunked.TruncatedText`).
- To a cut-off body the text decoder also appends a cut size line, a CR cut from its LF, or a
  replacement character (`Chunked.TruncatedText`); the byte decoder does not.
- The published ingress table and the live lookup can choose different entries: with several rules
  for one host, when the longest path has no backend, or when a path is listed twice
  (`Ingress.TableAgreesIff`, `Ingress.OneRuleAgreesIff`).
- The ingress takes pods of deployment "web-api" for pods of "web" (`Ingress.PrefixTakesPodsOf`).
- A pod token's payload stands for other claims too if a name holds a colon
  (`PodToken.PayloadIsInjectiveIff`).
- Installing a Raft snapshot moves the applied point without restoring the world
  (`RaftStore.SnapshotSkipsCommands`).

## Model

| member | source | states |
|---|---|---|
| StrategicMerge.StrategicMerge | src/api.rs:3386-3410 | the field-by-field loop, in any order of the patch's fields, leaves the merge of base and patch |
| StrategicMerge.MergeArraysInPlace | src/api.rs:3412-3433 | the element loop leaves the keyed merge, or the patch array when no common merge key exists |
| StrategicMerge.ChooseKey | src/api.rs:3416-3418 | the key found is held by every element of both sides of a non-empty patch; none found means no merge key is |
| StrategicMergeLaws.ChooseKeyIs | src/api.rs:3416-3418 | a usable key is the chosen one if and only if no usable key precedes it in the priority order |
| StrategicMergeLaws.ElementsClosedForm | src/api.rs:3419-3430 | for distinct patch keys the loop equals its closed form: base order kept, first holder of a key merged, others unchanged, new elements appended in patch order |
| StrategicMergeLaws.MergeIsAsDescribed | src/api.rs:3386-3433 | at every depth: null fields gone, unmentioned fields and unnamed elements unchanged, new fields and elements the patch's own, order as in the closed form |
| StrategicMergeLaws.PatchIsContained | src/api.rs:3386-3433 | every value of a null-free patch is in the result at its path, array elements located by merge key |
| StrategicMergeLaws.MergeIntoItself | src/api.rs:3386-3433 | a well-keyed document merged into itself is unchanged |
| StrategicMergeLaws.KeyChoiceRepeats | src/api.rs:3416-3418 | the second merge uses the key of the first if and only if every preceding key all patch elements hold is missing from an element afterwards: an untouched one that lacked it, or a touched one whose patch deletes it |
| StrategicMergeLaws.MergeIsIdempotent | src/api.rs:3386-3433 | merge(merge(b,p),p) = merge(b,p) for distinctly keyed patches with a stable key choice whose nulls delete fields and are not inserted |
| StrategicMergeLaws.UnchangedIff | src/api.rs:3386-3433 | a patch leaves a document as it is if and only if the document already holds it: deleted fields absent, values at their paths, elements located by the key of the merge |
| StrategicMergeLaws.IdempotentIff | src/api.rs:3386-3433 | so merging twice is merging once if and only if the first result holds the patch |
| StrategicMergeLaws.UniformMergeIsIdempotent | src/api.rs:3386-3433 | in particular when matching arrays carry the same merge keys on every element |
| StrategicMergeLaws.NullBreaksIdempotence | src/api.rs:3390-3407 | every null inside an inserted or replacing object makes the second merge differ |
| StrategicMergeLaws.UnstableKeyBreaksIdempotence | src/api.rs:3416-3426 | an element that gains a higher-priority key makes the second merge differ |
| StrategicMergeLaws.DuplicateKeysBreakIdempotence | src/api.rs:3422-3429 | two patch elements with one key make the second merge differ, even on uniform documents |
| Framing.DrainIsIncremental | src/cluster_mesh.rs:549-552 | draining early and draining late agree for every byte stream, well formed or not |
| Framing.DrainLoop | src/cluster_mesh.rs:583-586 | the open-and-drain loop takes exactly the whole frames at the front |
| Framing.Receive | src/cluster_mesh.rs:545-554 | one more read keeps emitted frames and buffer in step with everything received |
| Framing.DrainFrames | src/mesh_crypto.rs:128-136 | any concatenation of frames drains to its items, then to what the remaining bytes yield |
| MeshStream.OpenSealed | src/mesh_crypto.rs:45-79 | a sealed frame opens to its plaintext and consumes exactly itself, whatever follows |
| MeshStream.FrameLayout | src/mesh_crypto.rs:45-55 | the bytes of a sealed frame: length, nonce, sealed text |
| MeshStream.AnnouncedLength | src/mesh_crypto.rs:59-79 | a length below 12 or above 4 MiB is an error at once, any other is awaited |
| MeshStream.OpenIsStable | src/mesh_crypto.rs:61-79 | a whole frame and an error stay what they are when bytes are appended |
| MeshStream.PrefixNeedsMore | src/mesh_crypto.rs:62-72 | every strict prefix of a sealed frame asks for more bytes |
| MeshStream.PumpReads | src/cluster_mesh.rs:540-557 | the response pump delivers what the whole stream delivers, for every cut into reads |
| MeshStream.ServePeer | src/cluster_mesh.rs:579-655 | head phase and pump together deliver what the whole stream delivers; the head is a whole number of its frames and is complete unless the peer closed |
| MeshStream.IntactStreamIsDelivered | src/cluster_mesh.rs:526-538 | chunks sealed within the frame limit are delivered as their concatenation, with nothing left over |
| MeshStream.BadFrameEndsDelivery | src/cluster_mesh.rs:583-586 | with a bad frame, delivery is exactly the plaintext before it, whatever follows |
| MeshStream.CutStreamDeliversWholeFrames | src/cluster_mesh.rs:641-654 | a stream cut inside a frame delivers exactly the frames before it |
| MeshStream.RelayRequest | src/cluster_mesh.rs:384-655 | a relayed request reaches the pod byte for byte exactly when the first read holds the whole magic |
| MeshRouting.LookupPodNode | src/cluster_mesh.rs:140-145 | an address found is a census address of the pod other than our own; none means there is none |
| MeshRouting.Resolve | src/cluster_mesh.rs:70-129 | Unknown and NoBackend exactly in their cases; Local for the lowest replica on no peer; Remote only when every replica is on a peer, for the first replica |
| MeshRouting.TargetPortChoice | src/cluster_mesh.rs:227-237 | the named service port, else the first, decides; zero or nothing means 80 |
| MeshRouting.TargetPortByDefault | src/cluster_mesh.rs:227-237 | an unknown service, or one without ports, means 80 |
| MeshRouting.PortOr80Is | src/cluster_mesh.rs:215-220 | the header's number from 1 to 65535, else 80 |
| MeshRouting.ParseHeaderLoop | src/cluster_mesh.rs:199-209 | the header scan: first header of that name before the first empty line |
| MeshRouting.PodNameIsHeaderSafe | src/cluster_mesh.rs:106-107 | a resolved pod name survives a header line if and only if the deployment's name has no line feed |
| MeshRouting.PeerReads | src/cluster_mesh.rs:245-260 | for every request, what the peer reads back: only a line before the first CRLF can pre-empt the injected header |
| MeshRouting.HandoffArrivesIff | src/cluster_mesh.rs:199-260 | pod and port are read back if and only if the lines before the first CRLF neither end the headers nor name others |
| MeshRouting.OwnHeaderWins | src/cluster_mesh.rs:199-260 | every request whose first line is a hand-off header for another pod or port: the peer follows that line |
| MeshRouting.EmptyFirstLineHides | src/cluster_mesh.rs:199-260 | every request that starts with a line end: the peer reads neither pod nor port |
| MeshRouting.PeerDialsSamePod | src/cluster_mesh.rs:199-260 | with a plain first line, or no CRLF at all, the peer reads exactly the pod and the nonzero port, whatever headers the client wrote |
| MeshProxy.HostNames | src/cluster_mesh.rs:277-284 | a dotted host names service and namespace, a bare one the default namespace |
| MeshProxy.FirstHostLine | src/cluster_mesh.rs:188-196 | the first Host line decides, in either spelling |
| MeshProxy.NoHostLine | src/cluster_mesh.rs:188-196 | without a Host line there is no host and no port |
| MeshProxy.OtherLinesAreNoHost | src/cluster_mesh.rs:188-196 | a line that starts with another letter is no Host line |
| MeshProxy.HostLineSays | src/cluster_mesh.rs:188-196 | its host is what stands before the colon, its port the number behind it, or none |
| MeshProxy.HostDecidesRoute | src/cluster_mesh.rs:418-455 | a request without hand-off whose Host header is service.namespace:port is routed for exactly that service, namespace and port, whatever its other headers are |
| MeshProxy.HostAfterRequestLine | src/cluster_mesh.rs:188-196 | such a request written out as text |
| MeshProxy.HandleConn | src/cluster_mesh.rs:372-483 | peer connection, explicit hand-off, each refusal and each router verdict exactly in its case; forwarded only if every replica is on a peer |
| MeshProxy.MagicIs | src/mesh_crypto.rs:25 | the magic is RKMESHc1 |
| MeshProxy.PeerTarget | src/cluster_mesh.rs:597-632 | the handed-off pod, else replica 1 of the local service, at the address found for it, or a refusal |
| MeshProxy.ServeConn | src/cluster_mesh.rs:562-655 | the target is chosen by a whole number of frames, the pod receives everything the stream holds |
| MeshProxy.PhaseOneKnowsHost | src/cluster_mesh.rs:587-590 | unless the stream is over, phase one stops only with the host known and the blank line there |
| MeshProxy.HandoffIsTarget | src/cluster_mesh.rs:581-604 | phase one never stops before the head's frame, so the peer's choice is the handed-off pod, or a refusal exactly if its container is not found |
| MeshProxy.CrossNodeRequest | src/cluster_mesh.rs:372-655 | router to pod: for every network cut the peer dials the pod and port the sender resolved and the pod receives the framed head and the client's bytes, exactly if the first read holds the magic and the container is found |
| MeshFirstRead.CutLineIsNoHeader | src/cluster_mesh.rs:199-209 | cutting a line that is no hand-off header does not make it one |
| MeshFirstRead.PlaintextFirstRead | src/cluster_mesh.rs:376-404 | for every plain request and every length of the first read: the pod's name as far as it is there, 80 until a digit is there, then the number of the digits that are |
| MeshFirstRead.PlaintextFirstReadIff | src/cluster_mesh.rs:376-404 | pod and port are right if and only if the read holds the whole name and all digits, or no digit when the port is 80 |
| MeshFirstRead.PodNameEndsInAscii | src/cluster_mesh.rs:106-107 | every resolved pod name ends in an ASCII character |
| StateFile.Save | src/neural_state.rs:173-203 | the writes produce the encoding of the store |
| StateFile.HeaderLayout | src/neural_state.rs:177-182 | the 24 bytes of the header, least significant byte first |
| StateFile.BlockLayout | src/neural_state.rs:184-198 | a key or value is its length in four bytes and its bytes |
| StateFile.FloatLayout | src/neural_state.rs:190-193 | a float takes four bytes, least significant first |
| StateFile.Load | src/neural_state.rs:206-273 | the position-advancing loops compute the parse of the file, error by error |
| StateFile.LoadRestores | src/neural_state.rs:173-273 | loading a saved file restores keys, order, embeddings, values and counter; trailing bytes are ignored |
| StateFile.SizedStoreFits | src/neural_state.rs:173-203 | every store whose lengths fit 32 bits and whose counter fits 64 is one of those |
| StateFile.TruncatedFileIsRefused | src/neural_state.rs:206-273 | every strict prefix of a saved file is refused with an error, except that 20 to 23 bytes index out of range |
| StateFile.EntryCutOff | src/neural_state.rs:237-259 | an entry cut off anywhere is reported as truncated |
| StateFile.SaveIsInjective | src/neural_state.rs:173-203 | different stores have different files |
| NeuralState.DeleteKeepsBijection | src/neural_state.rs:107-124 | swap-remove keeps entries and index in bijection and removes exactly the key |
| NeuralState.SetKeepsBijection | src/neural_state.rs:89-98 | update in place and append keep the bijection and set exactly the key |
| NeuralState.LengthIsCardinality | src/neural_state.rs:168-170 | the entry count is the number of keys of the map |
| NeuralState.NeuralState.constructor | src/neural_state.rs:45-53 | a new store is the empty map |
| NeuralState.NeuralState.Set | src/neural_state.rs:85-99 | the map gets the pair, the counter advances, the matrix is dropped, the entry vector changes in one place |
| NeuralState.NeuralState.Get | src/neural_state.rs:102-104 | the map's value |
| NeuralState.NeuralState.Delete | src/neural_state.rs:107-124 | the map loses the key and the matrix is dropped; true exactly if it was there; otherwise nothing changes |
| NeuralState.NeuralState.ListPrefix | src/neural_state.rs:127-132 | exactly the map's keys with the prefix, each once |
| NeuralState.NeuralState.SearchMatrix | src/neural_state.rs:136-147 | the matrix used has the embedding of entry i in row i, cached or rebuilt |
| NeuralState.NeuralState.Len | src/neural_state.rs:168-170 | the cardinality of the map |
| NeuralState.NeuralState.Run | src/neural_state.rs:85-165 | every sequence of set, delete and search acts as on a plain map |
| NeuralState.NeuralState.FromImage | src/neural_state.rs:231-272 | the rebuilt store is consistent if and only if no key repeats in the file |
| NeuralState.LastIndexIsBijection | src/neural_state.rs:261 | the index rebuilt on load is a bijection exactly for distinct keys |
| NeuralState.RepeatedKeyComesBack | src/neural_state.rs:107-124 | in every store loaded with entries b, a, a, deleting a and then b brings the first a back |
| NeuralState.SaveAndReload | src/neural_state.rs:173-273 | a saved and reloaded store has the same contents, order and counter |
| NeuralState.ReloadedStoreGoesOn | src/neural_state.rs:85-273 | after any later operations on both, saved and reloaded store have the same contents |
| RaftStore.NeuroStore.AppendToLog | src/raft_node.rs:224-231 | entries are stored under their indices |
| RaftStore.NeuroStore.DeleteConflictLogsSince | src/raft_node.rs:233-241 | exactly the entries from the index on are removed |
| RaftStore.NeuroStore.PurgeLogsUpto | src/raft_node.rs:243-252 | the purge point moves and exactly the entries up to it are removed |
| RaftStore.NeuroStore.ApplyToStateMachine | src/raft_node.rs:263-281 | the machine is the fold of the entries, one response per entry |
| RaftStore.NeuroStore.GetLogState | src/raft_node.rs:205-213 | the purge point, and the id of the highest stored entry or the purge point |
| RaftStore.NeuroStore.TryGetLogEntries | src/raft_node.rs:163-172 | the stored entries of the index range, in order |
| RaftStore.NeuroStore.Drive | src/raft_node.rs:224-281 | a sequence of calls leaves the store of the corresponding run |
| RaftStore.CommandIsLocal | src/raft_node.rs:137-155 | scaling and heartbeat change only the fields they name, and the stamp |
| RaftStore.CommandCarries | src/raft_node.rs:121-146 | applying or deleting a resource leaves the world that the cluster's own operation returns, with only the stamp changed, and answers with its text; an unparsable manifest changes only the stamp |
| RaftStore.LastCommandCarries | src/raft_node.rs:263-281 | so does every sequence of entries whose last command is of that kind |
| RaftStore.UpdateAnswers | src/raft_node.rs:137-153 | the answers to scalings and heartbeats |
| RaftStore.MembershipIsLast | src/raft_node.rs:273-277 | the membership is that of the last membership entry, with its id |
| RaftStore.NoCommandNoChange | src/raft_node.rs:271-277 | other entries leave the world alone and are answered with nothing |
| RaftStore.LastScaleWins | src/raft_node.rs:137-155 | after any run of such commands the last scaling of each deployment and the last heartbeat of each node decide, and the stamp is the last response |
| RaftStore.RunMachineAppend | src/raft_node.rs:263-281 | how entries are batched does not matter |
| RaftStore.StepKeepsInv | src/raft_node.rs:224-281 | each operation in openraft's order keeps log, purge point, applied point and machine in agreement with the committed sequence |
| RaftStore.RunKeepsInv | src/raft_node.rs:224-281 | so does every run: stored indices are those after the purge point, the world is the fold of the commands up to the applied point |
| RaftStore.LogStateReportsBothEnds | src/raft_node.rs:205-213 | in every such state the highest stored index is the one below the next |
| RaftStore.RangeHasNoGap | src/raft_node.rs:163-172 | in every such state a range above the purge point reads without a gap, and its applied part is the committed sequence |
| RaftStore.LaggingReplicaCatchesUp | src/raft_node.rs:107-158 | of two replicas the one further on is the other plus the committed entries in between |
| RaftStore.ReplicasAgree | src/raft_node.rs:107-158 | replicas that applied equally far hold equal worlds and memberships, however they were driven |
| RaftStore.SnapshotSkipsCommands | src/raft_node.rs:289-302 | a replica that holds the whole log and installs a snapshot over a scaling: the log invariant holds, the world keeps the old replicas, the fold has the new ones |
| RaftStore.SnapshotWorldIsFoldIff | src/raft_node.rs:289-302 | the world is the fold up to the snapshot if and only if the skipped entries change nothing; for scalings and heartbeats that is decided by the last of each and the stamp; always so if no command is skipped |
| RaftStore.LastCommandStamps | src/raft_node.rs:153-157 | whatever the commands are, the fold carries the stamp of the last one, so a world with another stamp is not the fold |
| LeaderLease.RunIsTraceable | src/reconcile.rs:4632-4683 | in every run lease file and temporary file are different files, opened files exist, and who shuts down does not lead |
| LeaderLease.LeasesStayCurrent | src/reconcile.rs:4632-4683 | while leaders' own clocks advance, a lease in either file is at least as new as what its instance leads by |
| LeaderLease.RaceMakesTwo | src/reconcile.rs:4632-4683 | in every state each of the four races makes a second leader |
| LeaderLease.WithoutRace | src/reconcile.rs:4632-4683 | without a race there is one leader at all times, and the file names it or its lease was removed or displaced |
| LeaderLease.OneLeaderIffNoRace | src/reconcile.rs:4446-4683 | of every run, with arbitrary clocks, failing and torn writes, crashes, attempts of five steps and releases of two: at most one instance whose last attempt returned true, at all times, if and only if no rename is a race |
| LeaderLease.LeadsIff | src/reconcile.rs:4465-4480 | of every run: an instance leads if and only if the last event that ended an attempt, its shutdown or the instance itself is a rename that succeeded |
| LeaderLease.RefusedIff | src/reconcile.rs:4645-4653 | an attempt is refused if and only if the file names another instance whose lease is younger than 15 seconds by the clock read, and then the instance does not lead |
| LeaderLease.StepIsLocal | src/reconcile.rs:4632-4683 | a step changes phase and leadership of its own instance only, and an attempt, release or instance that ended is idle |
| LeaderLease.AnyStepCanFail | src/reconcile.rs:4679-4682 | opening, writing and renaming can each fail, and an instance can crash at any time |
| LeaderLease.FileChangesBy | src/reconcile.rs:4661-4683 | only a rename, a removal, or a write into a file renamed since its opening changes what the lease file shows |
| LeaderLease.UnbrokenRunsAreSafeIff | src/reconcile.rs:4632-4669 | if no step falls into another's attempt or release: one leader if and only if no lease is taken over from a holder that has not stood down; in particular when every leader comes back within the lease time |
| LeaderLease.OnTimeRunsAreSafeIff | src/reconcile.rs:4632-4683 | if leaders come back in time and releases are unbroken: one leader if and only if no rename replaces a running foreign lease or finds a leader displaced |
| LeaderLease.WholeAttempt | src/reconcile.rs:4632-4683 | an unbroken attempt renames its own lease, and the look that allowed it still holds |
| LeaderLease.OverlappingLooksMakeTwoLeaders | src/reconcile.rs:4638-4657 | two instances that both look before either writes both lead |
| LeaderLease.LateLeaderMakesTwo | src/reconcile.rs:4465-4500 | in every run, once the lease of a leader that has not come back has run out, any undisturbed attempt makes two leaders |
| LeaderLease.SlowTickMakesTwoLeaders | src/reconcile.rs:4465-4500 | such a run, with unbroken attempts and no release |
| LeaderLease.ReleaseHandsOver | src/reconcile.rs:4661-4669 | a release nobody falls into hands over at once, at any clock |
| LeaderLease.StalledReleaseMakesTwoLeaders | src/reconcile.rs:4661-4669 | a release that stalls between its read and its removal makes two other instances lead, all attempts unbroken |
| LeaderLease.DisplacedLeaderMakesTwo | src/reconcile.rs:4672-4683 | in every run, a displaced leader does not keep another instance from leading |
| LeaderLease.CrossedWritesMakeTwoLeaders | src/reconcile.rs:4672-4683 | two instances that write into the temporary file before either renames it end up both leading, with all clocks equal and nothing released |
| LeaderLease.SilentLeaderIsReplaced | src/reconcile.rs:4653-4657 | once a lease has run out the next undisturbed attempt takes over |
| BuildRegistry.Registry.constructor | src/docker.rs:1072-1075 | the registry starts empty |
| BuildRegistry.Registry.StartBuild | src/docker.rs:1079-1089 | a taken key changes nothing; a free one gets a fresh slot |
| BuildRegistry.Registry.FinishBuild | src/docker.rs:1085-1088 | the thread writes its own slot and nothing else |
| BuildRegistry.Registry.PollBuild | src/docker.rs:1092-1101 | the state of the slot registered under the key |
| BuildRegistry.Registry.ClearBuild | src/docker.rs:1104-1106 | only the key goes |
| BuildRegistry.Run | src/docker.rs:1079-1106 | the registry's state after every interleaving is the one the event history describes |
| BuildRegistry.PollReportsCurrentBuild | src/docker.rs:1092-1101 | a poll answers for the build launched by the first start since the last clear |
| BuildRegistry.OneBuildPerClear | src/docker.rs:1077-1089 | however often started, one build per effective clear plus the current one |
| BuildRegistry.StaleThreadIsInvisible | src/docker.rs:1085-1088 | a build that is not current finishes without changing the key's poll |
| BuildRegistry.LaterBuildIsNewer | src/docker.rs:1079-1106 | after a clear every later build of the key is a new one |
| StreamDemux.DemuxBatch | src/docker.rs:525-537 | each channel is the concatenation of its frames plus the arrived part of a last incomplete one |
| StreamDemux.ForwardOutput | src/api.rs:3997-4036 | for every cut into chunks the messages are those of the whole stream; on a terminal they concatenate to the body |
| StreamDemux.ExecCapture | src/docker.rs:516-537 | head stripped, dechunked if announced, demultiplexed |
| StreamDemux.IsChunkedIff | src/docker.rs:521 | a head counts as chunked if and only if the field name, colon and blank stand somewhere in it, each letter in either case |
| StreamDemux.UsualSpellingIsChunked | src/docker.rs:521 | so it does with Transfer-Encoding: chunked anywhere |
| StreamDemux.CapturesChunkedContent | src/docker.rs:519-524 | behind a chunked head and a complete message the chunks' data is demultiplexed, however it was cut |
| StreamDemux.FrameIs | src/docker.rs:527-535 | type 2 is channel 2, any other channel 1; the payload has the announced length |
| StreamDemux.BothWays | src/api.rs:3997-4036 | for every stream and cut, the two demultiplexers agree on every channel: without a head if and only if nothing is captured; behind an unchunked head if and only if the stream does not end inside a payload; behind a chunked one, if its bytes do not start with a whole frame, if and only if nothing is captured, and else if what they give as frames is the same |
| StreamDemux.CompleteStreamsAgree | src/docker.rs:525-537 | behind an unchunked head complete frames of any types make the two agree |
| StreamDemux.ChunkedStreamsAgreeIff | src/docker.rs:519-524 | for every chunked stream below 16 MiB whose size line has two characters or more and whose first frame is for stdout or stderr: interactive exec sends nothing, so the two agree if and only if nothing is captured |
| StreamDemux.EncodedIsOrdinary | src/docker.rs:519-524 | so starts every chunked stream whose first chunk has sixteen bytes or more and begins with such a frame |
| StreamDemux.ShortSizeLineDisagrees | src/docker.rs:519-524 | with a size line of one character, for every type and byte: the capture yields the byte, the interactive side nothing |
| StreamDemux.CompleteFramesLeaveNothing | src/docker.rs:525-537 | complete frames of any types leave nothing over |
| StreamDemux.ClientSeesMessages | src/api.rs:4021-4034 | the client decodes from the written bytes exactly one binary frame per message |
| StreamDemux.WrittenBytes | src/api.rs:3570-3575 | the bytes written are the channel byte and payload in a binary frame |
| WebSocket.HeaderRoundTrip | src/api.rs:3581-3595 | each of the three length forms reads back |
| WebSocket.FrameBytes | src/api.rs:3581-3595 | the bytes of a server's frame in the three length forms |
| WebSocket.MaskedBit | src/api.rs:3902-3906 | masking turns over exactly the bits set in the mask's byte for the position |
| WebSocket.CapIs | src/api.rs:3889-3891 | a length above 16 MiB is refused |
| WebSocket.ReadServerFrame | src/api.rs:3581-3595 | a server frame is read exactly when its payload is within the cap, consuming exactly itself |
| WebSocket.ReadClientFrame | src/api.rs:3871-3907 | a client frame under any mask likewise |
| WebSocket.Unmask | src/api.rs:3902-3906 | the in-place loop unmasks every byte |
| WebSocket.UnmaskMask | src/api.rs:3902-3906 | unmasking inverts masking |
| WebSocket.ReadConcatenation | src/api.rs:3871-3907 | any concatenation of frames reads back as the same opcodes and payloads |
| WebSocket.ReadCut | src/api.rs:3871-3907 | so it does for every cut of the bytes into pieces |
| WebSocket.PartialStream | src/api.rs:3871-3907 | what has arrived yields the first frames of the list, and the remainder with the rest yields the others |
| Chunked.DechunkBytes | src/docker.rs:548-562 | the byte decoder's loop computes its recursive form |
| Chunked.ParseChunked | src/docker.rs:82-110 | the text decoder's loop computes its recursive form, which panics on a slice inside a character |
| Chunked.DechunkInvertsEncoding | src/docker.rs:548-562 | the byte decoder returns the concatenated chunks of any complete message, CRLF in the data included |
| Chunked.TextInvertsEncodingIff | src/docker.rs:66-110 | decoded lossily and then by text, a complete message gives its content if and only if every chunk is valid UTF-8 by itself |
| Chunked.DecodersAgree | src/docker.rs:66-110 | so the two decoders agree on a complete message if and only if every chunk is |
| Chunked.SplitCharacterPanics | src/docker.rs:93-94 | a byte of a longer character alone in its chunk makes the text decoder panic, whatever comes before and after |
| Chunked.SizeLineIsWellFormed | src/docker.rs:553-554 | every data block has a size line that announces it |
| Chunked.HugeSizeIsNone | src/docker.rs:553-554 | a size of 2^64 or more is none |
| Chunked.HexLinesAreAscii | src/docker.rs:553-554 | only ASCII lines announce a size |
| Chunked.TruncatedBytes | src/docker.rs:548-562 | of every message and every cut: the byte decoder returns exactly the data that has arrived |
| Chunked.TruncatedText | src/docker.rs:66-110 | of every message of text and every cut: the text decoder panics exactly when a cut character's replacement reaches beyond its chunk, and else returns the whole characters that have arrived and the cut part of a size line, a CR cut from its LF, or a replacement |
| Chunked.TruncatedTextIsPrefixIff | src/docker.rs:66-110 | over text the result is a prefix of the content if and only if there is no panic and the leaked bytes are what the content goes on with |
| Chunked.TruncatedTextLeaks | src/docker.rs:88-107 | between any two chunks, both kinds of leak and when they break the prefix |
| Utf8Text.LossyIsText | src/docker.rs:66 | text, and only text, is its own lossy decoding; anything else grows or changes |
| Utf8Text.EncodedIsValid | src/docker.rs:66 | encoded code points are text |
| Utf8Text.ValidIsEncoded | src/docker.rs:66 | text is the encoding of some string of code points |
| Utf8Text.JunkIsMaximal | src/docker.rs:66 | what is replaced is as much as begins some character |
| Utf8Text.JunkBegins | src/docker.rs:66 | and more than one byte of it does begin one |
| Utf8Text.ReplacementIsFffd | src/docker.rs:66 | the replacement is U+FFFD |
| Strings.TrimIs | src/cluster_mesh.rs:204-205 | trimming takes away exactly the whitespace at both ends |
| Strings.WhitespaceIs | src/cluster_mesh.rs:204-205 | the characters of White_Space |
| Strings.DigitValueIs | src/docker.rs:90 | each digit's value, in either case |
| Strings.OnlyDigitsHaveValues | src/docker.rs:90 | nothing else has one |
| Strings.PlusSign | src/docker.rs:90 | one plus sign in front is allowed, no digits are no number |
| Utf8Text.LossySplits | src/docker.rs:66 | lossy decoding does not reach across an ASCII byte |
| Utf8Text.CutText | src/docker.rs:66 | text cut anywhere decodes to its whole characters, and one replacement if the cut is inside one |
| Ingress.PublishSnapshot | src/api.rs:2974-3010 | the nested loops publish every path entry that has a backend |
| Ingress.PickRoute | src/api.rs:3019-3021 | the pick matches and is a longest match; none means nothing matches |
| Ingress.FindBackend | src/api.rs:3241-3259 | the first longest path of the first admitting rule that has a match |
| Ingress.BestPath | src/api.rs:3245-3252 | a longest matching path of the rule, if any matches |
| Ingress.BestPathIsFirst | src/api.rs:3245-3252 | it is the first of the longest |
| Ingress.LiveFinds | src/api.rs:3241-3259 | the live lookup answers with the first longest path of the first admitting rule that has a match |
| Ingress.RoutesOrigin | src/api.rs:2974-3010 | a route is in the table if and only if some path entry with a backend is published as it |
| Ingress.TableYieldsLongest | src/api.rs:3015-3025 | the table yields a longest path among all matching entries with a backend |
| Ingress.TableAgreesWithLive | src/api.rs:3015-3025 | when one rule admits the host, its paths are distinct and each has a backend, table and live lookup choose the same entry |
| Ingress.TableAgreesIff | src/api.rs:3015-3025 | of every table and live lookup: the same path if and only if some admitted entry with a backend has the live path and none has a longer one |
| Ingress.OneRuleAgreesIff | src/api.rs:3015-3025 | with one admitting rule the table picks the last longest entry with a backend, the live lookup the first longest, and they lead to one route if and only if path and backends are the same |
| Ingress.TwoRulesMayDisagree | src/api.rs:3241-3259 | two rules on which they differ |
| Ingress.MissingBackendDisagrees | src/api.rs:3001-3003 | one rule whose longest path has no backend |
| Ingress.RepeatedPathDisagrees | src/api.rs:3019-3021 | one rule with a path listed twice |
| Ingress.TargetPortIsFirstMatch | src/api.rs:2906-2911 | the target port of the first service port with the rule's number, else that number |
| Ingress.BackendsAre | src/api.rs:2980-3001 | a route's backends are exactly the local pods on their real port and the census pods with the deployment's prefix through their mesh proxies |
| Ingress.RoutesUseTargetPorts | src/api.rs:2915-3001 | every backend of every published route dials or hands over the target port of the service's first port with the rule's number, or the rule's number if there is none or the service is unknown |
| Ingress.PrefixTakesPodsOf | src/api.rs:2993-2996 | that prefix takes exactly the pods of the deployment and of those whose name continues its name with a dash |
| Ingress.HostOfAddress | src/api.rs:2996 | the host is what stands before the last colon |
| Ingress.RequestsRotate | src/api.rs:3022-3024 | consecutive counter values reach each backend of a route once |
| ServiceLb.EligiblePodsAre | src/servicelb.rs:143-151 | exactly the running containers labelled for the deployment and not as sidecars, each once, in the order listed, by their first names without slashes in front |
| ServiceLb.PickBackend | src/servicelb.rs:141-169 | the first publishing pod in cyclic order; nothing exactly if none publishes; each pod inspected at most once |
| ServiceLb.AllPublishMeansFirst | src/servicelb.rs:102-112 | while all pods publish, the pod at the counter's index is chosen |
| ServiceLb.AcceptRound | src/servicelb.rs:102-112 | a round of consecutive connections reaches each pod exactly once while all publish |
| ServiceLb.ListingOrderIsIrrelevant | src/servicelb.rs:152 | the order in which Docker lists containers does not matter |
| RoundRobin.EachChosenOnce | src/servicelb.rs:158-159 | consecutive indices choose each item exactly once |
| Calendar.SuccessorDay | src/api.rs:87-99 | every day count gives a valid date and the next count the next day |
| Calendar.DaysToYmdWalksTheCalendar | src/api.rs:87-99 | the conversion is the Gregorian calendar walked from 1970-01-01 |
| Calendar.EveryDateIsReachedOnce | src/api.rs:87-99 | each valid date from 1970 on is the image of exactly one day count |
| Calendar.YearOfEraInverts | src/api.rs:91-93 | year and day of the 400-year era are recovered, leap centuries included |
| Base64.GroupRoundTrip | src/api.rs:3639-3648 | a group of one, two or three bytes comes back from its symbols |
| Base64.Alphabet | src/brain.rs:629-632 | the alphabet is A to Z, a to z, 0 to 9, + and / |
| Base64.SextetIs | src/brain.rs:649-657 | the decoder's table is the alphabet's inverse |
| Base64.KnownGroups | src/brain.rs:634-645 | groups of one, two and three known bytes with their padding |
| Base64.DecodeInvertsEncode | src/brain.rs:629-671 | decoding inverts encoding for every length |
| Base64.B64Bytes | src/api.rs:3636-3650 | the encoder loop, the same in both places, computes the encoding |
| Base64.DecodeLoop | src/brain.rs:658-671 | the decoder loop computes the decoding, invalid characters included |
| Base64.SendIdentity | src/brain.rs:629-675 | a token of floats is received float for float |
| PodToken.HexDecodeBytes | src/net_security.rs:251-258 | the pairwise loop computes the decoding, failing on the first bad pair |
| PodToken.HexRoundTrip | src/net_security.rs:198-200 | hexadecimal decodes back and holds no dot |
| PodToken.HexDigits | src/net_security.rs:198-200 | two lower-case digits for each byte, the higher first |
| PodToken.TokenLooks | src/net_security.rs:190-201 | the token's prefix, and colons between the payload's parts |
| PodToken.IssuedMustFit | src/net_security.rs:227 | a time of 2^64 or more does not parse |
| PodToken.ConstantTimeEqual | src/net_security.rs:243-248 | the accumulated difference is zero if and only if the byte strings are equal |
| PodToken.VerifyPodToken | src/net_security.rs:205-249 | accepts exactly the well-formed tokens signed for their claims |
| PodToken.MintedClaims | src/net_security.rs:181-202 | a minted token splits into four parts that decode to its claims |
| PodToken.MintAndVerify | src/net_security.rs:181-249 | a minted token verifies under its secret, and under another exactly if that signs alike |
| PodToken.SamePayloadIff | src/net_security.rs:190 | two payloads are the same if and only if the times are and the names joined by a colon are |
| PodToken.PayloadIsInjectiveIff | src/net_security.rs:190 | a payload stands for one set of claims only, if and only if neither name holds a colon |

## Left out

- StrategicMergeLaws.MergeIsIdempotent: the condition on base and patch is sufficient; when the second merge chooses another key the results can still coincide, which `IdempotentIff` decides on the first result.
- NeuralState.NeuralState.SearchMatrix: models the cached matrix, not the ranking, because the scores are f32 arithmetic.
- NeuralState.NeuralState.Set: for a new non-empty key takes a positive dimension, as the embedding takes a remainder by it; only a file can bring in dimension zero.
- LeaderLease.OneLeaderIffNoRace: a read of the lease file is one step, and a write of a few dozen bytes is whole, garbled over other text, or broken off with an error.
- StreamDemux.BothWays: behind a chunked head whose bytes happen to start with a whole frame (a size line of one character, or a first frame of type 0) the condition compares what the two readings yield, as the payload bytes are arbitrary.
- RaftStore.NeuroStore.ApplyToStateMachine: a poisoned world lock is not modelled.
- MeshRouting.PeerReads: UTF-8 is a parameter with the laws of `Lawful`; the lossy decoder itself is not modelled.
- MeshProxy.CrossNodeRequest: the response direction (`MeshStream.PumpReads`) is not part of it.
- MeshFirstRead.PlaintextFirstRead: UTF-8 is a parameter with the laws of `Utf8Laws`.
- MeshStream.ServePeer: failing writes towards the pod end the pump in the code and are not modelled.
- Chunked.DechunkInvertsEncoding: sizes near the address-space limit, where the byte decoder's end position overflows, and non-ASCII blanks in size lines are not modelled.
- StateFile.Load: the room reserved for as many entries as the file announces, before any is checked, is not modelled.
- PodToken.VerifyPodToken: tokens are ASCII; slicing inside a multi-byte character is not modelled.
- ServiceLb.PickBackend: the index is unbounded; overflow of a 64-bit index is not modelled.
- Ingress.RequestsRotate: the counter is unbounded; its wrap-around is not modelled.
- Snapshot building, the snapshot's bytes, votes and the Raft network: openraft owns them.
- The reconcile loop, `DesiredWorld::apply` and `delete_resource`: wide field updates driven by Docker; they are parameters here.
- AES-GCM, HMAC, SHA-1, SHA-256 and the float parts of `src/brain.rs`: library or floating-point code.
- The listener reconciliation of `src/servicelb.rs`, node names for logs, and the TTY stdin direction: they would only add easy members.
- Sockets, Docker's HTTP API, TLS, the command line and dashboards: input and output.
