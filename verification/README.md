# Verification of the MQTT client and of the frame pipeline

A Dafny model of the algorithms of the repository, with proofs of what they promise. Most of it is about the MQTT client
under `src/utils/mqtt`; the rest is about the statistics, the frame buffer and the image stretching of the pipeline.
`dafny verify dfyconfig.toml` checks everything.

## What is modelled

**The protocol.** `Sessions` has a function for each handler of `MQTTProtocolClient.c`; `Client` has the same handlers
as methods that change a client in place, each shown to do what its function says and, field by field, what it sends,
keeps and stores. `Delivery` joins two such clients, both publishing and both receiving, by two FIFO channels, and has
QoS 2. Every step is a free choice: to publish, to retry any message at any time, to hand on the next packet (and
whether the answer reaches its channel at all), to disconnect, which loses everything under way, or to create a client
again over its store. `Link` holds the inductive invariant of one direction, `LinkSteps` the reason why every step keeps
it. `LowQos` and `LowDelivery` are the same for QoS 0 and QoS 1, and `StaleIds` says when a QoS 1 message can be lost. A
history variable numbers the publications; no handler reads it. `Completion` says which messages can still be completed,
and `Crash` what a crash between two writes to the store does. `SendOrder` has the ids that such a run gives out, and
the order in which a restart restores them. A publish of the runs has a topic without NUL of at most 65535 bytes, and
fits in a packet (`Messages.Sendable`); for others the formats are lossy, as said below.

**The store.** It is a map from keys to records that every handler mirrors its session into (`Sessions.Mirrored`).
`Restore` reads it back in any order of its keys, with the sorted insertion and the rotation for message ids that
wrapped. `StoreBytes` has the keys as strings and the records as bytes. `Carried` shows that every packet and record of
every run fits in these formats and in those of `Codec`, and `ByteStore` that a restart from the bytes does what the
restart from records does.

**The red-black tree.** `Tree` is the class, with nodes that are changed in place through their pointers, field by
field. A ghost copy of the fields (`mem`) lets the other `Tree...` modules reason about maps of records: links in both
directions, ranges of keys, colours, black heights. `Heap` is the allocation tracker on top of it.

**Stream input and output.** `Codec` has headers, lengths, PUBLISH and acknowledgements, and what a byte stream parses
to; `WireFormat` has the bytes of all this as the standard writes them. `SocketBuffer` has the default queue, the queues
of the other sockets and the reading of one packet on top of an arbitrary `recv`; `Reassembly` says what is held of a
packet that has arrived in part. `SocketWrites` has gathered and continued writes on top of an arbitrary `writev`, and
`WriteTour` the order in which a pass gets to the sockets; `PacketSends` puts packets together for them and has the
end-to-end result.

**The rest.** `LinkedList` is the doubly linked list with its remembered search position. `QuickSelect`, `FrameStats`
and `DiffStats` are the selections, the percentiles and the stretching, measured against sorting (`OrderStatistics`).
`FrameRing` is the frame buffer with its two threads, mutex and condition variables. `Utf8` is the validator, measured
against the encoding of section 3 of RFC 3629.

## Where the code falls short

These are results of the proofs; the code is modelled as it is.

- A PUBREL is always sent without the DUP flag, also when it is sent again, and one without that flag is only logged if
  its id is unknown. So once a PUBCOMP is lost, its message is never completed: `Completion.LostPubcompSticks` is such a
  run, and `Completion.CompletableIffNotStuck` says exactly when a message in flight can still be completed. Nothing is
  ever delivered twice for it.
- A PUBACK is taken for the message in flight that has its id, and a PUBLISH that was sent again is acknowledged again.
  A QoS 1 message that gets an id of which such a packet is still under way can be dropped by its sender and never
  arrive: exactly then (`StaleIds.SafeIffClear`, `StaleIds.StaleLoses`). It cannot happen while no id is given out twice
  within one connection (`StaleIds.OncePerConnectionIsAtLeastOnce`).
- A client that handles a PUBREL puts the message on the stored queue and then removes its record. If it is gone between
  these writes, and with it the PUBCOMP, the restarted client has the message on the queue and still waits for the
  PUBREL: when that is sent again the message is delivered a second time, against section 4.3.3 of MQTT 3.1.1
  (`Crash.RetryDeliversAgain`; `Crash.FirstReleaseCanCrash` is a run that leads there). It is delivered twice exactly
  when it has left the inbound list again, and all other messages are delivered as they should
  (`Crash.TwiceIffReleasedAgain`). The two writes for a PUBCOMP do no such harm (`Crash.CompletionCrashIsHarmless`).
- Adding to the tree rebalances also when it only replaced what a node holds. Order and contents stay right, but the
  tree stays balanced exactly when the node is not a black one on the near side of a red parent with a black uncle
  (`Tree.Tree.Add`; `TreeAddLoop.SmallTreeIsTwisted` is such a tree).
- With 65534 ids in flight the search for a message id can fail although one id is free
  (`MessageIds.OneFreeIdMayBeMissed`), and with all 65535 in use and none given out before it would never end
  (`MessageIds.FullScanFromZeroNeverEnds`). These are facts about the function alone: the client allows 1 or 10 messages
  in flight (`MQTTClient.c:931`), and then every publish that has room gets an id (`Delivery.EveryPublishGetsId`).
- A topic of more than 65535 bytes is written with a length that has lost its high bits (`Codec.PublishRoundTrip`), and
  a packet of 2^28 bytes or more is sent but never read (`Codec.TooLongIsNoFrame`).
- A queued message whose topic contains a NUL loses what comes after it in the store (`StoreBytes.EntryRoundTrip`), and
  the buffer for the key of a queued message is too short from sequence number 1000000 on (`StoreBytes.KeysFit`).
- The order of the messages in flight, which section 4.6 of MQTT 3.1.1 asks for, survives a restart exactly when their
  ids run forward once round the cycle and no gap among them is larger than the one that closes it
  (`SessionProofs.RestartRestoresOrder`). It does not survive this: ids 1 and 2 are published, 1 is acknowledged, the
  client is created again and begins to count anew, publishes under id 1, and is created once more
  (`SendOrder.RestartsMayReorder`). Without a restart between, it does while fewer than 32768 ids have been given out
  since the oldest message in flight (`SendOrder.EveryRunKeepsOrder`).
- The UTF-8 validator compares no length with what is left of a string, and relies on the NUL after it
  (`Utf8.AcceptsUtf8`, `Utf8.CutCharacterIsAccepted`). Without a NUL it is wrong exactly when whole characters are
  followed by one that begins inside, ends outside, and is no longer than the whole string (`Utf8.AcceptsWithoutNul`).
- A pass over the pending writes goes on, after it removes a socket, from the remembered element of the list instead of
  the next one. Every socket that can take more gets its turn exactly when none of them lies between the first one
  removed and the remembered element, or the end if there is none (`WriteTour.AllGetTheirTurn`). With none remembered
  and two pending sockets of which the first completes, the second is passed over (`WriteTour.SecondIsPassedOver`).
- Closing a socket leaves its pending write in the list. The next connection with the same descriptor begins afresh
  exactly when there was none (`SocketWrites.SocketWriter.Close`). Otherwise its packets are accepted and go out from
  their first byte, but the first of them that is not taken whole goes on with the rest of the old packet
  (`SocketWrites.GoesOnWithOld`, `SocketWrites.OldPacketGoesOn`).
- `Socket_continueWrite` reports a socket error as if all had been written (`SocketWrites.SocketWriter.ContinueWrite`);
  nothing is claimed for that connection from then on, and for no other reason is a connection given up.

## Model

| member | source | states |
|---|---|---|
| `Delivery.EveryRunIsExactlyOnce` | src/utils/mqtt/MQTTProtocolClient.c:249-600 | Section 4.3.3 of MQTT 3.1.1, for every run of two clients from their start: every QoS 2 message that arrives was published with that topic and payload, both being what the formats can carry, none arrives twice, what the publisher no longer holds has arrived, and the application takes the arrivals once each in their order |
| `Delivery.RunKeepsInv` | src/utils/mqtt/MQTTProtocolClient.c:249-600 | The invariant that links both in-flight lists, both channels, the store and the logs is kept by every sequence of publishes of sendable messages, retries, deliveries, losses, disconnects and restarts |
| `Delivery.EveryRunIsMirrored` | src/utils/mqtt/MQTTPersistence.c:168-254 | In every run ids in flight are distinct and in 1..65535, the number of outbound messages keeps to the limit, and a restart from the store gives back both lists and the queue in whatever order the keys are listed |
| `Delivery.EveryPublishGetsId` | src/utils/mqtt/MQTTClient.c:1379-1412 | In every run with a limit below 65535, a publish that has room gets an id in 1..65535 that no message in flight has |
| `Delivery.RetryPassIsRun` | src/utils/mqtt/MQTTProtocolClient.c:542-600 | A whole pass of retries, cut short anywhere, is a run of single retries, so that what holds of runs holds after it |
| `Delivery.QuietActions` | src/utils/mqtt/MQTTClient.c:411-430 | The application takes the first message of the queue, which leaves the store, and an id given to a SUBSCRIBE changes nothing else; neither changes a channel |
| `LowDelivery.EveryRunIsAtMostOnce` | src/utils/mqtt/MQTTProtocolClient.c:249-268 | Section 4.3.1 of MQTT 3.1.1, for every run: what arrives with QoS 0 or 1 was published with this QoS, retain flag, topic and payload, and QoS 0 messages arrive at most once each and in the order in which they were published |
| `LowDelivery.EveryLosslessRunArrives` | src/utils/mqtt/MQTTProtocolClient.c:116-126 | In every run in which nothing is lost, each QoS 0 message that was published has arrived or is still under way |
| `LowDelivery.EveryFreshRunIsAtLeastOnce` | src/utils/mqtt/MQTTProtocolClient.c:249-336 | Section 4.3.2 of MQTT 3.1.1, for every run in which QoS 1 messages get ids of which nothing is under way: each QoS 1 message that its publisher no longer holds has arrived, with its retain flag, topic and payload |
| `StaleIds.SafeIffClear` | src/utils/mqtt/MQTTProtocolClient.c:305-336 | After any such run, a QoS 1 publish is safe if and only if no PUBLISH and no PUBACK of an earlier QoS 1 use of the next id is under way: only then does no continuation, whatever it loses, let its sender drop a message that has not arrived |
| `StaleIds.StaleLoses` | src/utils/mqtt/MQTTProtocolClient.c:318-331 | Otherwise, receiving alone leads to where the sender has dropped the new message and it has not arrived |
| `StaleIds.OncePerConnectionIsAtLeastOnce` | src/utils/mqtt/MQTTProtocolClient.c:67-87 | So in every run in which no QoS 1 message gets an id that its sender has used since the connection was made, every message that its publisher no longer holds has arrived |
| `LowDelivery.PublishIsSent` | src/utils/mqtt/MQTTProtocolClient.c:116-156 | A publish of any QoS that there is room and an id for puts exactly one PUBLISH behind what is under way, without the DUP flag, with the id given out or none for QoS 0, and a QoS 0 publish leaves the session as it was |
| `LowDelivery.PublishIsReceived` | src/utils/mqtt/MQTTProtocolClient.c:249-269 | A QoS 0 or QoS 1 PUBLISH that comes next is put last on the queue and in the store, once, with its own topic, payload, QoS, flags and id, under a sequence number above all others, and is acknowledged for QoS 1 only |
| `LowDelivery.PubackMeansArrival` | src/utils/mqtt/MQTTProtocolClient.c:263-269 | A PUBACK is sent only for a QoS 1 PUBLISH with that id, whose message arrives in the same step |
| `LowDelivery.PublishArrives` | src/utils/mqtt/MQTTProtocolClient.c:116-269 | With nothing else under way, a QoS 0 or QoS 1 message that is published, and received next, arrives exactly once, as it was published and without the DUP flag |
| `LowQos.PublishedKeeps1` | src/utils/mqtt/MQTTProtocolClient.c:137-155 | A new message under an id of which nothing is under way keeps the QoS 1 invariant |
| `LowQos.ArrivedKeeps1` | src/utils/mqtt/MQTTProtocolClient.c:263-269 | So does handing a message on before it is acknowledged |
| `LowQos.AnsweredKeeps1` | src/utils/mqtt/MQTTProtocolClient.c:305-336 | So does a PUBACK, which ends the exchange of a message that has arrived, and any other answer |
| `LowQos.SoundArrived` | src/utils/mqtt/MQTTProtocolClient.c:249-268 | A PUBLISH that is taken in order keeps the order of the QoS 0 messages |
| `Carried.EveryRunFits` | src/utils/mqtt/MQTTProtocolClient.c:249-600 | In every run each packet under way and each record of each store is one that the formats can carry, under the kind of key it belongs to |
| `Carried.PacketIsCarried` | src/utils/mqtt/MQTTPacket.c:88-129 | Such a packet, written as bytes, is shorter than 2^28 and is parsed to what it says |
| `Carried.PacketBytes` | src/utils/mqtt/MQTTPacket.c:502-520 | The bytes of each of the five packets, as sections 3.3 to 3.7 of MQTT 3.1.1 write them |
| `Carried.ReadBackTells` | src/utils/mqtt/MQTTPacket.c:456-479 | and what is parsed tells packets apart by all but the history variable |
| `Carried.ChannelIsCarried` | src/utils/mqtt/MQTTPacket.c:88-129 | Whatever has arrived of the bytes of a channel, cut anywhere, is parsed to the first of its packets, and all of it to all of them |
| `ByteStore.PutMirrors` | src/utils/mqtt/MQTTPersistence.c:328-374 | Writing the bytes of a record under its key string keeps a byte store the mirror of the store of records |
| `ByteStore.RemoveMirrors` | src/utils/mqtt/MQTTPersistence.c:385-412 | So does removing the key string |
| `ByteStore.QueueRecordBytes` | src/utils/mqtt/MQTTPersistence.c:470-518 | Where the payload, QoS, flags, id and topic of a queued message are in the bytes of its record |
| `ByteStore.NamesMatch` | src/utils/mqtt/MQTTPersistence.c:168-254 | The loop over the key strings and bytes leaves the lists and the store that the loop over keys and records leaves |
| `ByteStore.QueueMatches` | src/utils/mqtt/MQTTPersistence.c:585-626 | and the same queue, with the sequence numbers read from the key strings |
| `ByteStore.EveryStoreHasBytes` | src/utils/mqtt/MQTTPersistence.c:470-563 | In every run there is a byte store that mirrors the store of a client |
| `ByteStore.EveryRunRestoresFromBytes` | src/utils/mqtt/MQTTClient.c:296-302 | In every run, creating a client again from any such bytes gives what the restart of the protocol model gives: both lists in the same order, the queue, and an unchanged store |
| `SendOrder.NextIsFree` | src/utils/mqtt/MQTTProtocolClient.c:67-87 | While fewer than 65534 ids have been given out since the oldest message in flight, the id given out is the one after the last |
| `SendOrder.FewKeepOrder` | src/utils/mqtt/MQTTPersistence.c:417-454 | Fewer than 32768 since the oldest message give ids that meet the condition of the rotation |
| `SendOrder.EveryRunKeepsOrder` | src/utils/mqtt/MQTTPersistence.c:417-454 | Section 4.6 of MQTT 3.1.1 over runs: without a restart since nothing was in flight, and while fewer than 32768 ids have been given out since the oldest message in flight, a restart gives the messages back in the order they were sent |
| `SendOrder.RestartsMayReorder` | src/utils/mqtt/MQTTPersistence.c:417-454 | A run of six actions with a restart, for any topic and payload, after which the next restart exchanges the two messages in flight |
| `LinkSteps.Published` | src/utils/mqtt/MQTTProtocolClient.c:137-155 | A new message under a free id keeps the exchange invariant although PUBRELs of an earlier use of the id may still be under way |
| `LinkSteps.RetriedPublish` | src/utils/mqtt/MQTTProtocolClient.c:557-581 | A PUBLISH sent again while PUBREC is awaited keeps the invariant, whether or not it gets onto the channel |
| `LinkSteps.RetriedRelease` | src/utils/mqtt/MQTTProtocolClient.c:582-594 | A PUBREL sent again while PUBCOMP is awaited keeps the invariant |
| `LinkSteps.Acknowledged` | src/utils/mqtt/MQTTProtocolClient.c:305-336 | A PUBACK ends a QoS 1 exchange without touching the QoS 2 ones that share the ids |
| `LinkSteps.Released` | src/utils/mqtt/MQTTProtocolClient.c:344-384 | Answering PUBREC with PUBREL is safe: the peer holds the message, or it has been delivered |
| `LinkSteps.Completed` | src/utils/mqtt/MQTTProtocolClient.c:451-491 | Dropping a message on PUBCOMP is safe: it has arrived, and no packet of its exchange is left that could deliver it again |
| `LinkSteps.Stored` | src/utils/mqtt/MQTTProtocolClient.c:270-293 | Storing an incoming QoS 2 message, again or for the first time, keeps the invariant |
| `LinkSteps.Delivered` | src/utils/mqtt/MQTTProtocolClient.c:411-439 | A PUBREL for a stored message delivers what was published, for the first time |
| `Link.Dropped` | src/utils/mqtt/MQTTClient.c:655-676 | Losing any number of packets on their way, both ways, keeps the invariant |
| `Completion.CompletableIffNotStuck` | src/utils/mqtt/MQTTProtocolClient.c:392-443 | After any run, a message in flight, of QoS 1 or 2, can be completed by some continuation unless it waits for PUBCOMP while its peer does not know the id and no PUBCOMP is under way; and then by none |
| `Completion.StuckForEver` | src/utils/mqtt/MQTTProtocolClient.c:403-410 | Otherwise no run whatever completes it |
| `Completion.LostPubcompSticks` | src/utils/mqtt/MQTTProtocolClient.c:582-594 | Four steps of which the last loses a PUBCOMP lead there, for any topic and payload |
| `Completion.LostPubcompNeverCompletes` | src/utils/mqtt/MQTTProtocolClient.c:403-410 | After these steps the sender holds the message in every continuation |
| `Completion.CompletesFromPublish` | src/utils/mqtt/MQTTProtocolClient.c:542-600 | Reconnecting, sending the PUBLISH again and answering it ends a QoS 1 exchange, and brings one of QoS 2 to where it can be completed |
| `Crash.TwiceIffReleasedAgain` | src/utils/mqtt/MQTTProtocolClient.c:431-433 | After any run, a crash between the two writes of a PUBREL and any run from then on: nothing is lost, what arrives was published, no other message arrives twice, and this one does exactly when it is not stored any more |
| `Crash.RetryDeliversAgain` | src/utils/mqtt/MQTTProtocolClient.c:431-433 | One retry of the sender after the crash delivers the message a second time |
| `Crash.FirstReleaseCanCrash` | src/utils/mqtt/MQTTProtocolClient.c:411-439 | Three actions lead to a PUBREL at which this can happen, for any topic and payload |
| `Crash.CompletionCrashIsHarmless` | src/utils/mqtt/MQTTPersistence.c:385-412 | A restart from between the two removals of a PUBCOMP is a restart from after them: the orphaned PUBREL is dropped |
| `Completion.CompletesByReceiving` | src/utils/mqtt/MQTTProtocolClient.c:451-491 | A PUBCOMP anywhere in the channel completes the exchange once it is reached, whatever comes before it |
| `Completion.CompletesByRetry` | src/utils/mqtt/MQTTProtocolClient.c:542-600 | While the peer knows the id, reconnecting and retrying completes the exchange |
| `SessionProofs.StartPublishKeepsValid` | src/utils/mqtt/MQTTClient.c:1379-1412 | Publishing when there is room keeps ids distinct, the limit, and the store a mirror |
| `SessionProofs.HandleKeepsValid` | src/utils/mqtt/MQTTClient.c:1536-1554 | So does every packet that can come in |
| `SessionProofs.RetryKeepsValid` | src/utils/mqtt/MQTTProtocolClient.c:553-594 | So does every retry |
| `SessionProofs.RetryPassKeepsValid` | src/utils/mqtt/MQTTProtocolClient.c:542-600 | So does a pass of retries that is cut short anywhere |
| `SessionProofs.RetryPassSends` | src/utils/mqtt/MQTTProtocolClient.c:557-594 | A pass sends exactly one packet, in the order of the list, for each message it gets to that is due: PUBREL for one that waits for PUBCOMP, and for the others a PUBLISH with the DUP flag and the QoS, retain flag, id, topic and payload of the message; and each is what the store then holds |
| `SessionProofs.DeliverKeepsValid` | src/utils/mqtt/MQTTClient.c:411-430 | So does handing a message to the application |
| `SessionProofs.TakeIdKeepsValid` | src/utils/mqtt/MQTTClient.c:1211-1215 | So does an id given to a SUBSCRIBE or UNSUBSCRIBE |
| `SessionProofs.TakenIdIsUsedUp` | src/utils/mqtt/MQTTClient.c:1211-1215 | It gets the next free id, which is not the last one given out, and is remembered as the last one |
| `SessionProofs.RestartKeepsValid` | src/utils/mqtt/MQTTClient.c:296-302 | So does creating the client again over its store |
| `SessionProofs.RestartRestoresLists` | src/utils/mqtt/MQTTPersistence.c:168-254 | Restoring gives back the messages of both lists with their states, from any order of the keys, and leaves the store alone |
| `SessionProofs.RestartRestoresQueue` | src/utils/mqtt/MQTTPersistence.c:585-626 | Restoring gives back the message queue in its order, and the largest sequence number |
| `SessionProofs.RestartRestoresOrder` | src/utils/mqtt/MQTTPersistence.c:417-454 | Section 4.6 of MQTT 3.1.1 across a restart: the outbound list comes back in send order if and only if its ids ran forward once round the cycle with no gap above the closing one |
| `Restore.SendOrderRestored` | src/utils/mqtt/MQTTPersistence.c:417-454 | The same for any sorted list of the messages: rotation gives the send order back if and only if that condition holds |
| `Restore.HalfCycleKeepsOrder` | src/utils/mqtt/MQTTPersistence.c:417-454 | Ids that run forward from the first and cover less than half of the cycle 1..65535, wrapped or not, meet the condition |
| `Restore.WrapPointSpec` | src/utils/mqtt/MQTTPersistence.c:430-441 | The running maximum of the loop is the first largest gap, if larger than the closing one, and nothing else is |
| `Restore.RestoresOutbound` | src/utils/mqtt/MQTTPersistence.c:203-221 | The loop over the keys leaves exactly the outbound messages the `s-` and `sc-` records stand for, in increasing order of ids |
| `Restore.RestoresInbound` | src/utils/mqtt/MQTTPersistence.c:191-202 | and exactly the inbound messages of the `r-` records |
| `Restore.RestoresQueue` | src/utils/mqtt/MQTTPersistence.c:585-626 | and the queue exactly the `q-` records in increasing order of sequence numbers |
| `SortedInsert.InsertKeepsOrder` | src/utils/mqtt/MQTTPersistence.c:298-312 | Insertion before the first larger element keeps a list strictly increasing |
| `SortedInsert.IncreasingIsUnique` | src/utils/mqtt/MQTTPersistence.c:298-312 | A strictly increasing list is determined by its elements, so the order of the keys cannot matter |
| `MessageIds.AssignedIdIsFree` | src/utils/mqtt/MQTTProtocolClient.c:67-87 | The scan gives out a free id in 1..65535 other than the last one, or gives up exactly when all others are in use |
| `MessageIds.AssignedIdIsNext` | src/utils/mqtt/MQTTProtocolClient.c:67-87 | Going forward and round from the last id given out, every id before the one found is in use |
| `MessageIds.FewInFlightSucceeds` | src/utils/mqtt/MQTTProtocolClient.c:67-87 | With fewer than 65534 messages in flight it succeeds |
| `MessageIds.OneFreeIdMayBeMissed` | src/utils/mqtt/MQTTProtocolClient.c:75-82 | With 65534 it can fail while the last id given out is free |
| `MessageIds.FullScanFromZeroNeverEnds` | src/utils/mqtt/MQTTProtocolClient.c:75-82 | With every id in use, a scan from the initial value meets neither a free id nor its start |
| `Client.FindMessage` | src/utils/mqtt/MQTTProtocolClient.c:55-59 | The search by message id finds the first message with it |
| `Client.ScanForId` | src/utils/mqtt/MQTTProtocolClient.c:67-87 | The loop terminates and finds what the scan is specified to find |
| `Client.FindWrap` | src/utils/mqtt/MQTTPersistence.c:427-441 | The loop over the gaps finds the wrap point: the first largest gap of the ids if it is larger than the one that closes the cycle |
| `Client.Client.AssignMsgId` | src/utils/mqtt/MQTTProtocolClient.c:67-87 | The next free id in 1..65535 is given out and remembered; there is none exactly when all others than the last one are in use, and then nothing changes |
| `Client.Client.Publish` | src/utils/mqtt/MQTTClient.c:1379-1412 | QoS 0 sends exactly one PUBLISH, without DUP and id, and changes nothing. QoS 1 and 2 take the next free id, put the message last in the list, waiting for PUBREC with QoS 2, send one PUBLISH without DUP and store it; if there is no id nothing happens. The client stays valid |
| `Client.Client.Retries` | src/utils/mqtt/MQTTProtocolClient.c:542-600 | One packet for each message the loop gets to that is due, PUBREL for one that waits for PUBCOMP and otherwise a PUBLISH with DUP and the fields of the message, each stored; the lists are left alone and the client stays valid |
| `Client.Client.ProcessPublication` | src/utils/mqtt/MQTTClient.c:699-740 | The message goes to the end of the queue and to the store with all its fields, under the next sequence number, never as a duplicate if it has QoS 2 |
| `Client.Client.HandlePublishes` | src/utils/mqtt/MQTTProtocolClient.c:249-297 | QoS 0 and 1: one entry with the fields of the packet last in the queue and in the store, under a sequence number above all others. QoS 2: the message stored in the list, replacing one with its id. Answers: none, PUBACK, PUBREC, with the id. The client stays valid |
| `Client.Client.HandlePubacks` | src/utils/mqtt/MQTTProtocolClient.c:305-336 | The message with the id leaves list and store if it has QoS 1; otherwise nothing changes. The client stays valid |
| `Client.Client.HandlePubrecs` | src/utils/mqtt/MQTTProtocolClient.c:344-384 | The message with the id waits for PUBCOMP from then on, and PUBREL is stored and sent, if it has QoS 2 and waits for PUBREC; otherwise nothing happens. The client stays valid |
| `Client.Client.HandlePubrels` | src/utils/mqtt/MQTTProtocolClient.c:392-443 | A stored message goes last to the queue, leaves list and store, and PUBCOMP is sent. For an unknown id PUBCOMP is sent exactly if the DUP flag is set, and nothing changes. The client stays valid |
| `Client.Client.HandlePubcomps` | src/utils/mqtt/MQTTProtocolClient.c:451-491 | The message with the id and both its records go if it has QoS 2 and waits for PUBCOMP; otherwise nothing changes. The client stays valid |
| `Client.Client.DeliverMessage` | src/utils/mqtt/MQTTClient.c:411-430 | The oldest queued message goes to the application and out of queue and store, which stays a mirror |
| `Client.Client.InsertOutbound` | src/utils/mqtt/MQTTPersistence.c:298-312 | The loop inserts before the first message with a larger id |
| `Client.Client.WrapMessageIds` | src/utils/mqtt/MQTTPersistence.c:417-454 | The list is rotated to the wrap point |
| `Client.Client.RestoreFromKeys` | src/utils/mqtt/MQTTPersistence.c:168-254 | The loop over the keys restores the lists as specified and removes orphaned PUBRELs |
| `Client.Client.InsertQueued` | src/utils/mqtt/MQTTPersistence.c:565-578 | The loop inserts before the first entry with a larger sequence number |
| `Client.Client.RestoreMessageQueue` | src/utils/mqtt/MQTTPersistence.c:585-626 | The loop restores the queue as specified, and the sequence number is the largest in it |
| `Client.Client.Reopen` | src/utils/mqtt/MQTTClient.c:296-302 | Creating a valid client again over its store is the restart of the protocol model, and gives back the messages of both lists, the queue in its order, its largest sequence number, and an unchanged store |
| `StoreBytes.KeysAreRecognised` | src/utils/mqtt/MQTTPersistence.c:182-222 | The tests made on key strings tell every key for what it is, although they look for a prefix anywhere in the key |
| `StoreBytes.KeyString` | src/utils/mqtt/MQTTPersistence.c:355-363 | The keys are `s-`, `sc-`, `r-` and `q-` with the number in decimal |
| `StoreBytes.KeysDiffer` | src/utils/mqtt/MQTTPersistence.c:328-374 | Different keys have different strings |
| `StoreBytes.SeqnoOfKey` | src/utils/mqtt/MQTTPersistence.c:609 | The sequence number is read back from the key |
| `StoreBytes.KeysFit` | src/utils/mqtt/MQTTPersistence.c:470-518 | The key buffers are long enough for all ids, and for sequence numbers exactly up to 999999 |
| `StoreBytes.PacketRecordRoundTrip` | src/utils/mqtt/MQTTPersistence.c:261-290 | A stored packet is restored to what it says |
| `StoreBytes.PublishRecordRoundTrip` | src/utils/mqtt/MQTTPersistence.c:261-290 | A stored PUBLISH comes back as it was exactly when its topic has at most 65535 bytes |
| `StoreBytes.PubrelRecordRoundTrip` | src/utils/mqtt/MQTTPersistence.c:261-290 | A stored PUBREL always does |
| `StoreBytes.IntBytes` | src/utils/mqtt/MQTTPersistence.c:483-505 | An int is stored in four bytes, the lowest one first, a negative one as its complement |
| `StoreBytes.EntryLayout` | src/utils/mqtt/MQTTPersistence.c:483-505 | The place of each field in the record of a queue entry |
| `StoreBytes.EntryRoundTrip` | src/utils/mqtt/MQTTPersistence.c:470-563 | A queue entry comes back up to the first NUL of its topic, so as it was exactly when there is none |
| `Tree.Tree.Rotate` | src/utils/mqtt/Tree.c:120-136 | The pointer updates turn two nodes and keep a well-linked search tree, in both directions and at the root |
| `TreeRotation.RotationKeepsLinks` | src/utils/mqtt/Tree.c:120-136 | Parent and child links stay consistent |
| `TreeRotation.RotationKeepsOrder` | src/utils/mqtt/Tree.c:120-136 | The keys stay in order |
| `TreeRotation.RotationKeepsContents` | src/utils/mqtt/Tree.c:120-136 | No node is lost, and none changes content, size or colour |
| `TreeInsert.RecolourStep` | src/utils/mqtt/Tree.c:142-148 | With a red uncle, recolouring moves the only possible red-red edge two levels up |
| `TreeInsert.StraightenStep` | src/utils/mqtt/Tree.c:151-155 | A node on the near side is turned to the far side, with the invariant kept |
| `TreeInsert.TurnStep` | src/utils/mqtt/Tree.c:156-158 | The last turn leaves a red-black tree |
| `TreeInsert.AddEnds` | src/utils/mqtt/Tree.c:162-172 | When the loop ends, blackening the root leaves a red-black tree |
| `Tree.Tree.BAASub` | src/utils/mqtt/Tree.c:138-160 | One call does one of these three, as the colours demand |
| `Tree.Tree.BalanceAfterAdd` | src/utils/mqtt/Tree.c:162-172 | The loop terminates, keeps the search tree, and restores a red-black tree unless its first turn is twisted |
| `Tree.Tree.Add` | src/utils/mqtt/Tree.c:180-237 | Exactly the one key is added or replaced, the old content is returned, count and size stay right; a red-black tree stays one for every new key, and for a replaced one if and only if its node is not twisted |
| `TreeAddLoop.TwistedBreaks` | src/utils/mqtt/Tree.c:202-235 | A twisted turn leaves a node with unequal black depths |
| `TreeAddLoop.BalancedIffNotLopsided` | src/utils/mqtt/Tree.c:202-235 | Unequal black depths are exactly the absence of black heights |
| `TreeAddLoop.SmallTreeIsTwisted` | src/utils/mqtt/Tree.c:202-235 | There is a red-black tree of five nodes in which replacing a key is twisted |
| `TreeSplice.AttachStep` | src/utils/mqtt/Tree.c:203-224 | A new red leaf in its place keeps everything but perhaps one red-red edge |
| `Tree.Tree.FindPlace` | src/utils/mqtt/Tree.c:186-200 | The search finds the node with the key, or the free place where it belongs |
| `Tree.Tree.Find` | src/utils/mqtt/Tree.c:250-264 | Finding agrees with looking up the key in the map of contents |
| `Tree.Tree.Minimum` | src/utils/mqtt/Tree.c:281-287 | The node with the least key below |
| `Tree.Tree.Successor` | src/utils/mqtt/Tree.c:289-304 | The node with the next larger key of the whole tree, or null exactly after the last |
| `Tree.Tree.NextElement` | src/utils/mqtt/Tree.c:306-313 | From null, the least element; from an element, the next |
| `Tree.Tree.Scan` | src/utils/mqtt/Heap.c:325-339 | Going from element to element visits each one once, in increasing order of keys |
| `TreeDelete.RedSiblingStep` | src/utils/mqtt/Tree.c:324-330 | A red sibling is turned up, and the place that lacks a black node gets a black sibling |
| `TreeDelete.BlackNephewsStep` | src/utils/mqtt/Tree.c:333-337 | With two black nephews, the lack moves to the parent |
| `TreeDelete.NearNephewStep` | src/utils/mqtt/Tree.c:340-346 | A red near nephew becomes a red far one |
| `TreeDelete.FarNephewStep` | src/utils/mqtt/Tree.c:347-350 | With a red far nephew one turn makes up for the lack |
| `TreeDelete.RemoveEnds` | src/utils/mqtt/Tree.c:356-367 | Blackening a red node or the root where the loop ends leaves a red-black tree |
| `Tree.Tree.BARSub` | src/utils/mqtt/Tree.c:320-354 | One call does these in the right cases, also for a node that only stands in for a removed leaf, and comes nearer to the root |
| `Tree.Tree.BalanceAfterRemove` | src/utils/mqtt/Tree.c:356-367 | The loop terminates and makes up for a removed black node |
| `TreeSplice.SpliceLinks` | src/utils/mqtt/Tree.c:385-397 | Putting the only child in the place of a node keeps links consistent |
| `TreeSplice.SpliceEntries` | src/utils/mqtt/Tree.c:385-397 | and removes exactly its element |
| `TreeSplice.UnlinkedEntries` | src/utils/mqtt/Tree.c:381-403 | Moving the next element up into a node with two children removes exactly the element of that node |
| `TreeSplice.RedNodeGoes` | src/utils/mqtt/Tree.c:381-405 | Without a red node the tree is still red-black |
| `TreeSplice.BlackNodeGoes` | src/utils/mqtt/Tree.c:405-420 | Without a black one, exactly the place it left lacks one black node |
| `Tree.Tree.RemoveNode` | src/utils/mqtt/Tree.c:374-433 | Removing any node, with any number of children, removes exactly its element, returns it, keeps count and size right, and keeps a red-black tree red-black |
| `Tree.Tree.RemoveKey` | src/utils/mqtt/Tree.c:461-477 | The same by key, and nothing happens for a key that is not there |
| `Tree.Tree.CountsNodes` | src/utils/mqtt/Tree.c:228-232 | The count is the number of nodes |
| `TreeOrder.LogarithmicHeight` | src/utils/mqtt/Tree.c:89-118 | A red-black tree of n nodes has at most 2 log2(n+1) levels |
| `Tree.Tree.HeightIsLogarithmic` | src/utils/mqtt/Tree.c:89-118 | The same in terms of the count the tree keeps |
| `Heap.RoundupIsLeast` | src/utils/mqtt/Heap.c:78-85 | The rounded size is the least multiple of 16 at or above the request exactly for sizes that are not negative or are multiples |
| `Heap.RunsAccount` | src/utils/mqtt/Heap.c:136-303 | In every run the current size is the sum of the rounded sizes of the live blocks, and the maximum the largest value it has had |
| `Heap.StepAccounts` | src/utils/mqtt/Heap.c:136-303 | Every allocation, release and reallocation keeps these accounts |
| `Heap.Heap.Malloc` | src/utils/mqtt/Heap.c:136-177 | The block is recorded under its address with its rounded size, the current size grows by that, the maximum follows, and the caller gets the address 4 above, in a tree that stays red-black |
| `Heap.Heap.Unlink` | src/utils/mqtt/Heap.c:201-222 | Exactly the block that the pointer belongs to is taken out, and its size from the current size; an unknown pointer changes nothing |
| `Heap.Heap.Realloc` | src/utils/mqtt/Heap.c:265-303 | The block moves to its new address and rounded size, and both sizes follow; an unknown pointer changes nothing |
| `Codec.HeaderRoundTrip` | src/utils/mqtt/MQTTPacket.h:61-81 | The bit fields of a header byte are read back |
| `Codec.Encode` | src/utils/mqtt/MQTTPacket.c:250-266 | The loop writes the base-128 digits of the remaining length |
| `Codec.StartRoundTrip` | src/utils/mqtt/MQTTPacket.c:250-304 | Section 2.2.3 of MQTT 3.1.1: a length is read back exactly when it is below 2^28 |
| `Codec.ParseGoesOn` | src/utils/mqtt/MQTTPacket.c:88-129 | A stream may be parsed as it arrives: cutting it anywhere changes nothing |
| `Codec.RawIsFrame` | src/utils/mqtt/MQTTPacket.c:88-129 | A written packet is found again, and nothing after it is taken |
| `Codec.TooLongIsNoFrame` | src/utils/mqtt/MQTTPacket.c:274-304 | A packet of 2^28 bytes or more is never read |
| `Codec.StreamRoundTrip` | src/utils/mqtt/MQTTPacket.c:88-129 | A stream of written packets parses to these packets |
| `Codec.PrefixOfStream` | src/utils/mqtt/MQTTPacket.c:88-129 | What has arrived of it parses to the first of them |
| `Codec.PublishRoundTrip` | src/utils/mqtt/MQTTPacket.c:456-479 | Section 3.3 of MQTT 3.1.1: topic, QoS, retain, id and payload are read back exactly when the topic has at most 65535 bytes |
| `Codec.AckRoundTrip` | src/utils/mqtt/MQTTPacket.c:502-520 | The four acknowledgements are read back exactly for ids up to 65535 |
| `WireFormat.LengthBytes` | src/utils/mqtt/MQTTPacket.c:250-266 | Section 2.2.3 of MQTT 3.1.1: the bytes of a remaining length below 2^28, one to four of them |
| `WireFormat.LengthIsRead` | src/utils/mqtt/MQTTPacket.c:274-304 | Up to four bytes are read as the length they stand for, also when they are more than it needs, and four that all go on are bad |
| `WireFormat.AckBytes` | src/utils/mqtt/MQTTPacket.c:502-520 | Sections 3.4 to 3.7: an acknowledgement is 0x40, 0x50, 0x62 or 0x70, with 8 more for DUP, the length 2, and the id with its high byte first |
| `WireFormat.PublishBytes` | src/utils/mqtt/MQTTPacket.c:637-672 | Section 3.3: the first byte is 0x30, with 8 more for DUP, twice the QoS, and 1 for RETAIN; after the remaining length come the topic behind its length, the id from QoS 1 on, and the payload |
| `WireFormat.BytesSay` | src/utils/mqtt/MQTTPacket.c:64-80 | What each packet says by its first byte and data, for all types: where topic, id and payload are taken from, what is malformed, what is read beyond the end, and which types are not handled |
| `WireFormat.AckIsRead` | src/utils/mqtt/MQTTPacket.c:615-625 | The bytes of an acknowledgement at the head of a stream are its first packet and are read as that acknowledgement |
| `WireFormat.PublishIsRead` | src/utils/mqtt/MQTTPacket.c:456-479 | So are those of a PUBLISH, with all its fields |
| `Reassembly.HoldMore` | src/utils/mqtt/SocketBuffer.c:210-226 | Bytes that do not complete a packet are held, and none is lost |
| `Reassembly.HoldAll` | src/utils/mqtt/SocketBuffer.c:233-246 | Bytes that complete it give the next packet of the stream |
| `Reassembly.HeaderEnds` | src/utils/mqtt/MQTTPacket.c:274-304 | Decoding byte by byte finds the length that the stream as a whole has |
| `Reassembly.HeaderGoesOn` | src/utils/mqtt/MQTTPacket.c:274-304 | and finds it bad after exactly four continued bytes |
| `SocketBuffer.SocketBuffer.GetQueuedChar` | src/utils/mqtt/SocketBuffer.c:178-203 | The next held byte of the header of this socket is replayed |
| `SocketBuffer.SocketBuffer.QueueChar` | src/utils/mqtt/SocketBuffer.c:253-283 | A byte is held for this socket, and the bytes of the default queue of another one are kept for that one |
| `SocketBuffer.SocketBuffer.GetQueuedData` | src/utils/mqtt/SocketBuffer.c:139-170 | There is room for all the data, and what is held of it is kept |
| `SocketBuffer.SocketBuffer.Interrupted` | src/utils/mqtt/SocketBuffer.c:210-226 | What has come of a packet is held, to be replayed from its start |
| `SocketBuffer.SocketBuffer.Complete` | src/utils/mqtt/SocketBuffer.c:233-246 | Nothing is held for the socket any more, and nothing of another one is touched |
| `SocketBuffer.SocketBuffer.Cleanup` | src/utils/mqtt/SocketBuffer.c:119-130 | The same for a socket that is closed |
| `SocketBuffer.SocketBuffer.Getch` | src/utils/mqtt/Socket.c:285-312 | The next byte of the header, held or new; would-block, end and failure lose nothing |
| `SocketBuffer.SocketBuffer.Getdata` | src/utils/mqtt/Socket.c:322-363 | All the data, or what has come of it is held |
| `SocketBuffer.SocketBuffer.Decode` | src/utils/mqtt/MQTTPacket.c:274-304 | The loop decodes the length of the header of this socket, across interruptions |
| `SocketBuffer.SocketBuffer.ReadBytes` | src/utils/mqtt/MQTTPacket.c:88-129 | The bytes handed on or held are those held before and those received, in order |
| `SocketBuffer.SocketBuffer.ReadPacket` | src/utils/mqtt/MQTTPacket.c:88-129 | However `recv` cuts the streams and in whatever order sockets are read: the packets handed on for each socket are the parse of all that was received for it; only `recv` calls for this socket are made, and an error is a connection that one of them found lost or a bad length, an interruption one that gave less than was asked for |
| `SocketBuffer.SocketBuffer.Close` | src/utils/mqtt/Socket.c:529-558 | On the side of the reader, closing one connection begins a new stream for its socket and leaves the others alone |
| `SocketWrites.SocketWriter.PutDatas` | src/utils/mqtt/Socket.c:424-474 | A packet is refused while a write of its socket is pending, and otherwise offered whole, once; what the socket does not take is remembered in full, for this socket only |
| `SocketWrites.SocketWriter.Remaining` | src/utils/mqtt/Socket.c:706-723 | The loop offers the buffers from the first unsent byte on |
| `SocketWrites.OfferIsUnsent` | src/utils/mqtt/Socket.c:706-723 | These are the next bytes of the packet, and at least one |
| `SocketWrites.OfferReaches` | src/utils/mqtt/Socket.c:706-723 | All that is unsent is offered if it begins with a whole buffer, and otherwise the rest of the buffer it begins in |
| `SocketWrites.SocketWriter.ContinueWrite` | src/utils/mqtt/Socket.c:686-745 | The socket is offered the next bytes and gets exactly those it takes; the write counts as done when all are written, and also after an error |
| `SocketWrites.Continued` | src/utils/mqtt/Socket.c:686-745 | After a continuation each stream and what is unsent of it are still its packets |
| `SocketWrites.SocketWriter.ContinueAt` | src/utils/mqtt/Socket.c:762-778 | One turn: the socket is offered its next bytes and gets those it takes; it is removed exactly when its write is complete or the socket reported an error, its connection is given up exactly in the second case, and the loop goes on from the remembered element, or ends if there is none |
| `SocketWrites.SocketWriter.ContinueWrites` | src/utils/mqtt/Socket.c:752-781 | The results of the turns determine everything: which sockets get one and in which order, what is left of the list and its remembered element, that each turn offers the first bytes its socket has not taken, that each stream grows by exactly what is taken, and which connections are given up, namely those of a turn that reported an error |
| `WriteTour.IsVisited` | src/utils/mqtt/Socket.c:752-781 | In a tour a socket that can take more gets its turn unless it lies between the first one removed and the remembered element |
| `WriteTour.AllGetTheirTurn` | src/utils/mqtt/Socket.c:752-781 | All of them do if and only if none lies there |
| `WriteTour.SecondIsPassedOver` | src/utils/mqtt/Socket.c:752-781 | Of two pending sockets and no remembered element, the second gets no turn when the first completes |
| `SocketWrites.SocketWriter.Close` | src/utils/mqtt/Socket.c:529-558 | Closing takes the socket from the list of pending ones but keeps its pending write; the next connection begins afresh exactly when the list has no write of the socket, and the other connections are not touched |
| `SocketWrites.GoesOnWithOld` | src/utils/mqtt/SocketBuffer.c:336-340 | Otherwise a packet of the next connection is offered whole, and when it is taken in part the continuation offers the rest of the old one |
| `SocketWrites.OldPacketGoesOn` | src/utils/mqtt/Socket.c:529-558 | A packet sent in part, a close, and another packet sent in part: the next connection has got the beginning of its packet and then a part of the old one |
| `SocketWrites.SocketWriter.NoPendingWrites` | src/utils/mqtt/Socket.c:369-373 | True exactly when no write of the socket is pending |
| `SocketWrites.SocketWriter.RemovePending` | src/utils/mqtt/Socket.c:752-781 | A socket leaves the list, and the remembered position moves on if it was there |
| `SocketWrites.SocketWriter.UpdateWrite` | src/utils/mqtt/SocketBuffer.c:360-378 | The pending PUBLISH of the socket goes on from the stored copy, and no unsent byte of any socket changes |
| `SocketWrites.SwapChangesNothing` | src/utils/mqtt/SocketBuffer.c:360-378 | The bytes are the same exactly when the copies are copies |
| `SocketWrites.TakenIsPrefix` | src/utils/mqtt/Socket.c:424-474 | What a socket has taken is always a prefix of its accepted packets, and all of them exactly when nothing is pending; but for connections that reported an error or began with an old write in the list |
| `PacketSends.Sends` | src/utils/mqtt/MQTTPacket.c:209-242 | The stream grows by exactly this packet, or not at all if a write is pending or the socket fails |
| `PacketSends.Publish` | src/utils/mqtt/MQTTPacket.c:637-683 | The stream grows by exactly the PUBLISH of the message, also when a stored copy takes over; for QoS 0 on a connection that began afresh |
| `PacketSends.SendAck` | src/utils/mqtt/MQTTPacket.c:502-520 | The stream grows by exactly the acknowledgement |
| `PacketSends.MessageRoundTrip` | src/utils/mqtt/MQTTPacket.c:637-683 | A message that can be sent is parsed back |
| `PacketSends.ArrivedMessages` | src/utils/mqtt/MQTTPacket.c:88-129 | Any part of a stream of PUBLISHes parses to the first of their messages |
| `PacketSends.EndToEnd` | src/utils/mqtt/MQTTPacket.c:637-683 | From writer to reader through any partial writes and any fragmentation: the packets handed on are the first messages published, and all of them once nothing is pending or under way; for a connection that reported no error and began afresh |
| `LinkedList.InsertChain` | src/utils/mqtt/LinkedList.c:101-122 | Linking in an element anywhere keeps the list well linked both ways |
| `LinkedList.BypassChain` | src/utils/mqtt/LinkedList.c:188-220 | So does taking one out |
| `LinkedList.TurnChain` | src/utils/mqtt/MQTTPersistence.c:442-451 | So does turning the list to begin elsewhere |
| `LinkedList.SoughtIsLinear` | src/utils/mqtt/LinkedList.c:143-177 | The search gives the last element found if that matches and otherwise the first that does; it fails exactly when nothing matches, and is linear search where at most one element matches |
| `LinkedList.List.Insert` | src/utils/mqtt/LinkedList.c:67-122 | The contents grow by one item at the place, the remembered position stays |
| `LinkedList.List.FindItem` | src/utils/mqtt/LinkedList.c:143-177 | What is found is remembered, and it is an element of the list |
| `LinkedList.List.Unlink` | src/utils/mqtt/LinkedList.c:188-220 | The element found goes, and a remembered position there moves to the next one |
| `LinkedList.List.DetachHead` | src/utils/mqtt/LinkedList.c:249-267 | The first item goes and is returned; the position stays null or a live element |
| `LinkedList.List.PopTail` | src/utils/mqtt/LinkedList.c:285-303 | The last item goes and is returned; the position stays null or a live element |
| `LinkedList.List.Empty` | src/utils/mqtt/LinkedList.c:335-347 | The loop reaches and frees every element once, in order |
| `LinkedList.List.NextElement` | src/utils/mqtt/LinkedList.c:381-384 | The next element, or the first one from null |
| `LinkedList.List.PrevElement` | src/utils/mqtt/LinkedList.c:393-396 | The previous element, or the last one from null |
| `LinkedList.List.Rotate` | src/utils/mqtt/MQTTPersistence.c:442-451 | The contents are rotated in place |
| `QuickSelect.Partition` | src/media/algo/pseudo/pseudo_am.cpp:13-29 | The segment is rearranged around the pivot value; with `strict`, as in the copy of `diff.cpp` |
| `QuickSelect.Select` | src/media/algo/pseudo/pseudo_am.cpp:31-44 | It terminates, rearranges only the segment, and puts at `k` what sorting would, with no larger element before and no smaller one after |
| `QuickSelect.SelectRank` | src/media/algo/gass/diff.cpp:39-53 | On a whole array both variants return the element at `k` of the sorted array, and permute it |
| `OrderStatistics.RankIsCount` | src/media/algo/pseudo/pseudo_am.cpp:90-114 | The element at `k` of the sorted samples is below a value exactly when more than `k` samples are |
| `OrderStatistics.SplitterIsRanked` | src/media/algo/pseudo/pseudo_am.cpp:31-44 | An element that splits the samples is where sorting puts it |
| `FrameStats.PseudoAdaptiveMapper.CalculateFrameStats` | src/media/algo/pseudo/pseudo_am.cpp:46-61 | From four values on, the results are the elements at one and at 99 per cent of the sorted samples, in order, although the second selection works on what the first left; with fewer there is no sample, and the original reads outside its buffer |
| `FrameStats.PseudoAdaptiveMapper.Histogram` | src/media/algo/pseudo/pseudo_am.cpp:70-83 | Each bin holds the number of samples in it |
| `FrameStats.PseudoAdaptiveMapper.FindMinBin` | src/media/algo/pseudo/pseudo_am.cpp:90-101 | The bin of the element just below the target, or the first one |
| `FrameStats.PseudoAdaptiveMapper.FindMaxBin` | src/media/algo/pseudo/pseudo_am.cpp:103-114 | The bin of the element at the target from above |
| `FrameStats.PseudoAdaptiveMapper.Refine` | src/media/algo/pseudo/pseudo_am.cpp:120-136 | The least and the greatest sample near the two bins, or the sentinels |
| `FrameStats.SamplesAre` | src/media/algo/pseudo/pseudo_am.cpp:75-76 | The samples are the values at every fourth place, the first included |
| `FrameStats.FoundMin` | src/media/algo/pseudo/pseudo_am.cpp:116-141 | Against the sorted samples: the minimum is the least sample in the bin of the element just below one per cent, or at the beginning of the next, and the beginning of the bin if there is none below 65535 |
| `FrameStats.FoundMax` | src/media/algo/pseudo/pseudo_am.cpp:116-142 | The maximum is the greatest sample in the bin of the element at 99 per cent, or at the end of the one before, and the end of the bin if there is none above 0 |
| `FrameStats.MinIsClose` | src/media/algo/pseudo/pseudo_am.cpp:116-142 | Refined or not, the minimum is at most the exact element and within 255 of it |
| `FrameStats.MaxIsClose` | src/media/algo/pseudo/pseudo_am.cpp:116-142 | The maximum is at least the exact element and within 255 of it |
| `FrameStats.PseudoAdaptiveMapper.CalculateFrameStatsHist` | src/media/algo/pseudo/pseudo_am.cpp:63-143 | Both exact results, their distance from the elements of the sorted samples, and minimum <= maximum, for every frame |
| `FrameStats.PseudoAdaptiveMapper.UpdateRange` | src/media/algo/pseudo/pseudo_am.cpp:145-168 | The range moves a tenth of the way to that of the frame, keeps its centre when it has to be widened, and is at least 1000 wide after the first frame |
| `DiffStats.Sample` | src/media/algo/gass/diff.cpp:152-159 | The loops take exactly the pixels at every fourth place of every fourth row, in this order |
| `DiffStats.Stretch` | src/media/algo/gass/diff.cpp:143-178 | The bounds are the two percentiles of the sorted samples, exactly when both positions are inside the samples and the lower bound is below the upper one; otherwise the original reads outside or has no interval to rescale to. Each output is to 65535 as its pixel, moved to the nearer bound if outside, is to the distance of the bounds, rounded down |
| `DiffStats.RescaledIsShare` | src/media/algo/gass/diff.cpp:169-175 | The same for a single value |
| `DiffStats.PositionIsWhole` | src/media/algo/gass/diff.cpp:161-163 | The position of a percentile is the whole part of its product with the number of samples |
| `DiffStats.PositionInside` | src/media/algo/gass/diff.cpp:161-166 | A position is inside exactly when there are samples and the percentile is below 1 and not below 0 by a sample or more |
| `DiffStats.BoundsInOrder` | src/media/algo/gass/diff.cpp:161-166 | With percentiles in order the bounds are in order |
| `DiffStats.RescaledKeepsOrder` | src/media/algo/gass/diff.cpp:169-175 | Rescaling keeps the order of pixels, stays in range and sends the bounds to 0 and 65535 |
| `FrameRing.CountIsDistance` | src/media/vi/v4l2_dvp.c:471-478 | The count is the cyclic distance of the positions, or 8 exactly when the ring is full |
| `FrameRing.SentIsQueued` | src/media/vi/v4l2_dvp.c:466-478 | Sending adds the frame behind the others |
| `FrameRing.CopiedIsQueued` | src/media/vo/shm_vo.cpp:24-42 | Copying takes the oldest frame, or when late the newest, dropping those before it |
| `FrameRing.FrameSync.Send` | src/media/vi/v4l2_dvp.c:453-482 | The producer does so in place: the frame goes to the write position, which moves on round the eight places, and the ring is full exactly with eight frames |
| `FrameRing.FrameSync.Copy` | src/media/vo/shm_vo.cpp:8-51 | The consumer does so in place, with its loop over late frames: the read position moves on by one, or past all frames when late |
| `FrameRing.RunsKeepInv` | src/media/vi/v4l2_dvp.c:458-481 | At every point of every interleaving a blocked producer finds the ring full and a blocked consumer finds it empty, and frames are accounted for |
| `FrameRing.EveryRun` | src/media/vo/shm_vo.cpp:13-48 | At every point of every run: the ring is in order, produced = consumed + dropped + queued, consumed frames keep their order, the two threads are never both blocked, and one can go on without a spurious wakeup |
| `FrameRing.ConsumerGets` | src/media/vo/shm_vo.cpp:24-42 | A late consumer gets the newest frame produced, one in time the oldest it has not passed over |
| `Utf8.EncodingMatches` | src/utils/mqtt/utf-8.c:36-58 | The encoding of every scalar value matches a row of the table, and its first byte gives its length |
| `Utf8.MatchingIsEncoding` | src/utils/mqtt/utf-8.c:36-58 | and every match is the encoding of a scalar value |
| `Utf8.ScanIsUtf8` | src/utils/mqtt/utf-8.c:117-136 | The scan ends exactly at the end when the rest is UTF-8, and only then |
| `Utf8.ScanStopsAtNul` | src/utils/mqtt/utf-8.c:67-136 | No character goes over the terminator, although the full length is passed for each |
| `Utf8.AcceptsUtf8` | src/utils/mqtt/utf-8.c:143-151 | Sections 3 and 4 of RFC 3629: with a NUL after it a string is accepted exactly when it is UTF-8 |
| `Utf8.AcceptsWithoutNul` | src/utils/mqtt/utf-8.c:117-136 | Without one the answer is wrong exactly when whole characters are followed by one that begins before the end, goes over it, and is no longer than the string |
| `Utf8.CrossingIsAccepted` | src/utils/mqtt/utf-8.c:117-136 | Such a character is taken, so that a string that is not UTF-8 is accepted |
| `Utf8.OverrunCrosses` | src/utils/mqtt/utf-8.c:117-136 | and nothing else makes the scan accept one |
| `Utf8.CutCharacterIsAccepted` | src/utils/mqtt/utf-8.c:117-136 | In an A and the first byte of a two-byte character, the cut character is accepted |
| `Utf8.SignDoesNotMatter` | src/utils/mqtt/utf-8.c:92-101 | The comparisons come out the same whether chars are signed or not |
| `Utf8.RowGood` | src/utils/mqtt/utf-8.c:92-101 | The inner loop tells whether a row matches, and reads no byte after one that does not fit |
| `Utf8.CharValidate` | src/utils/mqtt/utf-8.c:67-109 | Where the next character begins |
| `Utf8.Validate` | src/utils/mqtt/utf-8.c:117-136 | The loop accepts what the scan accepts, within the memory it may read |
| `Utf8.ValidateString` | src/utils/mqtt/utf-8.c:143-151 | Exactly the UTF-8 strings are accepted, and nothing after the NUL is read |

## Left out

- Atomicity: a handler is one step, but for `Crash`. There the connection is lost with the crash, and all that is under
way. The failure of a write to the store is not modelled. - File-system persistence: the store is a map that always
succeeds. - `maxInflightMessages` is fixed for the life of a client, and `cleansession` is off on both sides. Will
messages, keepalive, CONNECT, SUBSCRIBE and UNSUBSCRIBE are left out, but for the message ids the last two take. - That
retries do happen, and that packets do arrive: both are free choices, so that nothing is claimed to happen in the end
beyond `Completion`. - The wait in `MQTTClient_publish` for room and for pending writes, `pending_writes`,
`checkPendingWrites` and the delivery callbacks; `lastTouch` and all other clocks: which retries are due is a free
choice. - Reference counts of publications: `storePublication` and `removePublication` are taken as values with the
message. - The overflow of counters and of the cumulative lengths of 32-bit ints, and the sequence number as an unsigned
int. - The second index of a tree (`TreeAddIndex`), comparison of strings, and freeing of nodes. Tree contents have an
int as key and ints as the rest. - TreeAddLoop.SmallTreeIsTwisted: gives a red-black tree by its nodes, and does not
show a sequence of additions that builds it. `Heap`, the only caller, never replaces a key: the system gives out no
address of a live block. - Heap: eyecatchers, failing allocations, and the sizes of its own tree nodes. - `queues`,
`writes` and their buffers are lists and sequences of values within `SocketBuffer` and `SocketWriter`, so that sharing
of memory between them is not captured; `LinkedList` is verified by itself. - SocketWrites.SocketWriter.ContinueAt:
takes the first write of the socket. The original begins the search at the element it found last, which makes a
difference only while the list has two writes of one socket, so for a connection that did not begin afresh, after a
write of another socket between them has completed. - PacketSends.Publish: leaves out QoS 0 on such a connection, where
the stored copy takes the place of the old packet. - After an error on one socket the default queue may still hold part
of its packet; the model requires that socket to be closed before another is read, as the callers do. -
ByteStore.EveryRunRestoresFromBytes: takes key strings of any length; the buffers for them are long enough for sequence
numbers up to 999999 (`StoreBytes.KeysFit`). - What CONNACK and SUBACK say is not parsed. A PUBLISH or an
acknowledgement with too little data reads beyond its end, which the model gives as a result of its own. -
QuickSelect.Partition: elements are unbounded integers; no arithmetic is done on them. - Rounding: percentile positions,
the smoothing and the rescaling use exact integers and reals where the original uses floating point. - The difference
image that `Process_Raw_Stats_Vague` gets from OpenCL, and the other variants in `diff.cpp`. - FrameRing: the sections
under the mutex are atomic steps, and frames are values; lateness is a free choice. - System calls, TLS, OpenCL, OpenCV,
GStreamer, cJSON, UART, autofocus, logging, tracing and configuration: only what they return, where it matters.
