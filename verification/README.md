# Verified models of the modem driver, the QMI tools, the login-style build and the oaf tables

The repository bundles firmware packages. Four of them hold protocol and state-machine code, which this
Dafny project models and proves properties of:

* **The QMAP driver** (`fibocom_QMI_WWAN/src/qmi_wwan_f.c`): framing of IP packets in their own buffers
  (`QmapFrame`), the transmit aggregator as a machine of interleaved steps and as code over a real buffer
  (`TxAggregator`), the receive loop that copies packets (`QmapCopyDemux`), the one that clones slices of a
  shared receive buffer and writes Ethernet headers into it (`QmapCloneDemux`), what they promise together
  (`QmapTheorems`, `QmapEndToEnd`), both as laws in plain numbers (`QmapLaws`, `TxLaws`), and the link-state
  register (`LinkState`).
* **The QMI tools** (`fibocom-dial/src`): the proxy that serialises control requests and routes service
  messages by ownership (`QmiProxy`, `QmiProxyOwnership`, `QmiProxyServer`, `QmiProxyLaws`), TLV bodies and
  the two lookups over them (`QmiTlv`), the two request builders whose string copies spill a NUL, and the
  reading back (`QmiProfile`, `QmiStartNetwork`), and requests matched to responses by wrapping ids
  (`QmiTransactions`); `QmiLaws` has the messages byte by byte.
* **The login stylesheet pruning** (both `vite.config.ts`): the meaning of `var()` (`CssSheet`, after sections
  2.3 and 3 of CSS Custom Properties for Cascading Variables Module Level 1), the reachability walk and the
  deletion (`CssPrune`), and both spelled out on the sheet (`CssLaws`).
* **The oaf kernel tables** (`oaf/src`): hash buckets as multisets (`HashTable`), MAC lists (`MacTable`),
  application ids (`AppFilter`), filter rules (`AppFilterRules`), the record whitelist and the flag cached per
  client (`RecordWhitelist`), and the connection table with its sweep (`Conntrack`); `OafLaws` has what
  each call does, entry by entry.

Code that changes state is written as classes and methods with loops, over arrays where the source works in a
buffer. Each method is proved against a function of the old state, and the theorems are about those functions,
over all inputs or all runs. What those functions say is stated once more without them, in the modules whose
names end in `Laws`. `Bytes` holds byte strings and `memcpy`, `Wrappers` the option type.

Where a promise is false of the code, the exact condition is proved next to a concrete case: control indications
and cleanups that break the proxy's serialisation (`QmiProxy.SerialStep` with `IndicationBreaks`, `CleanupBreaks`
and `LeftBehind`; what the last one leads to is `StuckForever`), client ids released by somebody else
(`QmiProxyOwnership.OwnStep` with `UnfairRelease` and `TwoOwners`), authentication modes that do not survive the
profile (`QmiProfile.AuthRoundTrip` with `AuthLost`), a link-state register that does not start at 0
(`LinkState.FlagAfterStores` and `StartOfDriver` with `StartingFromOne`), and sweeps of 50 instead of 51 calls
(`Conntrack.FiftyCallsMiss`).

Two places where the code differs from what a reader may expect; the model follows the code. In
`fibocom-dial/src/QMIThread.c:235-238` the 3GPP2 profile index is inside a branch that is only entered when the
network is not CDMA, so it is never sent. In `oaf/src/fwx_app_filter.c:752-767` flushing the rules frees them
without freeing their MAC nodes; the rules are gone all the same.

## Model

| member | source | states |
|---|---|---|
| QmapFrame.AddQhdr | fibocom_QMI_WWAN/src/qmi_wwan_f.c:588-609 | The packet in its buffer becomes header, packet and pad bytes (what the tailroom held); nothing before the header or behind the packet changes |
| QmapFrame.AddQhdrV5 | fibocom_QMI_WWAN/src/qmi_wwan_f.c:611-647 | The same with the next-header bit and the checksum header |
| QmapFrame.PadLen | fibocom_QMI_WWAN/src/qmi_wwan_f.c:592-602 | At most three pad bytes, never more than the tailroom, none for a multiple of four, and a multiple of four whenever the tailroom is three or more |
| QmapCopyDemux.Inspect | fibocom_QMI_WWAN/src/qmi_wwan_f.c:2200-2258 | A frame that does not end the loop lies inside the data; a packet taken lies inside its frame, has at most 1500 bytes and a channel below the mode (what the verdict is, header byte by header byte: `QmapLaws.CopyInspects`) |
| QmapCopyDemux.RxHandler | fibocom_QMI_WWAN/src/qmi_wwan_f.c:2187-2304 | Delivers exactly the packets of the decoding function (pinned on every buffer by `QmapLaws.CopyDecodes` and `CopyEnds`), also those before a bad frame or a failed allocation; the loop ends |
| QmapCloneDemux.Inspect | fibocom_QMI_WWAN/src/qmi_wwan_f.c:1587-1635 | The same bounds for the in-place loop, and the payload is the frame less header and pad (the verdict itself: `QmapLaws.CloneInspects`) |
| QmapCloneDemux.RxDevice.Examine | fibocom_QMI_WWAN/src/qmi_wwan_f.c:1587-1635 | Reading the header out of the shared buffer comes to the verdict defined on the bytes |
| QmapCloneDemux.RxDevice.PushEthAndQueue | fibocom_QMI_WWAN/src/qmi_wwan_f.c:1660-1674 | Writing the 14 header bytes in front of a payload leaves every queued packet as it stands, and everything from the payload on (what the 14 bytes say: `QmapCloneDemux.DecodedFrames`) |
| QmapCloneDemux.RxDevice.Accept | fibocom_QMI_WWAN/src/qmi_wwan_f.c:1636-1678 | Clone or copy, the packet queued is the slice of the original buffer, the unread rest is untouched, and the new headroom in front of it is used by no queued packet |
| QmapCloneDemux.RxDevice.Scan | fibocom_QMI_WWAN/src/qmi_wwan_f.c:1585-1678 | For every starting headroom, the chain grows by exactly the packets of the original bytes, each behind its Ethernet header |
| QmapCloneDemux.RxDevice.Flush | fibocom_QMI_WWAN/src/qmi_wwan_f.c:1680-1689 | The chain is delivered in order, each packet with the bytes it was queued with |
| QmapCloneDemux.RxDevice.RxFixup | fibocom_QMI_WWAN/src/qmi_wwan_f.c:1574-1694 | One receive call in place refines the step on values (spelled out by `QmapLaws.CallDelivers`): deliver all when the buffer is read to its end, otherwise keep all queued; and everything delivered or queued stays a well-formed Ethernet frame |
| QmapCloneDemux.DecodedFrames | fibocom_QMI_WWAN/src/qmi_wwan_f.c:1606-1664 | Every packet accepted becomes a frame to the address of its channel, from 02:50:f3:00:00:00, with type 08 00 in front of a packet whose first nibble is 4 and 86 DD in front of one whose nibble is 6 |
| QmapLaws.CopyInspects | fibocom_QMI_WWAN/src/qmi_wwan_f.c:2207-2258 | The verdict on every buffer that starts with a whole frame, in numbers: too long, command, neither IPv4 nor IPv6, no such channel, not registered, or taken |
| QmapLaws.CopyDecodes | fibocom_QMI_WWAN/src/qmi_wwan_f.c:2200-2287 | What every frame contributes: commands and frames of unregistered channels are passed over and decoding goes on behind them, bad ones end it, all others add their packet, for any minimum padding and any failed allocation |
| QmapLaws.CopyEnds | fibocom_QMI_WWAN/src/qmi_wwan_f.c:2200-2225 | A frame that runs past the data ends the loop as an error, and four bytes or fewer end it as done |
| QmapLaws.CloneInspects | fibocom_QMI_WWAN/src/qmi_wwan_f.c:1587-1635 | The same verdict for the in-place loop, which does not look at the next-header bit |
| QmapLaws.CloneDecodes | fibocom_QMI_WWAN/src/qmi_wwan_f.c:1585-1678 | The same contribution of every frame for the in-place loop |
| QmapLaws.WiresDecode | fibocom_QMI_WWAN/src/qmi_wwan_f.c:2200-2287 | Round trip for all that a modem may send: packets interleaved with commands and with frames of unregistered channels, with and without the second header, with any minimum padding, decode to exactly the packets of registered channels, in order |
| QmapLaws.WiresInPlace | fibocom_QMI_WWAN/src/qmi_wwan_f.c:1585-1678 | The same round trip through the in-place loop, without second headers |
| QmapLaws.CallDelivers | fibocom_QMI_WWAN/src/qmi_wwan_f.c:1674-1692 | A receive call appends the payloads accepted to the chain, each behind 14 bytes, and sends up the whole chain or nothing |
| QmapLaws.SentBytes | fibocom_QMI_WWAN/src/qmi_wwan_f.c:588-609 | The frame sent, byte by byte: pad count, channel, length with the high byte first, packet, pad |
| QmapLaws.SentBytesV5 | fibocom_QMI_WWAN/src/qmi_wwan_f.c:611-647 | The same with the next-header bit and the bytes 4, 0, 0, 0 of the checksum header |
| QmapTheorems.FrameTaken | fibocom_QMI_WWAN/src/qmi_wwan_f.c:2200-2258 | A frame of a packet that may be sent, whatever follows it, is taken whole and as that packet |
| QmapTheorems.RoundTrip | fibocom_QMI_WWAN/src/qmi_wwan_f.c:2200-2303 | Any list of packets of 1 to 1500 bytes, framed either way with or without room for padding, decodes to exactly that list |
| QmapTheorems.RoundTripInPlace | fibocom_QMI_WWAN/src/qmi_wwan_f.c:1587-1678 | The same through the in-place loop, for frames without the second header |
| QmapTheorems.DecodersAgree | fibocom_QMI_WWAN/src/qmi_wwan_f.c:1587-1678 | Without next-header bits the two receive loops accept the same packets and stop at the same frame, on every buffer |
| QmapTheorems.NothingLostBetweenCalls | fibocom_QMI_WWAN/src/qmi_wwan_f.c:1674-1692 | Over any calls, delivered packets followed by the chain are all accepted packets in order; a call that reads its whole buffer leaves the chain empty |
| QmapEndToEnd.EndToEnd | fibocom_QMI_WWAN/src/qmi_wwan_f.c:877-1008 | Over every interleaving, the aggregates taken decode one by one to the first packets submitted, and the frames of the rest are waiting |
| TxAggregator.ConservedStep | fibocom_QMI_WWAN/src/qmi_wwan_f.c:834-1008 | Every step keeps: what was taken, then what is held and in hand, is all that was submitted, in order |
| TxAggregator.BoundedStep | fibocom_QMI_WWAN/src/qmi_wwan_f.c:910-1005 | Every step keeps: the count is the number of held frames and below the limit, a held buffer has a timer or work to come, and a call goes back to the start at most once |
| TxAggregator.MultiStep | fibocom_QMI_WWAN/src/qmi_wwan_f.c:910-950 | Every step keeps: aggregates have between one frame and the limit, and several frames together are shorter than the size limit |
| TxAggregator.InvAlways | fibocom_QMI_WWAN/src/qmi_wwan_f.c:834-1008 | Any run keeps all of that, with any clock readings, allocation failures and settings change |
| TxAggregator.AlwaysConserved | fibocom_QMI_WWAN/src/qmi_wwan_f.c:834-1008 | In every reachable state, written out: conservation in order, the count, both limits, whole frames, no stranded buffer, one loop back at most |
| TxAggregator.Drains | fibocom_QMI_WWAN/src/qmi_wwan_f.c:834-867 | From every reachable state without a call in progress, at most four timer and work callbacks put every frame submitted into an aggregate |
| TxAggregator.Channel.TransmitLocked | fibocom_QMI_WWAN/src/qmi_wwan_f.c:910-996 | The locked section on the real buffer is the step on values (decided as `TxLaws.NothingHeld`, `RoomInBuffer` and `NoRoom` say), and the buffer holds the bytes of the held frames |
| TxAggregator.Channel.Transmit | fibocom_QMI_WWAN/src/qmi_wwan_f.c:877-1008 | A whole call is one step without aggregation, else one or two in the locked section, the second exactly when the held buffer had no room, and the end |
| TxAggregator.Channel.Work | fibocom_QMI_WWAN/src/qmi_wwan_f.c:834-858 | The work item takes the held bytes, or nothing |
| TxAggregator.Channel.TimerCallback | fibocom_QMI_WWAN/src/qmi_wwan_f.c:860-867 | The callback schedules the work item |
| TxAggregator.Channel.StoreSettings | fibocom_QMI_WWAN/src/qmi_wwan_f.c:1339-1368 | The limits change once, and only away from one datagram |
| TxLaws.NothingHeld | fibocom_QMI_WWAN/src/qmi_wwan_f.c:951-985 | With nothing held, a frame is held exactly when the last aggregate left at most 10 ms ago, memory is got and it is not an urgent frame with no more to come; otherwise it goes out alone and the time is taken |
| TxLaws.RoomInBuffer | fibocom_QMI_WWAN/src/qmi_wwan_f.c:917-950 | With room in the held buffer, it goes out with the frame exactly when the last aggregate left more than 1 ms ago, the limit of datagrams is reached, or the frame is urgent with no more to come; otherwise both are held |
| TxLaws.NoRoom | fibocom_QMI_WWAN/src/qmi_wwan_f.c:941-950 | Without room, the held buffer goes out alone and the frame comes back to the lock |
| TxLaws.OtherSteps | fibocom_QMI_WWAN/src/qmi_wwan_f.c:834-908 | The other steps in full: direct sending, the timer, its callback, the work item, the settings |
| TxLaws.LeaveTogether | fibocom_QMI_WWAN/src/qmi_wwan_f.c:909-1005 | Over every run in time, with the timer and its callback in between: as many fitting frames as the limit leave as one aggregate of that many, in order, and fewer are held in one buffer with nothing sent |
| LinkState.Register.Store | fibocom_QMI_WWAN/src/qmi_wwan_f.c:383-438 | One store is the step on values |
| LinkState.StoredBit | fibocom_QMI_WWAN/src/qmi_wwan_f.c:394-411 | A store changes the bit of the channel it addresses to what it says, and no other bit; a number out of range changes none |
| LinkState.StoredNumber | fibocom_QMI_WWAN/src/qmi_wwan_f.c:394-435 | A store in numbers: low seven bits the channel from 1, eighth bit down; the register gains or loses 1, 2, 4 or 8; flags and carriers change exactly when the register does; numbers that name no channel change nothing |
| LinkState.CoherentStep | fibocom_QMI_WWAN/src/qmi_wwan_f.c:413-435 | A store keeps channel flags and carriers equal to the bits, and the parent carrier on exactly when some bit is set |
| LinkState.RegisterFollowsStores | fibocom_QMI_WWAN/src/qmi_wwan_f.c:383-438 | From 0, after any stores, a bit is what the last accepted store for its channel said, and everything is in step |
| LinkState.EncodedIsAccepted | fibocom-dial/src/udhcpc.c:93-98 | The number the dialer writes addresses its channel and says what it means |
| LinkState.FlagRepaired | fibocom_QMI_WWAN/src/qmi_wwan_f.c:413-430 | From any register, a flag agrees with its bit after a store if and only if it did before, or the store is for that channel and says the opposite of its bit |
| LinkState.FlagAfterStores | fibocom_QMI_WWAN/src/qmi_wwan_f.c:383-438 | Over any stores, from any register and flags: a flag agrees with its bit if and only if it did at the start, or some store is for that channel and says the opposite of the bit at the start |
| LinkState.StartOfDriver | fibocom_QMI_WWAN/src/qmi_wwan_f.c:1960-1964 | With the register starting at 1 and all flags off, channels 2 to 4 stay in step, and channel 1 is in step if and only if it was told once to go down |
| LinkState.StartingFromOne | fibocom_QMI_WWAN/src/qmi_wwan_f.c:1960-1964 | With the register starting at 1, link-up for channel 1 leaves its flag off |
| QmiProxy.SerialStep | fibocom-dial/src/fibo_qmimsg_server.c:653-727 | Queue non-empty exactly when one control request, the queue head, is at the device: a step keeps this if and only if it is no stray control message and no cleanup that takes the head or leaves a request behind |
| QmiProxy.AnsweredInOrder | fibocom-dial/src/fibo_qmimsg_server.c:653-727 | Over every run of steps that keep it, as many requests are served as responses come, in the order in which they were issued, and each response goes to the issuer of its request and to no other |
| QmiProxy.FromTheStart | fibocom-dial/src/fibo_qmimsg_server.c:653-727 | The same from the empty proxy, written out |
| QmiProxy.Serialised | fibocom-dial/src/fibo_qmimsg_server.c:653-720 | Over every run without stray control messages and in which nobody leaves while waiting, that holds and the k-th response goes to the connection that issued the k-th request, and to no other |
| QmiProxy.SentAfterExactly | fibocom-dial/src/fibo_qmimsg_server.c:673-688 | A request at position n is at the device after exactly n responses: not before, and afterwards it is answered |
| QmiProxy.IndicationBreaks | fibocom-dial/src/fibo_qmimsg_server.c:678-688 | A control indication sends an outstanding request a second time |
| QmiProxy.CleanupBreaks | fibocom-dial/src/fibo_qmimsg_server.c:530-538 | Cleaning up the connection being served leaves the device with a request that is no longer queued |
| QmiProxy.LeftBehind | fibocom-dial/src/fibo_qmimsg_server.c:530-538 | A concrete run: a connection with two requests queued is cleaned up, the second stays behind, becomes the head, and is never sent |
| QmiProxy.StuckForever | fibocom-dial/src/fibo_qmimsg_server.c:678-688 | Once the head's connection is gone and nothing is at the device, then over every run no control request is sent and none answered, until a new connection gets the old descriptor |
| QmiProxyOwnership.OwnStep | fibocom-dial/src/fibo_qmimsg_server.c:549-578 | Every client id is in one table at most and allocated at the device: a step keeps this if and only if grants are of free ids and releases by their owner |
| QmiProxyOwnership.OwnedAlways | fibocom-dial/src/fibo_qmimsg_server.c:549-578 | Over every run that keeps serialisation, with such a device and such clients, ownership is kept |
| QmiProxyOwnership.OwnedFromTheStart | fibocom-dial/src/fibo_qmimsg_server.c:549-578 | From the empty proxy: no id is in two tables, and every id in a table is allocated |
| QmiProxyOwnership.LearnTable | fibocom-dial/src/fibo_qmimsg_server.c:658-671 | A response changes all tables together by exactly the id it grants or releases (whose table it is: `QmiProxyLaws.ResponseGoesToAsker`) |
| QmiProxyOwnership.TablesDisjoint | fibocom-dial/src/fibo_qmimsg_server.c:549-561 | No client id is in the tables of two connections |
| QmiProxyOwnership.RoutedToOwner | fibocom-dial/src/fibo_qmimsg_server.c:690-703 | A service message with a client id reaches its owner once and nobody else |
| QmiProxyOwnership.UnownedGoesNowhere | fibocom-dial/src/fibo_qmimsg_server.c:690-703 | One with an id that nobody owns reaches nobody |
| QmiProxyOwnership.Broadcast | fibocom-dial/src/fibo_qmimsg_server.c:690-703 | One with id 0 reaches each connection once per client it has of that service |
| QmiProxyOwnership.UnfairRelease | fibocom-dial/src/fibo_qmimsg_server.c:563-578 | Any release that is not its owner's leaves a table with an id that the device counts as free |
| QmiProxyOwnership.TwoOwners | fibocom-dial/src/fibo_qmimsg_server.c:549-578 | A concrete run in which the device grants only free ids and two tables end up with the same one |
| QmiProxyServer.Server.AcceptConnection | fibocom-dial/src/fibo_qmimsg_server.c:493-512 | The new connection is last, and owns nothing; a failed accept leaves one with descriptor 255 |
| QmiProxyServer.Server.SendControl | fibocom-dial/src/fibo_qmimsg_server.c:706-721 | A request is queued, and sent at once only if the queue was empty |
| QmiProxyServer.Server.RecvControl | fibocom-dial/src/fibo_qmimsg_server.c:653-689 | The loops over lists refine the step of a response, or of any other control message (place by place: `QmiProxyLaws.ResponseGoesToAsker` and `OtherMessages`) |
| QmiProxyServer.Server.RecvService | fibocom-dial/src/fibo_qmimsg_server.c:690-703 | The nested loops route to exactly the sequence of receivers |
| QmiProxyServer.Server.CleanupConnection | fibocom-dial/src/fibo_qmimsg_server.c:514-547 | The first connection with the descriptor goes, and its first queued request |
| QmiProxyLaws.LearnPlaces | fibocom-dial/src/fibo_qmimsg_server.c:658-671 | On any list of connections, each one with the descriptor of the request gets the id at the end of its table or loses its first occurrence, and every other one is unchanged |
| QmiProxyLaws.ResponseGoesToAsker | fibocom-dial/src/fibo_qmimsg_server.c:655-688 | While requests are serialised, the one connection whose request is the queue head gets the response and the id granted, or loses the id released once; all others are unchanged, and the next request goes to the device |
| QmiProxyLaws.OtherSteps | fibocom-dial/src/fibo_qmimsg_server.c:493-538 | Accepting, requesting and cleaning up, place by place |
| QmiProxyLaws.OtherMessages | fibocom-dial/src/fibo_qmimsg_server.c:678-688 | A stray control message sends the queue head again and changes nothing else; a response nobody waits for changes no table |
| QmiProxyLaws.AnyResponse | fibocom-dial/src/fibo_qmimsg_server.c:653-688 | Also when requests are not serialised, a response answers the queue head: it goes once to each connection with that descriptor and to nobody else, and the next request goes out once for each of its connections |
| QmiProxyLaws.GrantIsRouted | fibocom-dial/src/fibo_qmimsg_server.c:655-703 | After a grant that answers a request of a connection, and over any fair benign run in which the id is not released and the connection not cleaned up, a service message for the id goes to that connection alone, once |
| QmiTlv.GetTLV | fibocom-dial/src/QMIThread.c:67-89 | The walk with a shrinking 16-bit length finds what the search function defines, and ends |
| QmiTlv.SearchFinds | fibocom-dial/src/QMIThread.c:67-89 | On every encoded body the lookup finds the wanted TLV, by type or by number, at its place, and nothing when there is none |
| QmiTlv.LookupFindsField | fibocom-dial/src/QMIThread.c:67-89 | A lookup by type points at the value of the first TLV of that type |
| QmiTlv.FindTlv | fibocom-dial/src/fibo_qmimsg_server.c:756-771 | The proxy's own walk, which goes on while a byte is left |
| QmiTlv.LookupsAgreeIff | fibocom-dial/src/fibo_qmimsg_server.c:756-771 | The two lookups differ exactly when there is no such TLV and the bytes left over at the end start with its type |
| QmiTlv.NothingLeftOver | fibocom-dial/src/fibo_qmimsg_server.c:756-771 | On every encoded body they agree |
| QmiLaws.LookupReads | fibocom-dial/src/QMIThread.c:67-89 | On every body whose TLVs do not run past its end, a lookup by type returns what a plain reading of type, low and high length byte and value gives |
| QmiLaws.LookupByNumber | fibocom-dial/src/QMIThread.c:67-89 | A lookup by 0x1000 + n points at the n-th TLV of an encoded body, or at none |
| QmiProfile.StrCpy | fibocom-dial/src/QMIThread.c:54-60 | Copies the string and its NUL, and nothing before them changes |
| QmiProfile.ModifyProfileSettingsReq | fibocom-dial/src/QMIThread.c:568-643 | The body is exactly the encoded TLVs: every spilled NUL is overwritten or lies behind the length returned |
| QmiProfile.ComposeModifyProfile | fibocom-dial/src/QMIThread.c:99-142 | The message has consistent length fields, the given id and that body; a service without client id gets none |
| QmiProfile.GetProfile | fibocom-dial/src/QMIThread.c:2455-2472 | Four lookups and bounded copies read what the body says |
| QmiProfile.CredentialFields | fibocom-dial/src/QMIThread.c:600-640 | The optional part of a body holds each string under its type, and the authentication mode exactly when user and password are both there |
| QmiProfile.ProfileRoundTrip | fibocom-dial/src/QMIThread.c:2455-2472 | For all strings that fit, reading the body back gives the same strings, and the low byte of the mode or 0 |
| QmiProfile.AuthRoundTrip | fibocom-dial/src/QMIThread.c:630-640 | The mode survives if and only if it is a byte and both strings are set, or it is 0 |
| QmiProfile.AuthLost | fibocom-dial/src/QMIThread.c:630-640 | CHAP with a user but no password comes back as none, and mode 258 as 2 |
| QmiLaws.ProfileBytes | fibocom-dial/src/QMIThread.c:568-643 | The body of the profile request, byte by byte, for all profiles |
| QmiLaws.ProfileRead | fibocom-dial/src/QMIThread.c:580-640 | What a receiver reads in it for every type: the index behind a 0 under 0x01, 3, 2 or 0 by the two flags under 0x11, the strings under 0x14, 0x1B and 0x1C, the low byte of the mode under 0x1D, and nothing else |
| QmiLaws.RequestBytes | fibocom-dial/src/QMIThread.c:99-142 | The header of the message in numbers, if and only if |
| QmiLaws.SettingsRead | fibocom-dial/src/QMIThread.c:2455-2472 | Reading a body takes three strings and a mode from their types |
| QmiLaws.StringRead | fibocom-dial/src/QMIThread.c:2455-2472 | A string read is what stands before the first NUL, or all of it |
| QmiStartNetwork.StartNwInterfaceReq | fibocom-dial/src/QMIThread.c:144-244 | The body is exactly the encoded TLVs, with the CDMA credentials where they apply, and no byte behind it is needed |
| QmiStartNetwork.StartRoundTrip | fibocom-dial/src/QMIThread.c:144-244 | A lookup of any type in that body finds the field that was put in, or nothing where it was left out |
| QmiLaws.StartBytes | fibocom-dial/src/QMIThread.c:144-244 | The body of the start request, byte by byte |
| QmiLaws.EffectiveStrings | fibocom-dial/src/QMIThread.c:144-200 | CDMA sends no access point name, and ctnet@mycdma.cn with vnet.mobi and mode 2 exactly when user and password are both missing or empty |
| QmiTransactions.IdCounts | fibocom-dial/src/QMIThread.c:91-97 | The n-th id is n modulo the period, plus one |
| QmiTransactions.IdsRepeat | fibocom-dial/src/QMIThread.c:91-97 | Ids stay in 1..65535 (1..255 for control), and two are equal exactly when a multiple of the period lies between them |
| QmiTransactions.Commands.GetTransactionId | fibocom-dial/src/QmiWwanCM.c:14-20 | One counter advances to the next id, the other stays |
| QmiTransactions.Commands.BeginSend | fibocom-dial/src/QMIThread.c:686-708 | A request takes the slot and clears the old response |
| QmiTransactions.Commands.EndSend | fibocom-dial/src/QMIThread.c:707-726 | The wait returns the response there is, or none after a timeout; the request stays in its slot |
| QmiTransactions.Commands.Receive | fibocom-dial/src/QMIThread.c:748-756 | A matching message empties the slot and is kept; any other changes nothing |
| QmiTransactions.InvAlways | fibocom-dial/src/QMIThread.c:667-780 | In every reachable state, a response kept or returned answers that request, or one a whole number of periods before |
| QmiTransactions.NoStaleResponse | fibocom-dial/src/QMIThread.c:667-780 | Over every interleaving of send, receive, wake-up, timeout and quit, no send returns the answer to an earlier request less than a period before |
| QmiTransactions.TakenIff | fibocom-dial/src/QMIThread.c:667-682 | And the period is the exact bound: an answer to an earlier request is taken if and only if a multiple of the period lies between |
| QmiLaws.SendReturnsAnswer | fibocom-dial/src/QMIThread.c:686-756 | A send, messages that are not for it, the answer, any messages, and the wake-up: the send returns that very answer, and waits no more |
| QmiLaws.NothingReturned | fibocom-dial/src/QMIThread.c:686-770 | Refused sends, timeouts and wake-ups without an answer return none; a message that does not match changes nothing, and one that finds no memory is lost |
| CssSheet.ComputedBySpec | luci-theme-aurora/.dev/vite.config.ts:131-136 | The substitution with its termination device computes what the specification says: inherited or initial, invalid on a cycle, otherwise every var() replaced |
| CssSheet.ComputedOpen | luci-theme-aurora/.dev/vite.config.ts:131-136 | The set of open properties, which makes the recursion end, never changes a value |
| CssLaws.LastWins | luci-theme-aurora/.dev/vite.config.ts:131-136 | The declaration that counts is the last one of the name in a rule that applies |
| CssLaws.JoinedValues | luci-theme-aurora/.dev/vite.config.ts:131-136 | Values are substituted piece by piece in text order, and one piece that fails spoils the whole |
| CssLaws.Pieces | luci-theme-aurora/.dev/vite.config.ts:131-136 | Text stands for itself, and var() for the property or else its fallback |
| CssLaws.Undeclared | luci-theme-aurora/.dev/vite.config.ts:131-136 | Without a declaration: inherited, or initial, or invalid, by the registration and the element |
| CssLaws.Undone | luci-theme-aurora/.dev/vite.config.ts:131-136 | With a declaration that is circular or fails: invalid, or as without it, by the registration |
| CssPrune.Collect | luci-theme-aurora/.dev/vite.config.ts:149-164 | The first loop finds the roots and, for every name, the references of all its declarations |
| CssPrune.Walk | luci-theme-aurora/.dev/vite.config.ts:165-174 | The walk ends, and keeps the least set with the roots that is closed under references |
| CssPrune.Prune | luci-theme-shadcn/.dev/vite.config.ts:127-160 | The second copy of the pass: exactly the custom declarations and registrations of names outside the least set are removed, and what is left keeps its places in order |
| CssPrune.PruningPreservesMeaning | luci-theme-aurora/.dev/vite.config.ts:149-183 | On every element, every ordinary declaration has the same substituted value before and after, also with declarations injected at render time that mention no pruned name |
| CssPrune.CycleAlike | luci-theme-aurora/.dev/vite.config.ts:149-183 | A kept name is on a dependency cycle before pruning exactly when it is afterwards |
| CssPrune.PrunedMembers | luci-theme-aurora/.dev/vite.config.ts:176-183 | An item is left if and only if it was there and is ordinary, or a custom declaration or a registration of a kept name |
| CssPrune.PrunedInOrder | luci-theme-aurora/.dev/vite.config.ts:176-183 | What is left is the items at an increasing list of places, which are exactly those of ordinary declarations and of custom declarations and registrations of kept names |
| CssLaws.KeepsTheReached | luci-theme-aurora/.dev/vite.config.ts:149-174 | A name is kept if and only if a chain of mentions leads to it: from an ordinary declaration, and on through declarations of each name |
| CssLaws.MentionsExactly | luci-theme-aurora/.dev/vite.config.ts:155-157 | A value mentions a name if and only if some var() in it has that name, at any depth of fallbacks |
| CssPrune.PruningIsIdempotent | luci-theme-shadcn/.dev/vite.config.ts:127-160 | Walking and pruning the pruned sheet again keeps the same names and changes nothing |
| MacTable.Hash | oaf/src/fwx_mac.c:14-21 | The sum of the six bytes modulo 128 |
| MacTable.MacConfig.Add | oaf/src/fwx_mac.c:30-43 | One more occurrence of the address, also when it is there already |
| MacTable.MacConfig.Find | oaf/src/fwx_mac.c:55-66 | Finds a node exactly when the multiset holds the address |
| MacTable.MacConfig.Delete | oaf/src/fwx_client.c:946-951 | One occurrence less, if there is one |
| MacTable.MacConfig.Flush | oaf/src/fwx_mac.c:68-81 | Nothing is left |
| MacTable.MacConfig.IsEmpty | oaf/src/fwx_app_filter.c:345-351 | All buckets are empty exactly when the multiset is |
| AppFilter.AppIdConfig.Find | oaf/src/fwx_app_filter.c:60-70 | Finds a node exactly when the set holds the id |
| AppFilter.AppIdConfig.Add | oaf/src/fwx_app_filter.c:73-99 | Succeeds exactly when the id is there or there is room and memory, and then the set has it |
| AppFilter.AppIdConfig.Delete | oaf/src/fwx_app_filter.c:307-318 | The set without the id |
| AppFilter.AppIdConfig.Flush | oaf/src/fwx_app_filter.c:45-58 | The empty set, and a count of 0 |
| AppFilter.AppIdConfig.CountIsSize | oaf/src/fwx_app_filter.c:79-96 | The count is the size of the set |
| AppFilter.AppIdConfig.AddRange | oaf/src/fwx_app_filter.c:130-136 | Reports success exactly when the whole interval is in the set |
| AppFilter.AppIdConfig.AddToken | oaf/src/fwx_app_filter.c:101-145 | Numbers, ranges, strings and malformed tokens each have the effect on the plain set that the token function gives, and the answer says whether every id named is in |
| AppFilter.RangeWholeOrPrefix | oaf/src/fwx_app_filter.c:125-137 | A range adds the whole interval, or the part before the first id for which the set is full or memory short |
| AppFilterRules.Rule.Modify | oaf/src/fwx_app_filter.c:432-509 | All combinations of arguments change the plain rule as the modification function says (which is `OafLaws.MacsModified`, `AppsModified` and `SwitchesModified`) |
| AppFilterRules.Rule.Match | oaf/src/fwx_app_filter.c:335-371 | A rule matches exactly when it is enabled, its MAC set is empty or has the address, and its application set has the id (its QUIC flag, for the QUIC id) |
| AppFilterRules.Filter.FindRule | oaf/src/fwx_app_filter.c:212-220 | The first rule with the id |
| AppFilterRules.Filter.Add | oaf/src/fwx_app_filter.c:228-261 | A new rule, enabled and empty, in front, unless there are 64, the id exists or memory is short |
| AppFilterRules.Filter.Delete | oaf/src/fwx_app_filter.c:263-282 | That rule goes and no other |
| AppFilterRules.Filter.AddAppId | oaf/src/fwx_app_filter.c:284-298 | Only that rule changes; the answer does not tell whether the id went in |
| AppFilterRules.Filter.DeleteAppId | oaf/src/fwx_app_filter.c:300-323 | Only that rule changes, by that id, and the answer says whether the rule was there and had it |
| AppFilterRules.Filter.DeleteToken | oaf/src/fwx_app_filter.c:147-184 | A token removes its number or its whole interval from the rule; a valid range always succeeds |
| AppFilterRules.Filter.ModifyRule | oaf/src/fwx_app_filter.c:401-513 | Only the rule named changes, whichever tables are rewritten |
| AppFilterRules.Filter.Flush | oaf/src/fwx_app_filter.c:752-767 | No rule is left |
| AppFilterRules.Filter.Match | oaf/src/fwx_app_filter.c:326-375 | The search finds a rule exactly when one matches, and then the newest that does |
| AppFilterRules.GoodAlways | oaf/src/fwx_app_filter.c:228-323 | Over any sequence of calls: different ids, at most 64 rules, at most 1024 applications each |
| AppFilterRules.TheNamedRule | oaf/src/fwx_app_filter.c:228-323 | What each call does to the rule it names, as an entry of a map from ids to rules |
| AppFilterRules.OnlyTheNamedRule | oaf/src/fwx_app_filter.c:228-323 | A call leaves the rule of every other id as it was, so the list behaves like that map |
| OafLaws.MacsModified | oaf/src/fwx_app_filter.c:432-467 | Address by address: action 1 leaves only the listed ones, action 2 adds them to the old ones, action 3 adds one, any other action empties the list |
| OafLaws.AppsModified | oaf/src/fwx_app_filter.c:470-499 | Id by id, below the limit and with memory: action 1 leaves only the ids named, action 2 adds them, action 3 adds those of one token, any other action empties the set |
| OafLaws.SwitchesModified | oaf/src/fwx_app_filter.c:501-509 | Any number but 0 enables, only 1 blocks QUIC |
| OafLaws.OneId | oaf/src/fwx_app_filter.c:73-120 | An id goes in exactly when it was in, or there are fewer than 1024 and there is memory |
| OafLaws.TokensBetween | oaf/src/fwx_app_filter.c:101-145 | After any tokens no id is lost, none comes in unnamed, and all named are in unless the set is full or memory was short |
| OafLaws.IdsRemoved | oaf/src/fwx_app_filter.c:147-184 | Id by id, what a deletion token takes from the rule, and that nothing else of any rule changes |
| OafLaws.RulesChanged | oaf/src/fwx_app_filter.c:228-298 | Adding in front below 64, deleting the first with the id, adding an id, and flushing, in full |
| OafLaws.FreshRuleMatches | oaf/src/fwx_app_filter.c:326-375 | A rule just added matches nothing, and with an id added exactly that id from every address, except id 10 |
| OafLaws.QuicMatches | oaf/src/fwx_app_filter.c:355-358 | Id 10 is matched exactly by rules that block QUIC |
| OafLaws.SwitchedAndRestricted | oaf/src/fwx_app_filter.c:335-371 | A rule that is off matches nothing; with its addresses replaced it matches from those alone, and with none from all |
| RecordWhitelist.InvStep | oaf/src/fwx_client.c:86-136 | Every step keeps: unless the list changed since the running or last sync began, the flags visited and the one about to be inserted are right |
| RecordWhitelist.FlagsAgree | oaf/src/fwx_client.c:86-136 | Over every interleaving with creation and expiry of clients, whenever no operation is between its change and the end of its sync, each client's flag is membership of its address |
| RecordWhitelist.OneSyncIsEnough | oaf/src/fwx_client.c:86-100 | One sync makes all flags right and keeps them so until the list changes, whatever syncs are still to come |
| RecordWhitelist.WrongInBetween | oaf/src/fwx_client.c:912-921 | Between change and sync a flag can be wrong |
| RecordWhitelist.ClientTable.Sync | oaf/src/fwx_client.c:86-100 | The nested loops put every client's flag right, in place |
| RecordWhitelist.ClientTable.SetWhitelist | oaf/src/fwx_client.c:102-136 | Afterwards the list holds each address given once, and the flags agree |
| RecordWhitelist.ClientTable.AddWhitelist | oaf/src/fwx_client.c:896-923 | Each address once more, and the flags agree |
| RecordWhitelist.ClientTable.DeleteWhitelist | oaf/src/fwx_client.c:925-957 | One occurrence less and a sync, or neither |
| RecordWhitelist.ClientTable.FlushWhitelist | oaf/src/fwx_client.c:959-966 | The list is empty, and the flags agree |
| OafLaws.ListUpdated | oaf/src/fwx_client.c:102-136 | The list after each operation, address by address: once each, as often as listed more, one less, none |
| RecordWhitelist.ClientTable.FindClient | oaf/src/fwx_client.c:219-233 | Finds the client of the address exactly when the table holds one |
| RecordWhitelist.ClientTable.FindAndAdd | oaf/src/fwx_client.c:235-316 | Afterwards one client has the address, its flag right, unless memory is short |
| OafLaws.ClientSteps | oaf/src/fwx_client.c:86-100 | What inserting, expiry and a visit of the sync do to the clients, place by place |
| Conntrack.ExpiredModulo | oaf/src/fwx_conntrack.c:132-140 | For all times, the wrapped comparison says expired exactly when the time past the timeout, modulo the word, is between 1 and half the word |
| Conntrack.ExpiredExactly | oaf/src/fwx_conntrack.c:132-140 | So it is exact for idle times up to half the word beyond the timeout |
| Conntrack.CleanExactly | oaf/src/fwx_conntrack.c:136-152 | A call removes an entry with a right stamp exactly when it is in a bucket looked at and expired |
| Conntrack.SoundStep | oaf/src/fwx_conntrack.c:59-157 | Every step keeps the stamps right and every connection at one place: so they are in every reachable table |
| Conntrack.OnlyExpiredLeave | oaf/src/fwx_conntrack.c:127-157 | After any run from an empty table, a connection leaves at the next step only by a sweep of its bucket, and if and only if it has then been idle for longer than the timeout |
| Conntrack.ExpiredLeave | oaf/src/fwx_conntrack.c:127-157 | After any run from an empty table, a connection that is expired and not refreshed is gone after any further run with 51 sweep calls |
| Conntrack.RoundLooksAtAll | oaf/src/fwx_conntrack.c:136-156 | From every reachable position, 51 consecutive calls look at all 256 buckets |
| Conntrack.FiftyCallsMiss | oaf/src/fwx_conntrack.c:136-156 | From every reachable position, 50 calls leave out some bucket |
| Conntrack.ExpiredIsRemoved | oaf/src/fwx_conntrack.c:127-157 | The same from any state and with the exact number of calls for the bucket: an address whose entry is expired is gone once its bucket's turn has come |
| Conntrack.ConnTable.Find | oaf/src/fwx_conntrack.c:87-102 | Finds a connection exactly when the table holds one with the key |
| Conntrack.ConnTable.FindAndAdd | oaf/src/fwx_conntrack.c:105-114 | A new connection, unmarked and seen now, exactly when the key is not held and memory is got; keys stay unique and in their buckets |
| Conntrack.ConnTable.Update | oaf/src/fwx_conntrack.c:117-124 | The entry at that place has the application and the mark given and is refreshed now, and no other entry changes; as the update step |
| Conntrack.ConnTable.CleanTimeout | oaf/src/fwx_conntrack.c:127-157 | The loop with its early end and wrap is the sweep step on values |
| OafLaws.PlacesAfter | oaf/src/fwx_conntrack.c:59-124 | Place by place: what a packet, an update and a new connection change |
| OafLaws.Swept | oaf/src/fwx_conntrack.c:127-157 | A sweep looks at six buckets from the last one on, up to bucket 255, drops from them exactly the entries whose wrapped limit has passed, and goes on or starts over |

## Left out

- QmapCopyDemux.RxHandler: buffers in which a frame that is taken has more pad than length are not covered, because the code then computes with a negative length.
- QmapCloneDemux.RxDevice.RxFixup: the same restriction; and receive buffers of different calls are different buffers, as the USB stack provides them.
- TxAggregator.InvAlways: the transmit calls of one channel come one at a time, as the stack makes them; a frame longer than the size limit is never put into a new buffer, as the kernel stops there (it may go out directly); the device queue is entered in the order in which the lock is left.
- TxAggregator.Channel.StoreSettings: the three settings change in one step; the receive padding they include is a parameter of the receive side.
- TxAggregator.Channel.TransmitLocked: whether a packet is urgent (`rmnet_usb_tx_agg_skip`) and whether more follow are bits of the environment.
- QmiProxy.Serialised: runs contain no stray control messages while requests wait and no cleanup of a connection with a waiting request; QmiProxy.SerialStep says exactly what these break.
- QmiProxyServer.Server.AcceptConnection: descriptors are below 255, as the byte that keeps them cannot tell more, and allocations succeed.
- QmiTlv.GetTLV: bodies whose TLVs run past the end are excluded, as the code reads outside the message then.
- QmiProfile.ModifyProfileSettingsReq: the buffer has room for the last NUL; the code does not check it.
- QmiTransactions.NoStaleResponse: one sender at a time, as the command mutex is held across a send except inside its wait; the device echoes ids and uses 0 for indications.
- AppFilter.AppIdConfig.AddRange: ranges of at most 1024 ids that end at the largest int are excluded, as the loop counter overflows once all of them are in; negative ids are excluded, as they have no bucket.
- AppFilterRules.Filter.DeleteToken: ranges that end at the largest int are excluded, as this loop has no early end.
- AppFilterRules.Filter.Add: the count and id checks and the insertion are one step; the source makes the checks before it takes the lock.
- RecordWhitelist.ClientTable.SetWhitelist: addresses arrive parsed; the 1024-byte text buffer is not modelled.
- Conntrack.ConnTable.FindAndAdd: `jhash` is a parameter, any function of the key.
- Linked lists (`list_head`, `hlist`, `qlist_*`) are sequences; node addresses, freeing and memory layout are not modelled.
- Bridge-mode MAC rewriting, raw-IP device types, statistics, checksum offload and NSS paths of the driver.
- The proxy before its local server is up (`qmi_proxy_init`), service requests towards the device, and message contents beyond grants and releases.
- Splitting the CSS text by regular expressions, the removal of emptied rules and the minification: the model starts from declarations. Values tainted by animations are not modelled.
- JSON parsing and address parsing in front of the oaf tables, the separate application-filter whitelist, and the visit statistics of clients.
- Socket, poll, sysfs and device I/O, logging, procfs dumps, timers other than the aggregator's, CDMA operator codes, and the LuCI themes and applications themselves.
- Fields named `submitted`, `taken`, `issued`, `served`, `replies`, `routed`, `received`, `sent`, `returned`, `serial`, `number`, `muxCount`, `ctlCount`, `seen`, `born` and `stale` record history for the statements; the code does not have them.
