# A verified model of canopen's protocol core

canopen is a Python library for CANopen networks. This project models the parts of it whose
correctness does not show in any single function, and proves what they are for:

- **SDO transfers** (`Sdo*.dfy`). Client and server of section 7.2.4 of CiA 301, with the object store
  behind the server and a network that loses requests and responses between them. Segmented transfer
  is an alternating-bit protocol: what one request does to the server is a *handshake*, and one lemma
  about handshakes (`SdoNetwork.ExchangeOutcome`) carries all results over every run. `SdoWire` states
  the protocol in bytes, for the client against any server and for the server against any client.
- **Block transfer** (`Block*.dfy`, `Crc*.dfy`). The two stream objects against a server that follows
  section 7.2.4.3 of CiA 301, with partial acknowledgements, mutual recursion, resynchronisation and a
  running checksum, which is proved to be the remainder of a polynomial division.
- **LSS Fastscan** (`Lss.dfy`). The bit-by-bit search for an unknown slave, against any set of slaves
  as in CiA 305, on a reliable or a lossy bus.
- **Process data objects** (`Pdo*.dfy`). Variables packed at bit granularity through two code paths,
  and a configuration that is saved to a device, register by register, and read back.
- **Integer codecs and bit fields** (`Bits.dfy`, `Codecs.dfy`, `BitFields.dfy`). Python's unbounded
  integers are defined by their bits, negative numbers included.
- **The CiA 402 power-state walk** (`P402.dfy`), against a drive that sets the status bits of CiA 402 and
  makes every transition after any finite delay.

## How it is built

Every object whose methods update its fields is a class. Each of its methods is proved equal to a
function on a datatype with the same fields (`SdoServer` to `SdoService`, `SdoClient` to
`SdoNetwork`, `SdoDownload` and `SdoUpload`, the block streams to `BlockDownload` and `BlockUpload`,
`PdoMap` to `PdoLayout`, `PdoMapping` and `PdoConfig`), and the theorems are about those functions.
The functions follow the code's branches and error cases; the theorems are stated against independent
notions: prefixes of the data, bits of a buffer, the smallest identity of a set, the log of a device,
the bytes and words the standards define, written as numbers.

Whatever the environment decides is read from a script of arbitrary length: which requests and
responses are lost and when the other end runs, which segments of a block arrive, when a deadline has
passed. A time-out happens when the script says so or leaves nothing to read. Statements over every
script are statements over every run.

## What turned out not to hold

Where the code does not keep a property its documentation or the standard suggests, the model keeps
the code, and a lemma says exactly when the property holds.

- **A refused last download segment is appended twice.** When the object refuses the data, the server
  leaves its toggle bit as it was; if the abort is lost, the client's copy of the segment is appended
  again. `SafeExactlyWhenRegular` is the exact condition.
- **A segmented download may report success for data that is not stored as sent**, in two ways. The
  appended copy of a refused segment may make the data acceptable: then it is stored with the
  duplicate (`DuplicateIsStored`). And `close()` accepts any response, also a second answer to the
  initiate request: then an empty download stores nothing (`EmptyDownloadIsReportedEarly`).
  `HonestExactlyWhenTrustworthy` is the exact condition, over all runs and slicings, for every object,
  data and retry count.
- **Downloads one after another may be reported as complete although one is never served**: after an
  expedited download whose request was repeated, the late second answer is taken for that to the next
  download (`StaleAnswerLosesWrite`). Sessions are safe over all runs exactly when every request is
  sent once (`SessionsAreHonestIff`).
- **A read timeout in block upload loses seven bytes without an error** when no checksum is in use
  (`TimeoutLosesSegment`): the resynchronised segment goes through the sequence check a second time. A
  block response of the client that is lost makes the server repeat the block, and the client collects
  it twice (`LostResponseRepeatsBlock`). The losses alone decide which segments an upload returns
  (`BlockUploadMeetsFate`); if all block responses arrive, it returns the data exactly when they let it
  return all segments (`UploadIsWholeIff`).
- **A nested recovery in block download makes the checksum count bytes twice.** The inner recovery ends
  the outer one's retransmission mode, and the segments that did not fit into the block are counted
  again. The data itself still arrives exactly once. Each byte is counted once exactly when the block
  responses are `Clean` (`CountsOnceIffClean`). The number sent is the checksum of the bytes counted:
  it is wrong whenever these do not have the parity of the data (`OddExcessSpoilsChecksum`,
  `NestedLossSpoilsChecksum`), while data of zeros hides the excess (`ZerosKeepChecksum`).
- **A partially acknowledged final block is not sent again**: `write` refuses once the last segment
  has been handed over. Exactly then a block download raises although every response has come.
- **A block download of unannounced size never ends**: no segment is marked as the last, and the end
  request makes the server drop bytes it has (`UnannouncedNeverEnds`).
- **Signed PDO bit fields** are written correctly whatever surrounds them only when they end at the top
  of their container, and the smallest number reads back positive because of a strict comparison. The
  same position is needed for **bit fields of 24, 40, 48 and 56 bit types**, whose container is the
  wider integer of the struct format.
  **Byte-aligned PDO variables** are written correctly only when the mapped length is that of the type.
- **Saving a PDO whose mapping object is an array writes no mapping entry**, because iterating over the
  array asks the device for the entry count that has just been set to zero, unless the device refuses
  a count of zero.
- **Stored BOOLEAN objects** need not decode: the size check covers number types only. What clients
  store for an object always decodes if and only if it is not a writable BOOLEAN
  (`StoredValuesDecodeIff`).
- **Integer codecs of 24, 40, 48 and 56 bits** encode numbers that are too large without an error: what
  comes back is the number modulo the codec's width (`PackTruncates`).
- **The CiA 402 state setter raises** when an automatic transition becomes visible between the reading
  that chooses the next state and the reading that looks up its controlword, and only then. It also
  raises for the documented command `DISABLE VOLTAGE`, after enabling the drive. From QUICK STOP ACTIVE to
  SWITCHED ON, and only there, it does not take the shortest way (`WalkIsShortestIff`). The path table relies
  on substring search, because `('START')` is a string and not a tuple; no drive state is affected.

## Model

| member | source | states |
|---|---|---|
| SdoFrames.SpecifierIsMask | canopen/sdo/client.py:267 | masking the command byte with 0xE0 is 32 times the specifier the model works with |
| SdoFrames.ToggleIsMask | canopen/sdo/client.py:307 | the toggle bit of the model is the bit under the mask 0x10 |
| SdoFrames.UnusedIsMask | canopen/sdo/client.py:311 | the counts of unused bytes are the two shifted and masked fields of the command byte |
| SdoFrames.SegmentFields | canopen/sdo/client.py:409-424 | the command byte of a segment gives back specifier, toggle, unused bytes and end marker, and the frame its data |
| ObjectStore.LocalNode.FindObject | canopen/node/local.py:142-154 | finds the object of a cell, or raises the abort code for a missing index or subindex |
| ObjectStore.LocalNode.GetData | canopen/node/local.py:87-114 | stored value, else value, else default, else the abort code; only a missing read permission is checked before |
| ObjectStore.LocalNode.SetData | canopen/node/local.py:116-140 | stores at the addressed cell, or raises for a missing permission or a number of the wrong size and leaves the store alone |
| ObjectStore.ReadBack | canopen/node/local.py:87-140 | a write succeeds exactly when access rights and type allow it; then the cell reads back what was written, if readable, and every other cell what it held |
| ObjectStore.AcceptedSizes | canopen/node/local.py:116-136 | clients may write exactly to writable objects that exist, and to each number type exactly as many bytes as CiA 301 gives it |
| SdoServer.SdoServer.OnRequest | canopen/sdo/server.py:31-58 | one request leads to the state and the responses of the specification, exceptions turned into aborts included |
| SdoServer.SdoServer.InitUpload | canopen/sdo/server.py:60-85 | expedited response for one to four bytes, otherwise the size and a filled buffer |
| SdoServer.SdoServer.SegmentedUpload | canopen/sdo/server.py:87-111 | the next seven bytes leave the buffer, the toggle flips; a wrong toggle only draws an abort |
| SdoServer.SdoServer.InitDownload | canopen/sdo/server.py:134-158 | an expedited request writes the store, any other opens an empty buffer |
| SdoServer.SdoServer.SegmentedDownload | canopen/sdo/server.py:160-181 | the segment is appended, the last one writes the store, the toggle flips after that; a wrong toggle only draws an abort |
| SdoService.OneReply | canopen/sdo/server.py:31-58 | exactly one response to everything but an abort once an address is known; before, the exact set of unanswered requests; the state stays well-formed |
| SdoService.WrongToggleChangesNothing | canopen/sdo/server.py:88-90 | a segment with the wrong toggle leaves the whole state alone and draws the toggle abort |
| SdoService.StoreChangesOnlyByAcceptedWrites | canopen/sdo/server.py:134-181 | the store changes exactly by an expedited or final segment the object accepts, and only at the cell addressed |
| SdoService.RunKeepsInvariants | canopen/sdo/server.py:31-191 | over any run of requests the state stays well-formed and every stored number has exactly the size of its type |
| SdoService.StoredNumbersDecode | canopen/objectdictionary/__init__.py:436-456 | whatever clients send to a fresh server, decoding a stored number never fails |
| SdoService.StoredValuesDecodeIff | canopen/node/local.py:131-136 | whatever clients send to a fresh server, what is stored for an object decodes, if and only if the object is not a writable BOOLEAN |
| SdoService.BooleanTakesTwoBytes | canopen/node/local.py:131-136 | for every writable BOOLEAN of every dictionary, the one request after which it does not decode |
| SdoNetwork.ExchangeOutcome | canopen/sdo/client.py:86-101 | over every run a request with retries ends with its reply and the server one step further, with older noise, or with an exception and the server in one of two states; never is the request served to more effect than once |
| SdoNetwork.PromptExchange | canopen/sdo/client.py:86-101 | without losses an exchange is exactly one step of the server, and an abort response is raised with its code |
| SdoNetwork.AttemptsShortenScript | canopen/sdo/client.py:90-101 | an exchange uses up what happens on the network, and at least one event when it answers |
| SdoClient.SdoClient.ReadResponse | canopen/sdo/client.py:67-84 | the oldest response, a time-out, or the abort it carries |
| SdoClient.SdoClient.RequestResponse | canopen/sdo/client.py:86-101 | drops stale responses, sends, and retries on time-out until the last attempt, which sends an abort |
| SdoClient.WritableStream.Initiate | canopen/sdo/client.py:338-377 | expedited or segmented by size and force flag, announced size, and which response is accepted |
| SdoClient.WritableStream.Write | canopen/sdo/client.py:379-429 | dispatch between the finished, expedited and segmented stream |
| SdoClient.WritableStream.WriteExpedited | canopen/sdo/client.py:384-402 | too few bytes are not taken, otherwise the whole payload is sent and its response checked |
| SdoClient.WritableStream.WriteSegment | canopen/sdo/client.py:403-429 | up to seven bytes in one segment, last when the announced size is reached, toggle flipped before sending |
| SdoClient.WritableStream.Close | canopen/sdo/client.py:431-446 | an unfinished segmented transfer gets a terminating empty segment, whose response is not checked |
| SdoClient.ReadableStream.Initiate | canopen/sdo/client.py:236-281 | expedited data, or size and segmented transfer, and which responses raise |
| SdoClient.ReadableStream.Read | canopen/sdo/client.py:283-317 | one segment with toggle check and unused bytes, or the expedited data once |
| SdoClient.ReadableStream.ReadAll | canopen/sdo/client.py:283-317 | what all reads return together, up to the first empty one or the first exception |
| SdoClient.SdoClient.Upload | canopen/sdo/client.py:112-137 | opens, reads everything and cuts the data to the announced size |
| SdoClient.SdoClient.Download | canopen/sdo/client.py:139-164 | opens, presents what is left in slices of any lengths, closes |
| SdoDownload.SegmentedDownloadIsExactlyOnce | canopen/sdo/client.py:86-446 | over every run, up to the first exception: the server's buffer is a prefix of the data at most one segment ahead of the client, the store is untouched or holds the data, and a non-empty transfer that ends without exception has stored it |
| SdoDownload.FeedCountsSegments | canopen/sdo/client.py:403-429 | slices of at least seven bytes use exactly one seventh of the bytes, rounded up, in segments |
| SdoDownload.DownloadCountsSegments | canopen/sdo/client.py:338-446 | a segmented download that succeeds with slices of at least seven bytes has used one seventh of the bytes, rounded up, in segments |
| SdoDownload.ExpeditedDownloadIsExactlyOnce | canopen/sdo/client.py:358-402 | over every run an expedited download stores its data or nothing, and reports success only for the former |
| SdoDownloadRuns.PromptSegmentedDownload | canopen/sdo/client.py:338-446 | without losses every accepted segmented download succeeds, however it is sliced |
| SdoDownloadLimits.SafeExactlyWhenRegular | canopen/sdo/server.py:160-181 | prefix safety holds over all runs and slicings if and only if a refused last segment cannot be served twice or carries nothing |
| SdoDownloadLimits.RefusedSegmentIsAppendedTwice | canopen/sdo/server.py:160-181 | the run that breaks it, for every refused object, every data and every retry count above one |
| SdoDownloadHonesty.HonestExactlyWhenTrustworthy | canopen/sdo/client.py:379-446 | success means stored, over all runs and slicings, if and only if there is a single attempt; or the object accepts the data, which is not empty or was there already; or it refuses it, the data is not empty, and no announced download could be taken with copies of its last segment |
| SdoDownloadHonesty.DuplicateIsStored | canopen/sdo/server.py:160-181 | the run that breaks it for refused data: success is reported, and the object holds the data followed by copies of its last segment |
| SdoDownloadHonesty.RefusedDownloadRaises | canopen/sdo/client.py:403-429 | an announced download of refused data that no copies make acceptable never takes its last bytes, over all runs and slicings |
| SdoDownloadHonesty.EmptyDownloadIsReportedEarly | canopen/sdo/client.py:431-446 | the run in which an empty download ends without exception and nothing is stored |
| SdoUpload.SegmentedUploadIsPrefix | canopen/sdo/client.py:283-317 | over every run, also with answers to an earlier download still under way, the client's bytes are a prefix of the object and the server, which deletes what it sends, is at most one segment ahead; without exception they are the object |
| SdoUpload.UploadReturnsObject | canopen/sdo/client.py:112-137 | over every run, and whatever kind of response the server chooses, an upload without exception returns what the node holds, and no upload changes the store |
| SdoRoundTrip.LossyRoundTrip | canopen/sdo/client.py:112-164 | whatever the network loses or delays in either transfer: when a download of at least one byte and an upload of the same cell both end without exception, the same bytes come back, where the success of the download can be trusted |
| SdoRoundTrip.PromptDownload | canopen/sdo/client.py:139-164 | over a network that loses and delays nothing, every download the object accepts succeeds and leaves exactly the data at the cell |
| SdoRoundTrip.PromptUpload | canopen/sdo/client.py:112-137 | over a network that loses and delays nothing, an upload of any readable object of 1 to 2^32-1 bytes succeeds and returns it |
| SdoRoundTrip.UploadOfObject | canopen/node/local.py:87-114 | an upload returns what was written last, else the configured value whatever the default, else the default; the abort codes of an unreadable object, of one without data, of empty and of too much data |
| SdoRoundTrip.UploadOfNothing | canopen/node/local.py:142-154 | an upload of a missing index or subindex raises its abort code |
| SdoRoundTrip.RefusedDownload | canopen/node/local.py:116-154 | every download the object does not accept, of any kind and slicing, raises the abort code that says why and leaves the store alone |
| SdoRoundTrip.RoundTrip | canopen/sdo/client.py:112-164 | over a network that loses and delays nothing, download, then upload succeed and return the same bytes, for every legal length, kind of transfer and slicing |
| SdoSession.SessionIsFold | canopen/sdo/client.py:112-164 | over every run, any sequence of downloads and uploads of any cells, every request sent once: up to the first exception the store is the fold of the downloads, and each upload has returned what the node held at that time; the transfer that fails may have been done |
| SdoSession.StaleAnswerLosesWrite | canopen/sdo/client.py:86-101 | the run that breaks it with retries, for every accepted expedited download followed by any other: the second is reported as complete and never served |
| SdoSession.SessionsAreHonestIff | canopen/sdo/client.py:86-164 | on a node with an object that takes one to four bytes, complete sessions leave the fold of their downloads over all runs if and only if every request is sent once |
| SdoWire.AddressesAreLittleEndian | canopen/sdo/constants.py:6 | command, index and subindex in the first four bytes of a frame, the index least significant byte first |
| SdoWire.UploadOpens | canopen/sdo/client.py:249-281 | how the client takes every possible response to its upload request, by the bytes of the response |
| SdoWire.ExpeditedUploadTakesResponse | canopen/sdo/client.py:264-271 | from any server, an expedited upload returns the data bytes of the response: all four when it does not say how many are used |
| SdoWire.UploadReads | canopen/sdo/client.py:294-317 | how the client takes every possible response to a segment request, and which abort frame it sends |
| SdoWire.SegmentedUploadJoins | canopen/sdo/client.py:112-137 | from any server, the segments of whatever lengths are returned joined, up to a size that was announced and is not zero |
| SdoWire.DownloadOpens | canopen/sdo/client.py:347-357 | the bytes of the request that opens a download, and how every possible response to it is taken |
| SdoWire.ExpeditedDownloadInBytes | canopen/sdo/client.py:358-402 | the bytes of an expedited download, and how every possible response to it is taken |
| SdoWire.SegmentedDownloadInBytes | canopen/sdo/client.py:338-446 | to any server that confirms what it is sent, a segmented download puts exactly these frames on the wire, for every slicing |
| SdoWire.UnansweredRequest | canopen/sdo/client.py:86-101 | a request that nobody answers is sent as often as there are attempts, then aborted as timed out |
| SdoWire.NothingIsSent | canopen/sdo/client.py:338-402 | sizes beyond 32 bits, writes after the end and slices of the wrong length for an expedited download put nothing on the wire; which of them raise |
| SdoWire.ServerSendsSegments | canopen/sdo/server.py:60-111 | whoever asks for an object of more than four bytes is told its size and sent it in pieces of seven, with alternating toggle and the last one marked |
| SdoWire.ServerStoresSegments | canopen/sdo/server.py:134-181 | whoever sends accepted data in segments of any lengths, with or without its size, has each of them confirmed and the data stored |
| SdoWire.OtherCommandsAreRefused | canopen/sdo/server.py:31-58 | an abort is noted, any other command draws its abort frame |
| Crc.CrcOfConcatenation | canopen/sdo/base.py:13-23 | feeding two pieces in turn is feeding their concatenation |
| Crc.CrcKeepsParity | canopen/sdo/base.py:13-23 | the polynomial keeps parity: the number of one bits of a checksum is odd exactly when that of the data is |
| Crc.CrcIsRemainder | canopen/sdo/base.py:13-23 | the checksum of any data is the one word that is left when the bits of the data, followed by sixteen zeros, are divided by x^16 + x^12 + x^5 + 1 |
| CrcDivision.RestIsUnique | canopen/sdo/base.py:13-23 | factor and rest of such a division are determined |
| Crc.CheckValues | canopen/sdo/base.py:13-23 | the check value 0x31C3 of the nine digits, and the divisor itself for a single one |
| Crc.CrcXmodem.Process | canopen/sdo/base.py:19-20 | the running value stays the checksum of everything processed so far |
| Crc.CrcXmodem.Final | canopen/sdo/base.py:22-23 | the checksum of everything processed |
| BlockDownloadStream.BlockDownloadStream.Write | canopen/sdo/client.py:684-708 | raises after the last segment, sends the last segment at the announced size, ignores short slices, sends seven bytes otherwise |
| BlockDownloadStream.BlockDownloadStream.Send | canopen/sdo/client.py:710-743 | one segment on the wire and a wait for the response when the block is full |
| BlockDownloadStream.BlockDownloadStream.BlockAck | canopen/sdo/client.py:748-774 | a complete block is forgotten, a partial one is retransmitted with the new block size |
| BlockDownloadStream.BlockDownloadStream.Retransmit | canopen/sdo/client.py:776-795 | the position goes back over what was not acknowledged, which is written again through the mutual recursion |
| BlockDownloadStream.BlockDownloadStream.EndFrame | canopen/sdo/client.py:797-814 | unused bytes of the last segment and the checksum in the end request |
| BlockDownload.BlockDownloadIsExactlyOnce | canopen/sdo/client.py:684-795 | for every sequence of acknowledgements: acknowledged bytes plus current block are the data up to the position, the block has as many segments as the sequence number says and fewer than the block size, and a finished transfer has delivered exactly the data in correctly numbered segments, the last of them marked |
| BlockDownload.FinalBlockIsNotResent | canopen/sdo/client.py:696-697 | a partially acknowledged final block raises and resends nothing |
| BlockDownloadFate.BlockDownloadMeetsFate | canopen/sdo/client.py:684-795 | the responses alone decide every transfer: it raises for a missing response only when they have run out, refuses to send again exactly when the last block loses a segment, and otherwise delivers exactly the data; then they also decide exactly which bytes the checksum has counted |
| BlockDownloadFate.CountsOnceIffClean | canopen/sdo/client.py:732-795 | the checksum counts each byte once if and only if no segment is lost while more wait to be resent than the block has room for; otherwise it counts more |
| BlockDownloadFate.EndFrameFitsData | canopen/sdo/client.py:797-814 | after every delivery the unused-byte count trims the acknowledged segments to exactly the data, and the number sent is the checksum of the bytes counted; the whole frame, byte by byte |
| BlockDownloadChecksum.CleanKeepsChecksum | canopen/sdo/client.py:732-814 | with clean responses the number sent is the checksum of the data |
| BlockDownloadChecksum.OddExcessSpoilsChecksum | canopen/sdo/client.py:732-814 | whenever the bytes counted do not have the parity of the data, the number sent is not the checksum of the data |
| BlockDownloadChecksum.ZerosKeepChecksum | canopen/sdo/client.py:732-814 | for data of zeros the number sent is right whatever the responses |
| BlockDownloadFate.EnoughResponses | canopen/sdo/client.py:748-795 | with a response for every segment and one more for every loss, no transfer runs out of responses |
| BlockDownloadFate.GenerousIsClean | canopen/sdo/client.py:776-795 | new blocks large enough for what is resent make the checksum count each byte once |
| BlockDownloadFate.LosslessIsDelivered | canopen/sdo/client.py:684-774 | without losses every transfer delivers the data and counts it once, for every choice of block sizes |
| BlockDownloadChecksum.NestedLossSpoilsChecksum | canopen/sdo/client.py:776-814 | a run of three responses, for every four segments of which the third has an odd number of one bits: the transfer ends, the server has exactly the data, and the number it is sent is not its checksum |
| BlockDownloadChecksum.NestedLossSpoilsOneBit | canopen/sdo/client.py:776-814 | such a transfer of twenty-eight bytes |
| BlockDownloadFate.UnannouncedNeverEnds | canopen/sdo/client.py:697-708 | without an announced size the server has a prefix of the data, the stream is never done, and the end request never leaves the server with the data |
| BlockUploadStream.BlockUploadStream.Read | canopen/sdo/client.py:515-558 | nothing when done; otherwise a frame or the resynchronised one goes through the sequence check |
| BlockUploadStream.BlockUploadStream.CheckSequence | canopen/sdo/client.py:533-558 | the expected number is accepted, any other leads to a retransmission |
| BlockUploadStream.BlockUploadStream.Retransmit | canopen/sdo/client.py:560-575 | acknowledges, then skips frames until the first of the new block, the deadline, or a time-out |
| BlockUploadStream.BlockUploadStream.AckBlock | canopen/sdo/client.py:577-583 | the server goes on behind the acknowledged segments, or ends the transfer; a response that is lost leaves it where it was |
| BlockUploadStream.BlockUploadStream.AcceptLast | canopen/sdo/client.py:585-601 | the end frame is checked, trims the last segment and brings the server's checksum |
| BlockUpload.BlockUploadDeliversStream | canopen/sdo/client.py:515-583 | for every pattern of losses in both directions: without read time-outs the bytes are a prefix of the data and the checksum comparison never fails; a completed upload misses one segment for every time-out and repeats one for every segment whose acknowledgement was lost; if no acknowledgement is lost it returns the data if and only if no read timed out |
| BlockUploadFate.BlockUploadMeetsFate | canopen/sdo/client.py:515-601 | the losses alone, without the data, decide every upload: its exception, or the segments it returns and their order; a checksum raises exactly when that of these bytes is not that of the data |
| BlockUploadLosses.UploadIsWholeIff | canopen/sdo/client.py:515-601 | if no block response is lost, an upload ends without exception and with the data if and only if the losses let it return all segments |
| BlockUploadLosses.LossyUploadCompletes | canopen/sdo/client.py:515-601 | losses in any number of blocks that are revealed inside their block do no harm: the upload completes with the data, with and without a checksum |
| BlockUploadLosses.TimeoutLosesSegment | canopen/sdo/client.py:527-541 | the run, for every upload of two to 127 segments, in which one time-out costs the first seven bytes without an exception |
| BlockUploadLosses.LostResponseRepeatsBlock | canopen/sdo/client.py:527-583 | the run, for every upload of more than one block, in which a lost block response makes the client collect the block twice without an exception |
| BlockUpload.LosslessUploadCompletes | canopen/sdo/client.py:515-583 | without losses an upload completes with one reception for each segment and one for the end |
| BlockUpload.ReadTimesOut | canopen/sdo/client.py:527-541 | after a time-out the resynchronised segment fails the sequence check, and the read returns the segment behind it |
| BlockUpload.ResyncFindsFirst | canopen/sdo/client.py:560-575 | resynchronising returns only the first segment of the new block, and nothing of the abandoned block is left behind it |
| BlockUpload.EndFrameIsTaken | canopen/sdo/client.py:543-601 | how every frame that comes after the last segment is taken, from any server: as the end, as a wrong checksum, or as an error |
| Lss.LssMaster.SendCommand | canopen/lss.py:362-394 | stale responses are dropped, so an answer to a Fastscan is to this request; a time-out when nothing comes |
| Lss.LssMaster.SendFastScanMessage | canopen/lss.py:285-297 | on a reliable bus true exactly when a slave answers; on any bus true only then |
| Lss.PackedIsUnderstood | canopen/lss.py:285-287 | the packed message carries command specifier, identity number, bit check, sub and next where the slaves read them |
| Lss.LssMaster.ScanWord | canopen/lss.py:256-266 | the bit loop moves no slave and finds the smallest word among those still in the race, in 32 messages |
| Lss.LssMaster.FastScan | canopen/lss.py:244-283 | reliable bus: found exactly when a slave waits, the lexicographically smallest identity, exactly those slaves selected, 133 messages; lossy bus: a found identity is one of a waiting slave |
| Lss.MinimumIsUnique | canopen/lss.py:244-283 | at most one identity is the smallest, so the result is determined |
| Lss.SearchesEnumerate | canopen/lss.py:244-283 | repeated searches on a reliable bus find the identities of the waiting slaves in strictly increasing order, all of them and no others, in at most one search for each slave, until nobody waits |
| Lss.BitIsDecided | canopen/lss.py:259-266 | one answer decides one bit of the smallest word |
| Lss.ConfirmationIsHonest | canopen/lss.py:268-278 | with losses, a confirmed word belongs to a slave that matched all earlier words |
| PdoLayout.WriteIsExactIff | canopen/pdo/base.py:645-676 | for variables of any type and through either path, a write replaces exactly the bits of its field whatever surrounds them, if and only if the field is sound, the value fits it and the container lies in the buffer |
| PdoLayout.BitPathStores | canopen/pdo/base.py:655-674 | the bit path changes the container only, to the value shifted over the old bits, and raises exactly when that does not fit the type |
| PdoLayout.BitPathRaises | canopen/pdo/base.py:654-672 | the bit path raises for types that are no integers and for values and containers of another size |
| PdoLayout.CopyPathStores | canopen/pdo/base.py:673-674 | the copy puts in the bytes it is given, however many, and never raises |
| PdoLayout.ReadsBack | canopen/pdo/base.py:618-643 | a sound field reads back the value it holds, except exactly the smallest number of a signed field on the bit path, which comes back negated |
| PdoLayout.FieldReadsAsValue | canopen/pdo/base.py:618-643 | whoever wrote the buffer, an integer field inside its container, wherever it ends there, reads as the value it holds, with the same single exception |
| PdoLayout.ReadRaisesIff | canopen/pdo/base.py:618-643 | for which types, containers and lengths reading raises |
| PdoLayout.CopyReadsBytes | canopen/pdo/base.py:640-641 | an aligned variable reads as the bytes of its type, whatever its mapped length |
| PdoLayout.ExtendedIsValue | canopen/pdo/base.py:636-638 | sign extension recovers every number of the field but the smallest |
| PdoMapping.AddingExtendsLayout | canopen/pdo/base.py:505-540 | after any sequence of added variables the known ones lie back to back in order under their own addresses, and the buffer is zeroed and just large enough |
| PdoMapping.WritesDoNotInterfere | canopen/pdo/base.py:645-676 | after any interleaving of supported writes each variable holds its own last value, unwritten variables and all other bits are unchanged |
| PdoMapping.ReadsLastWrite | canopen/pdo/base.py:618-676 | and reads back that value, if and only if it is not the one signed exception |
| PdoWords.EntryRoundTrip | canopen/pdo/base.py:397-406 | a mapping entry gives back index, subindex and length, in both field orders, exactly when each has room |
| PdoWords.CobRoundTrip | canopen/pdo/base.py:370-375 | the COB-ID is read back exactly when it has at most 29 bits, and then both flags are too |
| PdoWords.CobWordIsSum | canopen/pdo/base.py:22-23 | bit 31 marks the PDO as not valid and bit 30 forbids RTR, beside the 29 bits of the identifier |
| PdoWords.EntryWordIsSum | canopen/pdo/base.py:465-469 | the word of a mapping entry, as a number, in both field orders |
| PdoWords.EntryFieldsAreDigits | canopen/pdo/base.py:397-406 | what is read from every mapping word, whoever wrote it, in both field orders |
| PdoConfig.SaveIsSafe | canopen/pdo/base.py:419-486 | whatever values the device refuses, in every prefix of the accepted writes, an early stop included, an entry is written only while the PDO is invalid and its count zero, if the device takes that, and the PDO becomes valid only with the final count, if the device takes that |
| PdoRegisters.SaveIsItsWrites | canopen/pdo/base.py:419-486 | on every device a save makes exactly these writes, by the configuration and what the device is like before, up to the first that the device does not take, and raises what that one raises; it completes if and only if all are taken |
| PdoRegisters.SaveMarksInvalidFirst | canopen/pdo/base.py:424-486 | the first write of a save has bit 31 of the COB-ID set, the write that enables the PDO is the last and has it cleared, and no other goes to the COB-ID |
| PdoRegisters.ReadTakesRegisters | canopen/pdo/base.py:353-411 | what a read takes from every device: identifier and flags from the bits of the COB-ID, timers only for event-driven transmission, one variable for each entry that maps a known object; and when it raises |
| PdoRoundTrip.MappingRoundTrip | canopen/pdo/base.py:353-486 | on every device, a completed save reads back as the same variables at the same offsets if every entry was reached and writable or was right before and surplus entries were overwritten or null; also only if, unless a null entry stays in front of surplus ones |
| PdoRoundTrip.MappingIsReadBackIff | canopen/pdo/base.py:353-486 | on every device, a completed save reads back as the same variables if and only if all entries the count left covers exist, and those that are written or stay add up to the map |
| PdoRoundTrip.CommunicationRoundTrip | canopen/pdo/base.py:370-394 | COB-ID, flags, transmission type and, for event-driven transmission, the timers are read back |
| PdoRoundTrip.SaveCompletes | canopen/pdo/base.py:419-486 | when the parameters are as wide as CiA 301 defines them and the device refuses none, every configuration whose values fit is saved without an exception |
| PdoRoundTrip.FixedCountRoundTrip | canopen/pdo/base.py:353-486 | on a device that refuses a count of zero and has enough writable entries, every completed save reads back whole: surplus entries are overwritten by dummies, which reading skips |
| PdoMap.PdoMap.Clear | canopen/pdo/base.py:500-503 | no variables, length zero, buffer kept |
| PdoMap.PdoMap.AddVariable | canopen/pdo/base.py:505-540 | the variable gets the next bits, an unknown object only a zeroed buffer; the layout stays back to back |
| PdoMap.PdoMap.GetData | canopen/pdo/base.py:618-643 | the bytes of the variable through its path, or the exception |
| PdoMap.PdoMap.SetData | canopen/pdo/base.py:645-676 | the new buffer through the variable's path; an exception leaves it alone |
| PdoMap.PdoMap.FillMap | canopen/pdo/base.py:283-291 | dummies up to the number needed |
| PdoMap.PdoMap.Disable | canopen/pdo/base.py:424-442 | the PDO is marked invalid, then the given writable settings are written |
| PdoMap.PdoMap.WriteMapping | canopen/pdo/base.py:444-482 | count zero or dummies, the entries that are reached and writable, the count |
| PdoMap.PdoMap.Save | canopen/pdo/base.py:419-486 | all writes in order up to the first exception, and the state afterwards |
| PdoMap.PdoMap.Read | canopen/pdo/base.py:353-411 | flags, identifier, settings and map of the device, or as much of them as is read before an exception for a missing parameter |
| Codecs.UnpackAcceptsItsSize | canopen/objectdictionary/datatypes.py:82-120 | decoding fails exactly on a wrong size |
| Codecs.UnpackThenPack | canopen/objectdictionary/datatypes.py:60-127 | every byte string of the right size decodes to a number in range that encodes back to it |
| Codecs.PackThenUnpack | canopen/objectdictionary/datatypes.py:60-127 | encoding and decoding give the number back if and only if it is in the range of the codec's own width |
| Codecs.PackTruncates | canopen/objectdictionary/datatypes.py:60-127 | whatever the struct format takes comes back as the number in the codec's own range that agrees with it modulo 2^width |
| Codecs.PackRaisesIff | canopen/objectdictionary/datatypes.py:60-127 | encoding raises exactly for numbers outside the next format of 8, 16, 32 or 64 bits |
| Codecs.LiteralAgreesWithWire | canopen/objectdictionary/eds.py:222-243 | exactly the literals of n signed or n unsigned bits are accepted, and they mean what the wire codec makes of their bytes |
| BitFields.BuildMask | canopen/objectdictionary/__init__.py:538-540 | the mask has exactly the listed bits, gaps and repeats allowed |
| BitFields.DecodeBits | canopen/objectdictionary/__init__.py:528-541 | the listed bits, shifted down to the lowest, and nothing else |
| BitFields.EncodeBits | canopen/objectdictionary/__init__.py:543-566 | each listed bit is replaced by its bit of the pattern, no other bit changes |
| BitFields.DecodingIsDetermined | canopen/objectdictionary/__init__.py:528-541 | the contract of decoding leaves exactly one result |
| BitFields.EncodingIsDetermined | canopen/objectdictionary/__init__.py:543-566 | the contract of encoding leaves exactly one result |
| BitFields.DecodeAfterEncode | canopen/objectdictionary/__init__.py:528-566 | reading a written field returns the pattern under the mask, and the pattern itself if and only if it has no bit outside |
| BitFields.EncodeAfterDecode | canopen/objectdictionary/__init__.py:528-566 | writing back what was read changes nothing |
| BitFields.DisjointFieldsCommute | canopen/objectdictionary/__init__.py:543-566 | writes to fields without a common bit commute and leave each other's readings alone |
| P402.EntriesAreDisjoint | canopen/profiles/p402.py:41-50 | no statusword matches two rows |
| P402.DecodesWhatIsShown | canopen/profiles/p402.py:41-50 | for every statusword and each of the eight states: the table decodes the state exactly when the bits of the statusword are those a drive in that state shows, and is at a loss exactly when no state shows them |
| P402.DecodeIgnoresOrder | canopen/profiles/p402.py:541-545 | the decoded state does not depend on the order of the table |
| P402.TableMatchesDrive | canopen/profiles/p402.py:63-87 | the table has a controlword exactly for the transitions a drive makes, each makes the drive do exactly that transition, and none carries other bits than its command |
| P402.IndirectPath | canopen/profiles/p402.py:53-104 | where the path table leads from each of the eight states, its strings searched as the code does |
| P402.NextStateAdvances | canopen/profiles/p402.py:558-568 | the chosen next state is a legal transition and nearer to the target |
| P402.WalkIsShortestIff | canopen/profiles/p402.py:53-104 | the walk is the shortest way the drive has to the target, except exactly from QUICK STOP ACTIVE to SWITCHED ON |
| P402.ChoiceIsLegal | canopen/profiles/p402.py:558-581 | a choice is missing exactly for DISABLE VOLTAGE in OPERATION ENABLED, and never asks for an automatic state except the pending one |
| P402.BaseNode402.GetState | canopen/profiles/p402.py:521-545 | the state of a drive that sets the status bits of CiA 402, whatever the unrelated bits of the statusword |
| P402.BaseNode402.ChangeState | canopen/profiles/p402.py:570-581 | the controlword of the transition takes the drive there; an illegal one raises |
| P402.BaseNode402.SetState | canopen/profiles/p402.py:547-581 | a commandable state is reached in the counted number of transitions, at most six, and the setter raises if and only if an automatic transition becomes visible between two of its readings |

## Left out

- The python-can bus, `Network`, notifier threads, periodic tasks, locks, callbacks, logging and the clock: time-outs and deadlines are read from scripts.
- `io.BufferedReader`, `io.BufferedWriter` and `open()`: the caller presents the remaining bytes in arbitrary slices and reads segment by segment.
- `MAX_RETRIES` of zero or less, which the client's loop takes as no limit, and the repetition of a send after a CAN error.
- Responses that overtake one another, other clients on the same SDO channel, and read and write callbacks of the local node.
- Names in the object dictionary, and the encoding of default values: the store holds bytes.
- The initiate exchanges of block transfer, and the message that closes a block upload: both block streams start behind the former, with the negotiated block size and checksum support.
- Servers that break section 7.2.4.3 of CiA 301 in block mode, for instance by acknowledging more segments than were sent.
- SdoDownload.SegmentedDownloadIsExactlyOnce: is about runs up to the first exception; what `close()` sends after a failure is not part of it.
- Lss.LssMaster.FastScan: soundness on a lossy bus is stated for slaves at position zero, where a search begins; with losses and slaves left half-way by an earlier search nothing is claimed.
- The other LSS services, and answers to a Fastscan that are late or come from nowhere; other messages from elsewhere are part of an unreliable bus.
- PdoMap.PdoMap.FillMap: the dummies get an offset at the end of the map, where the code leaves it undefined; they have no length and are never read.
- Refusals of a device that depend on its other registers: whether a write is refused depends on the register and the value.
- Reading a PDO configuration from the object dictionary instead of the device, subscription, and lookup of variables by name.
- The statusword of a drive does not change while one reading is being decoded, and faults, fault reset, homing and operation modes are not modelled.
- Timeouts of the CiA 402 setter: the drive makes each transition in time.
- EDS and EPF files except the signed literals, string types, floating point and physical scaling.
- NMT, SYNC, TIME, EMCY and node scanning.
