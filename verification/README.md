# Verified models of the BitTorrent client's core

This project models, in Dafny, the parts of the client whose behaviour is hard to see from any single function: the
disk layer, the encrypted transport, the Kademlia node, the bencode codec, the download state machine and the resource
policies. Coroutines are modelled as atomic steps between suspension points. Code that updates fields or buffers in
place is a class or a method with loops; each such method is proved against a function of the old state, and the
properties are proved of those functions over whole runs. SHA-1 is an arbitrary function parameter.

`dafny verify dfyconfig.toml` checks everything.

## What is proved

**Disk layer** (`Layout`, `DiskCache`). A torrent is a run of bytes cut independently into pieces and files. The overlap
table tiles every piece exactly, and a block written through the table is read back by the independent file scan, across
file boundaries, empty files and deselected files. The write-back LRU cache refines a plain byte store over every run of
piece writes, block reads and flushes, with the evictions they cause. A read longer than a block, which `verify_piece`
issues for a whole piece, is right whatever the files hold under dirty blocks if and only if it meets no dirty block; what it
leaves in the cache otherwise, and when it loses a write, is stated exactly (`DiskCache.CoherentIff`, `DiskCache.LostWriteIff`).
`drift` measures how far the size counter runs ahead of the cached bytes: a miss that overwrites a shorter entry adds the
new length without taking off the old one, and nothing else drifts; with whole-block reads the drift stays as it was.

**Transport** (`StreamCipher`, `Framing`, `WriteQueue`, `Mse`, `AsyncSocketModel`). RC4 undoes itself and may be applied in
any portions. For every interleaving of senders and every way the socket takes the bytes there is one drain at most, the
wire is whole frames in queue order, and the receiver gets exactly the messages sent, if and only if each is within the
size limit. The MSE initiator run against the acceptor ends in RC4 mode on both sides with matching streams, for all private
exponents and handshakes, if and only if the initiator's public key does not begin with 0x13. The header comment at
`src/Mse.hpp:15` says the initial payload is plain text when plain text is selected; the initiator decrypts it in either
case, and the model does what the code does.

**Kademlia** (`NodeId`, `Nearest`, `RoutingTable`, `Lookup`, `Krpc`). XOR distance to a fixed target is injective, bucket
numbers are distance ranges, every reachable routing table is filed correctly, `find_closest_nodes` returns exactly the
nearest nodes of the whole table, and each round of the iterative lookup leaves the nearest of everything seen so far. The
lookup asks, round by round, exactly the nearest nodes that it knows and has not asked, until there are none or three rounds
are over. A KRPC handler never runs twice, under all interleavings of its six completion sources, and has run exactly once when the
expiry timer is no longer armed and nobody is on the way to the completion. The timer is armed before the completion is
stored; the one exception is a timer that expires in between (eleven seconds later). Then the handler runs if and only if
somebody takes the query out of the table, and both outcomes are shown to occur. What each of a response, an error, a
cancellation, the cleanup sweep and shutdown takes out, and that it brings a registered query to its one handler run, is
stated for every reachable state (`Krpc.ExtractionEffect`, `Krpc.ExtractionSuffices`).

**Bencode** (`Bencode`). Decoding any encoding followed by anything gives the value back and consumes exactly the encoding;
encodings are prefix-free; re-encoding what was decoded gives the same bytes if and only if they were canonical, which is
what the info-hash relies on. For all bytes, canonical or not: a dictionary is the sorted map that holds of each key the first
value (`Bencode.DictMeaning`), and exactly which texts are read as integers and strings is stated (`Bencode.IntegerIff`,
`Bencode.StringIff`: leading zeros are allowed, and whatever follows the digits of a length up to the colon is ignored).

**Download state** (`Blocks`, `Download`, `Session`, `Rarity`, `Pipeline`, `Bitfield`). The block formulas of the four request
paths agree and tile every piece; deliveries in any order with any duplicates reassemble the piece and exactly one of them
finds it complete. Start-up verifies what a resume file claims, and after it every Have piece has bytes with the expected
digest, over every run. A start of a piece looks at its status, suspends to find peers, and does not look again: the counter
of completed pieces is the number of Have pieces if and only if no starter goes on with a piece that has become Have
(`Download.CounterRightIff`), and a run is given in which the session reports a complete download with a piece missing
(`Download.CompleteWithoutAll`). A needed piece that is started, and all of whose blocks arrive in any order with any
duplicates, ends up Have with exactly these bytes if their digest is right, and leaves the state as it was if not
(`Download.WholeDownload`). A reset (after an unusable resume file) also makes skipped pieces needed again. In every
run from every start-up a needed piece that somebody has is in the rarity group of its availability. That it is in no other
depends on the start-up (`Rarity.StartUpIff`: the index is not built after an unusable resume file, and not rebuilt after
verification) and on starters not going on with finished pieces (`Rarity.ProceedChange`, `Rarity.TwoGroups`). The pipeline
counters are the truth while every answer names a request in flight. A rejection that comes after its block makes the
unsigned difference underflow; the exact condition is given (`Pipeline.UnderflowIff`) and an example
(`Pipeline.LateRejection`).

**Resource policy** (`TokenBucket`, `Admission`, `Choke`). The token bucket bounds the bytes granted, serves waiters first come
first served and completes every caller once. Refills alone serve the first waiter if and only if the rate is at least ten
bytes a second and it asks for no more than the capacity; otherwise it holds up everybody behind it (`TokenBucket.ServedIff`).
Under the two locks of banning and admission, an address banned now has a live
connection only while the removal step of a ban on it is to come, and the connection limits hold; a ban keeps its address out
for its hour, whatever runs (`Admission.BanKeepsOut`). A choke pass leaves at most
twelve interested peers unchoked, the fastest first.

## Model

| member | source | states |
|---|---|---|
| Layout.BuildMaps | src/FileManager.cpp:154-217 | For every file list (empty files included) each piece is tiled by its overlaps, in file order, without gap or intersection, and each file lists the pieces that touch it |
| Layout.TilesExactlyOnce | src/FileManager.cpp:154-217 | Every byte of a tiled piece lies in exactly one overlap |
| Layout.PieceBounds | src/FileManager.cpp:159-172 | Pieces are adjacent, none is empty, and the last one ends with the torrent |
| Layout.AddressUnique | src/FileManager.cpp:165-210 | No two file positions have the same torrent address |
| Layout.WriteBlock | src/FileManager.cpp:749-797 | A block written through the overlap table changes exactly the file bytes at its torrent addresses, to the block's bytes |
| Layout.ReadScan | src/FileManager.cpp:70-106 | The file scan returns the bytes at the block's addresses, and fails if and only if one of them is beyond the end or deselected |
| Layout.WriteThenRead | src/FileManager.cpp:71-106 | What was written through the table is what the scan reads |
| DiskCache.FileManager.constructor | src/FileManager.hpp:110-123 | A fresh cache over any files of the right sizes is coherent, and its store is the files' content |
| DiskCache.FileManager.TouchCache | src/FileManager.cpp:718-725 | The key moves to the front of the recency list; list, index and cache have the same keys, each once |
| DiskCache.FileManager.EvictIfNeeded | src/FileManager.cpp:727-747 | Eviction takes least recent entries, writes dirty ones first, loses no byte of the store, and goes no further than the limit needs |
| DiskCache.FileManager.SyncWriteBlock | src/FileManager.cpp:749-797 | Writing one dirty block back changes the disk at its addresses only and leaves it clean |
| DiskCache.FileManager.WritePiece | src/FileManager.cpp:121-152 | The store takes the piece as a whole; the size counter exceeds the limit by at most a block |
| DiskCache.FileManager.PutDirty | src/FileManager.cpp:128-150 | One block of a write: the store takes it, it is cached and dirty, and its key is the most recent, with the survivors of the eviction behind it in their order |
| DiskCache.FileManager.ReadHit | src/FileManager.cpp:60-68 | A hit returns the store's bytes and moves its key to the front of the recency list, the others keeping their order |
| DiskCache.FileManager.ReadBlock | src/FileManager.cpp:56-119 | For any read: a hit returns the store's bytes, a miss what the files hold and leaves it under its key, unmarked; either way the key is the most recent; an aligned read inside its piece that hits or meets no dirty block returns the store's bytes and keeps everything coherent; it fails only on a miss that needs a deselected byte; how the size counter drifts |
| DiskCache.FileManager.SyncFlushAllDirty | src/FileManager.cpp:799-815 | Nothing is dirty afterwards, and with all files selected the files together are the store |
| DiskCache.FileManager.Run | src/FileManager.cpp:56-152 | Over every run of piece writes, block reads and flushes, each read answers what a plain byte store would; with whole-block reads the size counter is exact and bounded; a run that ends with a flush leaves nothing dirty and, with all files selected, the files are that store |
| DiskCache.BlockReadSafe | src/FileManager.cpp:56-69 | A read of at most one block never misses over a dirty block |
| DiskCache.CleanDiskIsStore | src/FileManager.cpp:799-815 | With nothing dirty and nothing deselected the files are the store |
| DiskCache.MissIsRightIffClean | src/FileManager.cpp:56-119 | The bytes that a missing read returns are right, whatever the files hold under dirty blocks, if and only if it meets none |
| DiskCache.CoherentIff | src/FileManager.cpp:108-116 | After a miss everything is right if and only if the entry it left is the store's bytes and the files hold every block that is not marked dirty |
| DiskCache.LostWriteIff | src/FileManager.cpp:112-115 | A miss erases the dirty mark of the block it starts at; files and dirty blocks still make up the store, whatever the files hold under dirty blocks, if and only if that block was not dirty |
| DiskCache.StaleRead | src/FileManager.cpp:373-385 | Otherwise there are files from which it reads something else |
| StreamCipher.AfterSum | src/Mse.hpp:78-86 | Advancing the keystream in portions is advancing it at once |
| StreamCipher.CryptedSplit | src/Mse.hpp:78-86 | Encrypting in portions is encrypting at once |
| StreamCipher.CryptedTwice | src/Mse.hpp:77-86 | Encrypting twice from the same state gives the data back |
| StreamCipher.AlwaysPermutation | src/Mse.hpp:56-92 | The cipher's table is a permutation after any key and any number of bytes |
| StreamCipher.Rc4.Init | src/Mse.hpp:60-75 | The key schedule on the array computes the keyed state |
| StreamCipher.Rc4.Crypt | src/Mse.hpp:78-86 | Encrypting a buffer in place computes the keystream function and advances the state by the buffer's length |
| Framing.ReceiveFrame | src/AsyncSocket.hpp:67-102 | A frame within the limit is received as its message, consuming exactly the frame, whatever follows and whatever the cipher |
| Framing.RefuseFrame | src/AsyncSocket.hpp:83-96 | A frame over the limit is refused after its length |
| Framing.ReceiveSent | src/AsyncSocket.hpp:67-102 | From whole frames the receiver yields exactly the messages before the first oversized one, keep-alives included |
| Framing.ReceivePrefix | src/AsyncSocket.hpp:83-102 | From a stream cut anywhere the receiver yields a prefix of the messages |
| WriteQueue.InvStep | src/AsyncSocket.hpp:181-261 | Every step of senders, drain and socket keeps one drain at most and the wire an encryption of the frames taken, in queue order |
| WriteQueue.InvRun | src/AsyncSocket.hpp:181-261 | So does every run, including runs in which the socket fails |
| WriteQueue.WireIsFrames | src/AsyncSocket.hpp:181-245 | The wire is whole encrypted frames in queue order and then part of one more; all of them once the drain is done |
| WriteQueue.CanDrain | src/AsyncSocket.hpp:181-245 | From every reachable state in which the socket has not failed, the drain alone brings every message sent onto the wire |
| WriteQueue.FailDrops | src/AsyncSocket.hpp:246-261 | A failed write drops what is queued and ends the drain; the next sender starts a new one |
| WriteQueue.EndToEnd | src/AsyncSocket.hpp:67-102 | For every interleaving the receiver gets a prefix of the messages sent, and all of them once drained, if and only if all are within the size limit |
| Mse.SharedSecret | src/Mse.hpp:139-195 | Both sides compute the same secret from each other's public key |
| Mse.ScanAtStart | src/AsyncSocket.hpp:395-418 | Scanning for a pattern that the stream begins with finds it at once |
| Mse.ScanDecides | src/AsyncSocket.hpp:402-417 | Every stream gives a scan something to report, so the hypotheses on scan results below can always be met |
| Mse.AcceptsAnyOffer | src/AsyncSocket.hpp:547-593 | The acceptor on any well-formed offer takes exactly its bytes, ends in RC4 mode whenever bit 1 is offered, in plaintext mode if only bit 0 is, and fails if neither is |
| Mse.AcceptsOffer | src/AsyncSocket.hpp:535-601 | The acceptor, given the initiator's encrypted offer, selects RC4 and takes exactly its bytes |
| Mse.FinishesOnAnswer | src/AsyncSocket.hpp:419-463 | The initiator on any encrypted answer, padding included: its mode is the method selected, and it fails on any but the two it offered |
| Mse.NoHandshake | src/AsyncSocket.hpp:341-352 | An initiator without a whole handshake sends nothing |
| Mse.InitiatorFinishes | src/AsyncSocket.hpp:395-463 | The initiator, given the acceptor's reply, ends in RC4 mode with the peer's handshake |
| Mse.AcceptorMeetsInitiator | src/AsyncSocket.hpp:465-601 | The acceptor ends in RC4 mode on the initiator's offer if and only if its first byte is not 0x13 |
| Mse.WrongTorrent | src/AsyncSocket.hpp:520-534 | The acceptor refuses an initiator that is after a torrent whose key has another hash |
| Mse.HandshakeMeets | src/AsyncSocket.hpp:341-601 | For all private exponents and handshakes, unless the initiator's key begins with 0x13, both sides end in RC4 mode with each other's handshake, having taken exactly the negotiation's bytes, and each encrypts with the state the other decrypts with |
| AsyncSocketModel.AsyncSocket.FillBuffer | src/AsyncSocket.hpp:305-321 | However the stream is chunked and the buffer compacted, the unread bytes stay the same; it succeeds if and only if the stream has enough, and buffers less than a chunk more than needed |
| AsyncSocketModel.AsyncSocket.ConsumeBytes | src/AsyncSocket.hpp:323-328 | Consuming takes exactly the first unread bytes |
| AsyncSocketModel.AsyncSocket.ReceiveMessage | src/AsyncSocket.hpp:83-102 | On any chunking, receiving one message is the receiver function on the unread bytes, and advances stream and cipher by what it took |
| AsyncSocketModel.AsyncSocket.ReceiveMessages | src/AsyncSocket.hpp:83-102 | Receiving until the end yields what the receiver function yields on the whole stream |
| AsyncSocketModel.AsyncSocket.Scan | src/AsyncSocket.hpp:400-418 | The incremental pattern search reports the first occurrence, or that there is none within the limit, and never buffers a chunk more than the limit |
| AsyncSocketModel.AsyncSocket.MseHandshakeInitiator | src/AsyncSocket.hpp:341-463 | On any chunking the method sends, takes, selects and sets up streams as the initiator function says, in success and in failure |
| AsyncSocketModel.AsyncSocket.MseHandshakeAcceptor | src/AsyncSocket.hpp:465-601 | Likewise the acceptor |
| Bencode.RoundTrip | src/Bencode.cpp:139-203 | Decoding an encoding followed by anything gives the value and leaves exactly what followed |
| Bencode.PrefixFree | src/Bencode.cpp:173-203 | No encoding is a proper prefix of another, and different values encode differently |
| Bencode.DecodedIsValid | src/Bencode.cpp:139-171 | What is decoded is a value the encoder accepts: integers in 64 bits, keys unique and sorted |
| Bencode.EncodedIsCanonical | src/Bencode.cpp:173-203 | Encodings are canonical: minimal decimals, strictly ascending keys |
| Bencode.CanonDecodes | src/Bencode.cpp:139-171 | Canonical bytes decode, to a value that encodes to them |
| Bencode.ReencodeIffCanonical | src/TorrentFile.hpp:129-138 | Re-encoding what was decoded gives the original bytes if and only if they were canonical |
| Bencode.EmplaceMembers | src/Bencode.cpp:128 | Insertion adds the entry exactly when its key is new, and nothing else changes |
| Bencode.DictMeaning | src/Bencode.cpp:118-137 | For all bytes the decoded dictionary is sorted and holds exactly the pairs before which no pair has the same key; it fails exactly when the pairs cannot be read |
| Bencode.AnyOrder | src/Bencode.cpp:118-137 | Pairs encoded in any order with repeated keys decode to the sorted dictionary of first values, and exactly their bytes are consumed |
| Bencode.IntegerIff | src/Bencode.cpp:76-97 | An integer is accepted if and only if an optional minus sign and digits, within 64 bits, run up to the end mark; leading zeros and minus zero included |
| Bencode.StringIff | src/Bencode.cpp:49-74 | A string is accepted if and only if the text of its length stands first; what follows it up to the colon is ignored |
| Bencode.Refused | src/Bencode.cpp:139-171 | What begins like no value is refused, and so is anything after a value |
| Bencode.ParseValue | src/Bencode.cpp:139-154 | The span-advancing decoder computes the decoding function, with its errors |
| Bencode.ParseList | src/Bencode.cpp:99-116 | The list loop computes the decoding function, with its errors |
| Bencode.ParseDict | src/Bencode.cpp:118-137 | For all bytes the dictionary loop fails exactly when the pairs cannot be read up to the end mark, with that error, and otherwise gives the sorted dictionary with the first value of each key |
| NodeId.LexIsNumeric | src/Kademlia.hpp:64-75 | Comparing distances byte by byte is comparing them as numbers |
| NodeId.DistInjective | src/Kademlia.hpp:64-75 | No two identifiers are equally far from a target, and only the target is at distance zero |
| NodeId.GetBucketIndex | src/Kademlia.hpp:77-88 | The loop finds the number of leading zero bits of the distance |
| NodeId.BucketRange | src/Kademlia.hpp:77-88 | Bucket i holds exactly distances from 2^(159-i) up to 2^(160-i) |
| Nearest.SortAndCut | src/Kademlia.hpp:475-478 | Sorting by distance and cutting leaves exactly the k nearest, nearest first |
| Nearest.MergeNearest | src/Kademlia.hpp:937-957 | The nearest of what was kept and what is new are the nearest of everything seen |
| RoutingTable.AddedEffect | src/Kademlia.hpp:327-366 | Who is in a bucket after an insertion: the new node if and only if there is room or a Bad node, and every other entry unchanged unless it was Bad and made way |
| RoutingTable.AddedKnown | src/Kademlia.hpp:334-345 | Inserting a node that is in the bucket moves it to the end with its new contact data; the others keep their order |
| RoutingTable.AddedReplaces | src/Kademlia.hpp:350-361 | In a full bucket the first Bad node, and only it, makes way |
| RoutingTable.UpdatedEffect | src/Kademlia.hpp:402-426 | A status update changes exactly the status and reply time of its node and, as the code does, its place; no other entry changes |
| RoutingTable.AppliedElsewhere | src/Kademlia.hpp:379-426 | Neither operation touches any bucket but that of its identifier |
| RoutingTable.BadMakesRoom | src/Kademlia.hpp:350-361 | After a node has been marked Bad, an unknown identifier of its bucket is accepted |
| RoutingTable.AppliedOk | src/Kademlia.hpp:379-426 | Both operations keep the table: at most K distinct identifiers a bucket, never our own, each in its bucket |
| RoutingTable.LeavesOnlyIfReplaced | src/Kademlia.hpp:350-361 | One operation removes an identifier only by replacing it in a full bucket while it is marked Bad |
| RoutingTable.EntersOnlyIfInserted | src/Kademlia.hpp:379-426 | An identifier appears only by being inserted |
| RoutingTable.EveryRun | src/Kademlia.hpp:327-426 | The table invariant, with distance ranges, after every run of operations |
| RoutingTable.GoneOnlyIfReplaced | src/Kademlia.hpp:327-426 | Over any run, an identifier that is gone was replaced at some step, marked Bad at that step |
| RoutingTable.RouteTable.constructor | src/Kademlia.hpp:100-105 | A new table is empty and well-formed |
| RoutingTable.RouteTable.Insert | src/Kademlia.hpp:379-400 | The method keeps the invariant and does what the operation function says |
| RoutingTable.RouteTable.UpdateStatus | src/Kademlia.hpp:402-426 | The method keeps the invariant and does what the operation function says, whose effect `RoutingTable.UpdatedEffect` states |
| RoutingTable.RouteTable.FindClosestNodes | src/Kademlia.hpp:428-481 | The outward scan returns exactly the k entries of the whole table nearest the target, sorted and distinct |
| Lookup.Absorb | src/Kademlia.hpp:937-950 | Merging a round's discoveries: result and plan get each new identifier once, and all of them are marked |
| Lookup.Round | src/Kademlia.hpp:905-965 | After a round the result is the nearest of everything reported so far, the identifiers marked are those marked before and all reported but our own, and the next nodes to ask are exactly the ALPHA nearest of the new ones |
| Lookup.FindNodes | src/Kademlia.hpp:829-967 | For arbitrary replies: the result is the `count` nearest among the usable initial nodes and all reported ones; each round asks exactly the ALPHA nearest identifiers that are known and unasked, and rounds end only after three, at shutdown or when there are none; no identifier is asked twice |
| Krpc.NextInv | src/Kademlia.hpp:239-276 | Every step keeps: completed exactly when somebody has run or is about to run the handler; not completed only while the timer or a caller is on its way |
| Krpc.EveryRun | src/Kademlia.hpp:685-735 | So does every interleaving |
| Krpc.AtMostOnce | src/Kademlia.hpp:717-723 | No handler runs twice, even with colliding transaction identifiers |
| Krpc.NeverStranded | src/Kademlia.hpp:246-252 | A query not completed has its timer armed or a caller about to complete it, in the map or orphaned |
| Krpc.ExactlyOnce | src/Kademlia.hpp:239-276 | At rest (timer not armed, nobody on the way) the handler has run exactly once, unless the timer expired before the completion was stored; then if and only if somebody took the query out of the table |
| Krpc.MissedForGood | src/Kademlia.hpp:262-276 | A run in which the timer expires first and the handler never runs |
| Krpc.MissedAndAnswered | src/Kademlia.hpp:1638-1655 | A run in which the timer expires first and a response still runs the handler once |
| Krpc.TimerSuffices | src/Kademlia.hpp:259-276 | From every reachable state the timer alone brings a waiting query to its one handler run |
| Krpc.ExtractionEffect | src/Kademlia.hpp:534-551 | In every reachable state a response or error, a cancellation, the sweep and shutdown take exactly the affected identifiers out of the table, give each query registered under one of them one more caller, and change nothing else |
| Krpc.ExtractionSuffices | src/Kademlia.hpp:1638-1670 | In every reachable state each of these steps brings a registered query that is not completed to its one handler run |
| Krpc.CallSuffices | src/Kademlia.hpp:239-276 | So does anybody who is about to invoke its completion |
| Krpc.OnceOnly | src/Kademlia.hpp:259-276 | The timer fires once, and a caller that finds the query completed changes nothing |
| Krpc.TableEffect | src/Kademlia.hpp:717-735 | Registering puts the query under its identifier, erasing takes it out and calls nobody, and shutdown cancels the timer of a swept query |
| Pipeline.TrackOk | src/PeerConnection.cpp:447-560 | Every event keeps the cap, the full window, first-in first-out order and, while answers name requests in flight, exact counters |
| Pipeline.EveryRun | src/PeerConnection.cpp:250-286 | The same after every run; in-flight bytes stay below 8 MiB plus one request |
| Pipeline.FlushSends | src/PeerConnection.cpp:488-524 | A flush sends requests from the front of the queue: none while choked, otherwise until the queue is empty or the window full, and no more |
| Pipeline.NothingLost | src/PeerConnection.cpp:447-609 | Over any event no request is lost or sent twice: only a new one adds one, only a cancel in the queue or a choke takes any away |
| Pipeline.ChokedSendsNothing | src/PeerConnection.cpp:249-275 | Once choked, no answer sends anything until the unchoke |
| Pipeline.ChokeRestores | src/PeerConnection.cpp:249-275 | A choke starts the account afresh: nothing in flight, nothing queued, no underflow |
| Pipeline.UnderflowIff | src/PeerConnection.cpp:547-560 | A rejection makes requested minus received underflow if and only if something was received and the rejection is for more bytes than are in flight; a completion never does |
| Pipeline.UnderflowLooksFull | src/PeerConnection.cpp:455-460 | After an underflow the window looks full and nothing is sent |
| Pipeline.LateRejection | src/PeerConnection.cpp:526-560 | A rejection that comes after its block leaves nothing in flight and a window that looks full |
| Pipeline.PeerConnection.FlushPendingRequests | src/PeerConnection.cpp:488-524 | The loop sends from the front of the queue while unchoked and the window has room |
| Pipeline.PeerConnection.SendRequest | src/PeerConnection.cpp:447-463 | Sends if the window has room and queues otherwise, choked or not |
| Pipeline.PeerConnection.GiveBack | src/PeerConnection.cpp:472-483 | Takes a request that will not be answered off the counters and flushes |
| Pipeline.PeerConnection.OnRequestCompleted | src/PeerConnection.cpp:526-545 | Credits the bytes, clamped to what was requested, and flushes |
| Pipeline.PeerConnection.OnRequestRejected | src/PeerConnection.cpp:547-560 | Takes the request off the counters and flushes |
| Pipeline.PeerConnection.SendCancel | src/PeerConnection.cpp:583-609 | Removes the request from the queue, or takes it off the counters and sends a cancel if it is not there |
| Pipeline.PeerConnection.OnChoke | src/PeerConnection.cpp:249-275 | Clears queue and counters |
| Pipeline.PeerConnection.OnUnchoke | src/PeerConnection.cpp:276-286 | Flushes the queue |
| Blocks.SizesAgree | src/PieceManager.cpp:377-380 | The two piece-size formulas agree with each other and with the disk layer on every piece |
| Blocks.BlocksTile | src/PieceManager.cpp:466-470 | The two block-length formulas agree, and the blocks tile every piece, the last one included |
| Blocks.Reassembly | src/TorrentSession.cpp:1097-1120 | In any order and with any duplicates: the count is the number of flags, a flag is set if and only if its block came, and the bytes are those of the first delivery |
| Blocks.ObservedOnce | src/TorrentSession.cpp:1107-1120 | Exactly one delivery finds the piece complete once all blocks have come, and none before |
| Blocks.WholePiece | src/TorrentSession.cpp:1107-1120 | A complete piece is its blocks in order |
| Blocks.InProgressPiece.constructor | src/Utils.hpp:734-740 | A new piece has one unset flag for each block |
| Blocks.InProgressPiece.OnBlock | src/TorrentSession.cpp:1104-1120 | The locked part of a delivery updates buffer, flag and count and reports completion; a block that overruns the piece is refused, and it tells which do |
| Bitfield.AddBit | src/SessionState.hpp:96-107 | Adding a power of two where the bit is clear sets that bit and no other |
| Bitfield.FromFlags | src/SessionState.hpp:96-107 | The bitfield has exactly the bits of the flags |
| Download.DeliveredOk | src/TorrentSession.cpp:1104-1120 | A complete piece takes no more blocks, and a piece becomes complete exactly by the delivery that observes it |
| Download.OneCompleter | src/TorrentSession.cpp:1104-1120 | No delivery completes a piece that is already being hashed, returned, written or announced |
| Download.NextOk | src/TorrentSession.cpp:1080-1174 | Every step, in any interleaving, keeps blocks counted right, one coroutine completing a piece, digests of Have pieces, and the counter equal to the Have pieces plus those that starters overwrote |
| Download.EveryRun | src/TorrentSession.cpp:1080-1192 | The same after every run |
| Download.ReturnEffect | src/PieceManager.cpp:701-713 | A returned piece is needed, has neither entry nor completer and can be started again; every other piece is as before |
| Download.Retried | src/TorrentSession.cpp:1144-1159 | From every reachable state a complete piece whose bytes do not match is hashed, returned and started again, with none of its blocks received |
| Download.Collects | src/TorrentSession.cpp:1097-1120 | Well-formed blocks in any order and with duplicates build up the piece as the reassembly says; it is handed on for hashing exactly when it has them all |
| Download.WholeDownload | src/TorrentSession.cpp:1097-1174 | A needed piece is started and all its blocks arrive, in any order: with the right digest it ends up Have with these bytes, counted, and the download is complete if the counter says so; otherwise nothing has changed |
| Download.LooksInVain | src/PieceManager.cpp:366-375 | A start that finds no peer changes nothing |
| Download.Overruns | src/TorrentSession.cpp:1104-1120 | A block that is taken and runs past its piece ends the model; nothing happens after it |
| Download.ProceedIff | src/PieceManager.cpp:366-388 | The second half of a start, after its peer lookup, keeps the counter right if and only if the piece is not Have when it runs |
| Download.GuardedIff | src/PieceManager.cpp:366-388 | Over a run, starters overwrote no Have piece if and only if none went on with a piece that had become Have |
| Download.CounterRightIff | src/TorrentSession.cpp:1162-1174 | After a whole download the counter is the number of Have pieces if and only if no starter went on with a piece that had become Have; and then complete means every piece is Have |
| Download.StaysHave | src/PieceManager.cpp:362-388 | While starters are guarded in this way a finished piece stays finished |
| Download.CompleteWithoutAll | src/PieceManager.cpp:366-388 | Two starters of one piece, the second going on after the piece was downloaded: the session reports a complete download while another piece is missing |
| Download.HaveHasDigest | src/TorrentSession.cpp:1144-1165 | After a start-up that left no claim unverified and any run, every Have piece has bytes of its length with the expected digest |
| Session.Restored | src/TorrentSession.cpp:1942-1953 | A piece taken up again has the blocks its bitfield says, counted right |
| Session.TorrentSession.constructor | src/SessionState.hpp:17-33 | A new session has every piece needed and nothing counted |
| Session.TorrentSession.Preallocate | src/FileManager.cpp:631-638 | Pieces without a selected file are skipped, the others needed, and the counter stays right |
| Session.TorrentSession.Reset | src/TorrentSession.cpp:2005-2010 | Every piece is needed, nothing is counted, claimed or in progress |
| Session.TorrentSession.LoadBitfield | src/TorrentSession.cpp:1857-1883 | The pieces with a bit become Have, are counted and are claims; skipped ones without stay skipped |
| Session.TorrentSession.DropMissing | src/TorrentSession.cpp:1891-1917 | Pieces of missing files are needed again and no longer claimed, each uncounted once however many files it lies in |
| Session.TorrentSession.ResumePiece | src/TorrentSession.cpp:1926-1963 | Exactly a needed piece with some but not all blocks is taken up again, with the blocks its bitfield says; the counter is untouched |
| Session.TorrentSession.LoadUnfinished | src/TorrentSession.cpp:1922-1969 | Exactly the needed pieces with a usable entry are in progress afterwards |
| Session.TorrentSession.LoadSessionState | src/TorrentSession.cpp:1824-2003 | After loading, exactly the pieces with a bit and no missing file are Have, the counter is their number, and exactly the others with a usable block bitfield are in progress; unusable data resets |
| Session.TorrentSession.VerifyPieces | src/FileManager.cpp:387-418 | Every piece not skipped is Have if and only if the bytes read have the expected digest; the counter is rebuilt, and no claim is left |
| Session.TorrentSession.StartSeeding | src/FileManager.cpp:431-476 | Seeding starts, complete and with every piece, if and only if the files are there and every piece has the expected digest |
| Session.TorrentSession.Init | src/TorrentSession.cpp:207-254 | Start-up in every mode ends with the counter right, every Have piece verified, and complete only if every piece is Have |
| Session.TorrentSession.TestNeeded | src/PieceManager.cpp:366-371 | The first half of a start, up to its peer lookup |
| Session.TorrentSession.StartPiece | src/PieceManager.cpp:371-388 | The second half: the piece is in progress whatever it was by then, with a fresh entry unless it has one |
| Session.TorrentSession.OnPieceBlock | src/TorrentSession.cpp:1080-1120 | A delivery, well-formed or not, does what the step function says; one that overruns its piece ends the model |
| Session.TorrentSession.HashPiece | src/TorrentSession.cpp:1144-1160 | A completed piece goes on to be written if and only if its bytes match the expected digest |
| Session.TorrentSession.ReturnPiece | src/PieceManager.cpp:701-713 | A piece with the wrong digest is needed again, its blocks and its completer are forgotten, and nothing else changes |
| Session.TorrentSession.MarkHave | src/TorrentSession.cpp:1160-1165 | The written piece becomes Have and is counted |
| Session.TorrentSession.Finish | src/TorrentSession.cpp:1166-1174 | The bookkeeping goes, and the download is complete if the counter says so |
| Session.TorrentSession.HaveBitfield | src/SessionState.hpp:96-107 | The saved bitfield has exactly the bits of the Have pieces |
| Session.SaveAndLoad | src/TorrentSession.cpp:1857-1883 | Saving one session's bitfield and loading it into a fresh one keeps exactly the finished pieces and, if no starter overwrote one, their number |
| Rarity.MovedIn | src/PieceManager.cpp:715-731 | Moving a piece between groups changes the membership of that piece only |
| Rarity.AvailabilityChange | src/PieceManager.cpp:715-731 | A change of availability keeps the index listed, current and exact as far as it was |
| Rarity.ProceedChange | src/PieceManager.cpp:382-386 | A starter going on with a piece, whatever its status, keeps the index current if and only if no other group has the piece, which is so whenever it is not Have |
| Rarity.ReturnChange | src/PieceManager.cpp:707-710 | Likewise a return to the queue, whatever happened to the availability meanwhile |
| Rarity.StartUpIff | src/TorrentSession.cpp:229-252 | After start-up with usable, unusable or no resume data the index is current; every needed piece is in exactly its group if and only if the index was built (or nothing is needed) and no piece taken up again turned out needed |
| Rarity.BuildGroups | src/PieceManager.cpp:743-774 | Building the index puts every piece in the group of its status |
| Rarity.PieceManager.constructor | src/TorrentSession.cpp:229-252 | The index after every start-up, and whether it is exact |
| Rarity.PieceManager.OnPeerHasPiece | src/TorrentSession.cpp:1294-1313 | A HAVE message adds one to the availability, moves the piece unless it is Have, and keeps the index |
| Rarity.PieceManager.OnPeerBitfield | src/TorrentSession.cpp:1370-1410 | A bitfield replaces the peer's pieces and counts each of them |
| Rarity.PieceManager.OnPeerHasAll | src/TorrentSession.cpp:1324-1352 | A HAVE ALL message counts every piece |
| Rarity.PieceManager.OnDisconnect | src/TorrentSession.cpp:1494-1501 | Each piece of the connection loses one, also when its end is reported again; no availability goes below zero if and only if each was at least one, which for first reports always holds |
| Rarity.PieceManager.TestNeeded | src/PieceManager.cpp:366-371 | The first half of a start, up to its peer lookup |
| Rarity.PieceManager.Pick | src/PieceManager.cpp:382-386 | The second half: the piece is in progress and moved, whatever its status was by then; when the index stays current and exact |
| Rarity.PieceManager.Return | src/PieceManager.cpp:701-713 | The piece is needed and in the group of its availability; when the index stays current and exact |
| Rarity.HandlePeer | src/TorrentSession.cpp:1294-1501 | Every peer event does what the plain bookkeeping says and leaves the index as current and exact as it was; it stops exactly where an availability would go below zero |
| Rarity.HandleWork | src/PieceManager.cpp:366-388 | Every start, return and completion does what the plain bookkeeping says, and the index can lose only by overwriting a Have piece |
| Rarity.TwoGroups | src/PieceManager.cpp:366-388 | A run in which a starter goes on with a finished piece and that leaves a needed piece in two groups |
| Rarity.PieceManager.Scan | src/PieceManager.cpp:277-293 | The scan tries every needed piece that somebody has; while the index is current in non-decreasing availability, and while it is exact each of them once and no other needed piece |
| Rarity.Run | src/PieceManager.cpp:277-293 | After any run statuses, availabilities, connections and starters are what plain bookkeeping without the index says; every needed piece that somebody has is in its group and is tried; without overwriting starters the index stays as current and exact as it was, and the scan is rarest first |
| TokenBucket.HandleKeeps | src/AsyncRateLimiter.hpp:48-216 | Every event keeps: the head waiter needs more than there is, first come first served, every caller accounted for once |
| TokenBucket.EveryRun | src/AsyncRateLimiter.hpp:48-216 | So does every run from any initial rate and capacity factor |
| TokenBucket.CollectConserves | src/AsyncRateLimiter.hpp:159-166 | Collecting waiters turns tokens into granted bytes one for one |
| TokenBucket.CollectServes | src/AsyncRateLimiter.hpp:159-166 | Collecting serves waiters from the head, as many as the tokens suffice for, and changes nothing else |
| TokenBucket.RefillConserves | src/AsyncRateLimiter.hpp:175-213 | After a refill the granted bytes and the tokens together are the granted bytes before and the tokens with a tenth of the rate added, capped at the capacity |
| TokenBucket.AwaitConserves | src/AsyncRateLimiter.hpp:48-81 | A caller is granted exactly the tokens it takes, or goes to the end of the queue and takes none |
| TokenBucket.NewRate | src/AsyncRateLimiter.hpp:83-120 | A new rate is the new capacity; only tokens above it are lost |
| TokenBucket.Lifted | src/AsyncRateLimiter.hpp:98-107 | Lifting the limit releases everybody in order, and nobody waits afterwards |
| TokenBucket.LimitedAgain | src/AsyncRateLimiter.hpp:98-111 | A limit set after one was lifted starts with a full bucket |
| TokenBucket.StopsForGood | src/AsyncRateLimiter.hpp:122-146 | A stop aborts everybody who waits, and nobody is granted anything afterwards, whatever happens |
| TokenBucket.HeadServed | src/AsyncRateLimiter.hpp:175-213 | Refills serve the first waiter once they have brought in what it needs, if the bucket can hold that much |
| TokenBucket.ServedIff | src/AsyncRateLimiter.hpp:175-213 | In every reachable state with a limit and no wrap-around, refills alone serve the first waiter if and only if the rate is at least ten and it asks for no more than the capacity |
| TokenBucket.RateBound | src/AsyncRateLimiter.hpp:48-216 | Over any stretch at a constant positive rate the bytes granted are at most the capacity plus a tenth of the rate for each refill |
| TokenBucket.AsyncRateLimiter.AwaitTokens | src/AsyncRateLimiter.hpp:48-81 | Aborts, grants or queues a caller as the event function says |
| TokenBucket.AsyncRateLimiter.CollectReadyWaiters | src/AsyncRateLimiter.hpp:159-166 | The loop serves waiters from the head while there are tokens for them |
| TokenBucket.AsyncRateLimiter.ChangeRate | src/AsyncRateLimiter.hpp:83-120 | Changing the rate caps the tokens and releases who can go, or everybody if the limit is lifted |
| TokenBucket.AsyncRateLimiter.Shutdown | src/AsyncRateLimiter.hpp:122-146 | Every waiter is aborted |
| TokenBucket.AsyncRateLimiter.OnRefill | src/AsyncRateLimiter.hpp:175-213 | A refill adds a tenth of the rate, up to the capacity, and serves waiters |
| Admission.IpAndPort | src/PeerManager.cpp:118-124 | The port is cut off, whatever colons the address has |
| Admission.AdmittedWithin | src/PeerManager.cpp:60-103 | Admission keeps the total and the per-address limit |
| Admission.PeerManager.CountFromIp | src/PeerManager.cpp:62-67 | The loop counts the live connections from an address |
| Admission.PeerManager.FindWorstPeer | src/PeerManager.cpp:105-116 | The loop finds a slowest peer, and none only if all rates are at the maximum |
| Admission.PeerManager.Admit | src/PeerManager.cpp:60-103 | Who is admitted, who makes way, and that neither limit is exceeded |
| Admission.Adds | src/PeerManager.cpp:52-103 | Check and insertion together: a banned address is refused, any other admitted as the limits say, and no ban changes |
| Admission.Admits | src/PeerManager.cpp:60-103 | Who is admitted is connected, and everybody else keeps their connection but the slowest, and that only at the limit |
| Admission.BansStep | src/PeerManager.cpp:671-715 | Every step of two-lock banning and admission keeps: a banned address has a connection only while a removal for it is to come |
| Admission.CapsStep | src/PeerManager.cpp:26-103 | Every step keeps both limits |
| Admission.EveryRun | src/PeerManager.cpp:26-103 | Both hold after every interleaving |
| Admission.BanIsFinal | src/PeerManager.cpp:686-715 | Once no removal is to come, a ban that has not run out leaves its address without connections |
| Admission.BanLasts | src/PeerManager.cpp:671-697 | Through every run a ban ends when it was set to end, unless it is set anew |
| Admission.BanKeepsOut | src/PeerManager.cpp:686-715 | For an hour after the two steps of a ban its address is banned and has no connection, whatever runs, unless it is banned anew |
| Admission.Leaves | src/PeerManager.cpp:60-103 | A disconnection takes one connection and nothing else; traffic changes one rate and nothing else |
| Admission.BanEnds | src/PeerManager.cpp:785-797 | The cleanup forgets exactly the bans that have run out, and with time each does |
| Admission.LockHeld | src/PeerManager.cpp:44-103 | While an addition holds the connection lock, whatever else needs it waits |
| Admission.WindowExample | src/PeerManager.cpp:52-58 | A ban recorded between check and insertion does let a connection in until its removal step |
| Choke.SelectRegular | src/PeerManager.cpp:483-496 | The regular slots go to the fastest peers that do not snub us |
| Choke.Choker.ChokeSnubbers | src/PeerManager.cpp:440-462 | Unchoked interested peers that snub us are choked, the other interested ones listed |
| Choke.Choker.Optimistic | src/PeerManager.cpp:497-534 | The optimistic slot: rotated every third pass to a choked peer that does not snub us, kept otherwise while its holder is interested |
| Choke.Choker.Apply | src/PeerManager.cpp:534-549 | Among the interested exactly the chosen are unchoked; nobody else changes |
| Choke.Choker.Assign | src/PeerManager.cpp:475-549 | Among the listed peers exactly the regular and the optimistic choice are unchoked; a rotation chokes the previous holder unless it is chosen again, and leaves the slot empty only if no choked peer is eligible |
| Choke.Choker.Pass | src/PeerManager.cpp:433-549 | After a pass the unchoked interested peers are exactly the regular choices and the optimistic one, at most twelve; one that does not snub us is left choked only if all regular slots have peers at least as fast, for both rankings; a snubbing one is unchoked only as standing optimistic choice; who is not interested changes only by losing the optimistic slot |

## Left out

- Sockets, timers, thread pools, strands, DNS, multicast and the HTTP server: only the order of their steps is modelled.
- SHA-1, big-number arithmetic and random numbers: the hash is a parameter, the key exchange is modular exponentiation on natural numbers, and random choices are arbitrary.
- File errors: every modelled write succeeds, and a read fails only for bytes that are missing or deselected.
- Concurrent interleavings of `read_block` and `write_piece`. What follows a read that leaves a wrong entry or loses a write is not followed further.
- Session.TorrentSession.OnPieceBlock: an accepted block that runs past the end of its piece is undefined behaviour in the original, which does not check; the model ends there (`overrun`), as `Blocks.InProgressPiece.OnBlock` refuses it. A piece index beyond the torrent, which the original asserts against, is required not to occur.
- Session.TorrentSession: the per-piece objects are values in a map here; their in-place form is `Blocks.InProgressPiece`. Data of blocks restored from resume data is zero, as in the original.
- WriteQueue.InvStep: a failed write is taken as final for the socket; the original resets the queue so that later sends try the socket again.
- Rarity.PieceManager.OnDisconnect: the wrap-around of an availability that a repeated report of the same disconnect takes below zero; the model ends there.
- Integer widths, except where a wrap-around matters: the unsigned subtraction in the pipeline and the token counter are exact; byte totals, availabilities and counters are unbounded.
- Availability announced before the metadata of a magnet link is known, the start-up that follows its arrival, and the selection of files while a download runs.
- Rarity.PieceManager.OnPeerBitfield: bitfields of the wrong size, which close the connection, are not modelled.
- Whether the refill timer of the token bucket is running: refills come at arbitrary moments.
- The reset of the per-round byte counters at the end of a choke pass, and the reconnection of a peer while it holds the optimistic slot (a parameter tells whether it is the same connection).
- `get_peers`, announcing, bucket refresh and the persistence of the routing table; the table updates made by lookup replies are covered as operations on the table.
- Timeouts, endgame thresholds, peer selection for blocks and other tuning.
- Trackers, peer exchange, local discovery, configuration and the command line.
