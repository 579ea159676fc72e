# A Dafny model of sdrproxy

sdrproxy sits between a WinSDR server and its clients. Its client thread receives a byte stream of
channel information texts and A/D frames, recovers the frames and puts the data packets in a cache
sorted by time. Its server thread sends the channel information and the cached packets to any
number of clients. When the channel information changes, the main thread stops the server,
reallocates the cache and starts again. This project models that data path and proves it.

- `PacketCache.dfy`: the circular array of slot pointers, its binary search and its rotations, as a
  class; `SortedCache.dfy`: the bounded sorted list it stands for, and what a run of stores leaves.
- `ByteRing.dfy`, `ByteSearch.dfy`, `Bytes.dfy`: the byte ring, the multi-width substring search, the
  checksum.
- `ChannelInfo.dfy`: printing and scanning the channel information text.
- `Client.dfy`: the receiving client as a class; `FrameDecoder.dfy`: what `check_data` does to the
  bytes on the ring, on any stream; `FrameStream.dfy`: what it does on streams of frames;
  `Frames.dfy`: frames as a peer builds them, and the packets they become; `Resync.dfy`: how it finds
  its way back after other bytes.
- `Connection.dfy`: one client connection as a class; `Sender.dfy`: the same connection as a state
  machine with its runs; `Requests.dfy`: the recognition of `SEND AD`; `Delivery.dfy`: reading the
  cache through one history record while packets keep arriving.
- `History.dfy`: the linked list of history records, spliced in place.
- `Handshake.dfy`: the three threads of a reallocation.
- `Pipeline.dfy`: decoder, cache, connection and the decoder at the other end, together.

Each class method is proved to do what a specification function says (`Cache.Store` is `Insert`,
`Receiver.CheckIncoming` is `CheckData`, `ConnectionData.ServiceConnection` is `Service`); the lemmas
about runs are about those functions.

Modelling decisions. Packet times are reals. The sizes of words are those of the 32-bit build
(`src/Makefile:2`), and the search is proved for any two sizes. What a socket delivers or accepts is
a parameter of any length. `timegm` is a parameter, a function of the calendar bytes. `fail()` ends a
run: it is a flag that a method returns. `DATASIZE` is any positive number.

Where the code and its comments disagree, the model follows the code:

- `get_adc_data` compares with the sense of `strcmp` inverted (`src/client.c:398`). With the token in
  place this ends the program exactly when the low byte of the length field is zero; otherwise it
  tests nothing. The model aborts in that case; `FrameStream.ChunkedDecode` and
  `FrameStream.AbortsIff` say exactly when a stream of frames gets there.
- `rv == -2` in `check_data` (`src/client.c:536`) never occurs, since `get_adc_data` returns 0 or -1;
  so the branch is not modelled.
- The clean-up of an inhibited pass (`src/client.c:566-571`) removes all bytes, not all but a token's
  length.
- The rewind of a returning client (`src/server.c:796-798`) does not go back to a whole minute: it is
  four seconds (`Delivery.RewindIsFourSeconds`).
- `datar_rotate_right` (`src/databfr.c:182-198`) does not rotate the whole ring when start and end
  are equal. Its callers never pass that: it is a precondition, proved at each call.
- The client remembers as "old" the configuration before the one it last published
  (`src/client.c:216`), and compares rate and channel count only (`src/client.c:201-202`), though the
  type sets the width of a sample. So not every change is published; `Handshake.NotifiesRightlyIff`,
  `Handshake.NotifiesExactlyIff` and `Handshake.AnnouncedIsPublishedIff` say exactly when it is, and
  `Handshake.ReturnGoesUnnoticed` and `Handshake.TypeChangeUnnoticed` give runs in which it is not.
- `bytes_in_bytes` is right only for a needle that is not empty and not longer than the haystack or a
  mismatch with it; `ByteSearch.SearchCorrectIff` is the exact condition, and `search_ring` guards it.

## Model

| member | source | states |
|---|---|---|
| SortedCache.RunIsNewest | src/databfr.c:303-426 | after any list of stores the cache is strictly ascending and holds exactly the newest times offered, each with the last packet offered at that time; a time not held is older than all of a full cache |
| SortedCache.TimesHeldOrderFree | src/databfr.c:218-233 | which times are held depends only on the set of times offered, not on the order of arrival |
| SortedCache.RunOrderFree | src/databfr.c:303-426 | two runs with the same last packet at every time leave the same cache |
| SortedCache.RunLength | src/databfr.c:303-426 | the cache holds the smaller of its size and the number of distinct times offered |
| PacketCache.NormalizeIsModulo | src/databfr.c:200-206 | the index arithmetic of the model is the C remainder on every offset used |
| PacketCache.Cache.Alloc | src/databfr.c:269-287 | every position gets a new slot of its own and the ring is empty |
| PacketCache.Cache.Dealloc | src/databfr.c:289-301 | each slot is freed once and none is left |
| PacketCache.Cache.Search | src/databfr.c:59-148 | status and index together say empty, older than all, newer than all, equal, or the unique successor, which is never the oldest |
| PacketCache.Cache.Bisect | src/databfr.c:116-129 | the biased bisection ends at the last packet not after the target |
| PacketCache.Cache.RotateRight | src/databfr.c:182-198 | for different start and end, exactly the cyclic stretch between them moves by one |
| PacketCache.RotationPermutes | src/databfr.c:182-198 | a rotation keeps the pointers a permutation of the allocated slots, none doubled |
| PacketCache.InsertTied | src/databfr.c:386-402 | rotating the slot at datar_end to the found place, filling it and moving the indexes is insertion in the list, the oldest packet going when the ring was full |
| PacketCache.Cache.Store | src/databfr.c:303-426 | RING_STORE refines insertion in the sorted list, refuses exactly a packet older than all of a full ring, and keeps every slot owned once |
| PacketCache.Cache.Retr | src/databfr.c:427-458 | RING_RETR gives the first packet at least a millisecond after the time, and 1 exactly when there is none |
| ByteRing.Ring.Store | src/buffer.c:169-186 | appends all bytes when they fit, also when they wrap, and changes nothing otherwise |
| ByteRing.Ring.View | src/buffer.c:187-207 | copies out exactly the oldest bytes, also when they wrap, and nothing when too many are asked for |
| ByteRing.Ring.Retr | src/buffer.c:187-207 | the same, and takes them off |
| ByteRing.Ring.Delete | src/buffer.c:208-218 | takes off the oldest bytes; zero or too many is refused and changes nothing |
| ByteRing.Ring.BytesFree | src/buffer.c:94-103 | free bytes and stored bytes always add up to the capacity, one less than the buffer |
| ByteRing.ModuloIsRemainder | src/buffer.c:86-112 | the index arithmetic of the model is the C remainder on every value it is used on |
| ByteRing.Ring.IsFull | src/buffer.c:115-121 | true exactly when the stored bytes are the capacity |
| ByteRing.Ring.IsEmpty | src/buffer.c:123-129 | true exactly when no byte is stored |
| ByteRing.StoreWrapped | src/buffer.c:173-181 | the two copies of a wrapping store append the bytes |
| ByteSearch.BytesInBytes | src/util.c:192-268 | ends and returns what SearchResult says, for every input and any two word sizes |
| ByteSearch.SearchCorrectIff | src/util.c:192-268 | that is the leftmost occurrence or none, if and only if the needle is not empty and the haystack is not a shorter, non-empty prefix of it |
| Bytes.WordLEInjective | src/util.c:215-231 | comparing two words is comparing their bytes |
| Bytes.DoCrc | src/util.c:153-165 | the exclusive or of the given bytes: each bit of it is the parity of how many of them have that bit set |
| Bytes.XorAt | src/util.c:161-163 | a bit of the exclusive or of two bytes is set exactly when it differs in them |
| Bytes.XorAllAt | src/util.c:153-165 | each bit of the checksum is the parity of how many bytes have it set |
| Bytes.TokensSpelled | src/sdrproxy.h:44-49 | the tokens are the bytes of their texts |
| FrameDecoder.CrcOkIffXorZero | src/client.c:418-423 | the checksum test holds exactly when from the length field to the end every bit is set in an even number of bytes |
| Client.SearchRing | src/buffer.c:57-84 | the leftmost place of the token among the ring's bytes, or -1 exactly when there is none |
| ChannelInfo.PrintScan | src/server.c:470-477 | scanning a printed text gives the same three numbers, whatever they are and whatever non-digit follows |
| ChannelInfo.PrintedIsConfigText | src/server.c:470-477 | for accepted numbers the text is 25 bytes, starts with the channel token, holds no A/D token, and scans back |
| ChannelInfo.PrintedText | src/server.c:470-477 | the text of an accepted triple letter by letter: which number stands in which column |
| ChannelInfo.ScanSpaced | src/client.c:310-324 | any white space around the numbers and words, and plus signs, scan to the same triple |
| ChannelInfo.NoDigitNoNumber | src/client.c:310-324 | without a digit after the white space and the sign no number is read |
| ChannelInfo.CheckChannelInfo | src/client.c:341-362 | 0 exactly for 1 to 8 channels, a one-digit type and a known sample rate |
| FrameDecoder.CheckDataOk | src/client.c:485-572 | on any bytes, the stretches taken off and the rest are the bytes that were there, in order, and each data stretch is one frame: token, length field, whole length |
| FrameDecoder.OneRound | src/client.c:499-560 | a round after which the loop goes on removes at least a pre-header's length, so the loop ends |
| FrameDecoder.InhibitedStoresNothing | src/client.c:509-514 | a pass that is inhibited stores no packet |
| Client.Receiver.CheckIncoming | src/client.c:485-572 | check_data on the ring and cache objects does what CheckData says: same rest, same channel information, same abort, and RING_STORE is called once for each frame taken, in order, which leaves the cache in order with the slots it had |
| Client.Receiver.TakeAdcData | src/client.c:364-463 | get_adc_data takes off a frame exactly when it is whole, stores it in the cache exactly when the checksum and type are right, and aborts exactly on a zero low length byte after the token |
| Client.Receiver.AddToDataRing | src/client.c:465-483 | one packet is stored in the cache, with the frame's bytes and, when the header is whole, its time and id |
| Client.Receiver.RcvToRing | src/client.c:246-292 | takes what arrives up to the free bytes and appends it |
| FrameStream.ChunkedDecode | src/client.c:364-463 | for any frames, whatever their payloads and length fields, and any cutting into chunks: the client aborts if and only if more than a pre-header of the first frame with a zero low length byte has arrived, having taken off all frames before it; otherwise exactly the frames received whole before that one are taken off, in order and byte for byte, and the ring holds exactly what follows and is not full |
| FrameStream.AbortsIff | src/client.c:397-401 | the client aborts if and only if more than a pre-header of some frame with a zero low length byte has arrived |
| FrameStream.WireFramesDecode | src/client.c:485-560 | without such a frame it never aborts, and takes off exactly the frames received whole |
| FrameStream.StoredImagesOfFrames | src/client.c:421-438 | the packets stored from such a stream are the type-3 frames with a good checksum |
| FrameStream.AllArrived | src/client.c:485-560 | when all bytes of the frames have arrived, all frames have been taken |
| Frames.FrameIsWireIff | src/client.c:397-414 | a frame built from a type, flags and a body is one the client takes if and only if the length of the body does not end in a zero byte; otherwise it aborts on it |
| Frames.FrameTaken | src/client.c:403-414 | the client takes off exactly the frame that was built, whatever follows it |
| Frames.FrameStoredIff | src/client.c:418-438 | it stores it if and only if its type is 3 and every bit from the length field on is set an even number of times |
| Frames.MessagesDecode | src/client.c:485-560 | a list of built texts and frames, cut into any chunks: exactly those received whole are taken |
| Frames.MessagesStored | src/client.c:421-438 | when all have arrived, exactly the checksummed type-3 frames have been stored, in order |
| Frames.PacketOfBuilt | src/time.c:115-139 | the packet offered for a frame built from calendar fields, milliseconds and an id has that time, that id and those bytes |
| Frames.MillisecondsApart | src/client.c:465-483 | two frames that differ in their milliseconds are cached as two packets, in that order and that far apart, however they arrive |
| Frames.OneSecondFrame | src/util.c:167-189 | a frame with a data header, one second of samples and a checksum is as long as sdr_pkt_size says, for either sample width |
| Resync.Resynchronises | src/client.c:499-560 | after bytes in which no token begins, however the whole is cut, those are dropped and every frame of the stream that follows is taken |
| Resync.RefusedText | src/client.c:324-333 | a text whose numbers are refused is taken off by itself, and the pass ends |
| Resync.InhibitedPass | src/client.c:508-571 | an inhibited pass takes all channel texts, remembers the last, and leaves at most a token's length of what follows |
| FrameStream.FeedConserves | src/client.c:485-560 | over any run on any bytes, nothing is lost, invented or reordered, up to the chunk at which an abort stops the reading |
| Sender.RunKeeps | src/server.c:278-384 | on every run, also when other connections move the shared record, bytes sent and bytes on the send ring are whole frames beginning with channel information, and no request is lost |
| Sender.RunAscends | src/server.c:482-525 | on every stretch of a run in which the record is not set back, delivered times strictly increase |
| Sender.WontFitPasses | src/server.c:509-518 | while the client neither closes nor asks again, a waiting packet no longer than the ring is delivered by the time one pass more than there are bytes waiting has moved bytes, however many passes block |
| Sender.CatchesUp | src/server.c:482-563 | with eventual room on the send ring, however often the socket is not writable or send blocks, an unchanging cache is delivered up to the first packet longer than the ring, each packet once and in order, and all bytes are sent, by the time as many passes have moved bytes as there are bytes waiting, packets to deliver and bytes in them |
| Sender.DeliverableIsNewerIff | src/server.c:494-518 | that is every newer packet if and only if they are a millisecond apart and none is longer than the ring |
| Sender.ReadingIsServing | src/server.c:482-525 | passes of a connection, blocked or not, are servings of a reader of the cache, each with the room the send ring had |
| Sender.PacketFitsSendRing | src/server.c:594-599 | the send ring is never smaller than the packet size of the same channel information |
| Sender.PacketSizes | src/util.c:167-189 | the send ring holds exactly the packet for type 4, and two bytes a sample more than it for the others |
| Sender.PassTakes | src/server.c:296-313 | a pass over a connection in use, in whatever state, takes all arriving bytes that fit, and reports a request exactly when those and the ring's hold one |
| Sender.RunTakes | src/server.c:673-713 | on every run what was received is what the passes took, in order |
| Sender.RequestAnswered | src/server.c:307-339 | when the client asks, the channel information goes on the send ring in the same pass, or the connection waits for room |
| Sender.AnsweredInTime | src/server.c:331-381 | a connection that waits for room drains its send ring, and within one pass that moves bytes more than are waiting the text is on it |
| Sender.ClosedEnds | src/server.c:303-330 | a closed socket ends the connection in the same pass |
| Sender.SilentClientDropped | src/server.c:344-357 | a client that never asks, whatever else it sends, gets nothing and is dropped after the idle count |
| Connection.ConnectionData.ServiceConnection | src/server.c:278-384 | a pass over the connection object is one step of the state machine |
| Connection.ConnectionData.PutAdcData | src/server.c:482-525 | the next packet after the record's time goes on the send ring exactly when it fits, and only then the record moves to its time and is stamped |
| Connection.ConnectionData.SendToClient | src/server.c:527-563 | what send accepts, and nothing else, leaves the ring |
| Connection.ConnectionData.CheckServerIncoming | src/server.c:606-671 | takes off up to and with the first request, or trims to a request's length |
| Connection.GetNewConnection | src/server.c:722-821 | the client's record is found or appended; a found one is set back, all others keep their times |
| Requests.NoRequestLost | src/server.c:606-671 | for any chunking, requests reported plus requests still on the ring are the requests received |
| Requests.RoomForRequest | src/server.c:649-669 | after each check a whole request still fits |
| Requests.CheckReportsIff | src/server.c:606-671 | a check reports a request if and only if there is one on the ring |
| Delivery.DeliveredAscend | src/server.c:482-525 | between rewinds of a record, whatever is stored meanwhile, delivered times strictly increase |
| Delivery.ServeSkipsNothing | src/server.c:494-525 | a move of the record's time skips no packet cached at that moment and at least a millisecond past the old time |
| Delivery.ServedRun | src/server.c:494-525 | servings with whatever room take what lies ahead from its front, nothing twice and nothing else; every serving with room for it advances |
| Delivery.WholeSuffixIffSpaced | src/databfr.c:439-453 | a reader served with enough room as often as packets are newer, and without room any number of times, has got every newer packet exactly once, if and only if they are at least a millisecond apart |
| Delivery.RewindIsFourSeconds | src/server.c:796-798 | the rewind is four seconds and no more |
| History.List.Add | src/server.c:867-901 | returns the record with the key and appends one only when there was none; keys stay unique |
| History.List.Retr | src/server.c:903-909 | the record with the key, or null exactly when there is none |
| History.List.Delete | src/server.c:911-937 | exactly the records with the key go, the others keep their order |
| History.List.RemoveOld | src/server.c:939-972 | exactly the records last updated before the time go, the others keep their order |
| History.List.Unlink | src/server.c:918-932 | removing one record relinks its true predecessor, or moves the head |
| Handshake.ReachableInv | src/main.c:241-310 | the invariant of the three threads, in every interleaving |
| Handshake.CacheSafe | src/main.c:246-309 | no packet is stored or read between the freeing and the making of slots; both happen only with the flag set and the server gone |
| Handshake.ServesAccepted | src/main.c:267-302 | a server that serves prints channel information that was accepted |
| Pipeline.ServedPassIsPossible | src/main.c:297-309 | so every pass the server makes in any schedule of the threads meets what the runs of the data path assume of it |
| Handshake.ClearMeansCurrent | src/main.c:297-302 | with the flag clear, the global channel information is the client's last publication |
| Handshake.JoinEnds | src/server.c:176-199 | while main waits for it, the server can always move and every move, each read of a pass over the connections included, brings its return nearer |
| Handshake.CommandPendingIff | src/server.c:176-199 | a command to close is pending exactly while main waits for a server that has not returned |
| Handshake.BusyStep | src/main.c:241-310 | while a change is pending or being taken over, main can move or the server it waits for can; each such move brings the end nearer, and the last one restarts the server |
| Handshake.ReallocationEnds | src/main.c:241-310 | in every schedule, once as many such moves were made as are left, the server runs again with its command cleared, slots made and the accepted publication taken over |
| Handshake.ComesUp | src/main.c:241-310 | from the start, the first channel information leads to a server that reads packets and a client that stores them |
| Handshake.PassStepsAreClientPass | src/client.c:183-221 | a pass of the client thread publishes and remembers as ClientPass says |
| Handshake.NotifiesRightlyIff | src/client.c:201-218 | as far as rate and channel count go, a pass notifies main rightly if and only if nothing came, or what came compares alike with the last two publications |
| Handshake.AlwaysRightIff | src/client.c:201-218 | in rate and channel count, every reception is handled rightly if and only if the last two publications agree |
| Handshake.NotifiesExactlyIff | src/client.c:201-218 | counting the type, a pass notifies main as it ought if and only if nothing came, or the older configuration has the received rate and channels exactly when the published one is what was received |
| Handshake.AlwaysExactIff | src/client.c:201-218 | counting the type, with any memory the client can have, every reception that can occur is handled as it ought if and only if nothing was published yet |
| Handshake.PassesReachable | src/client.c:214-218 | the memories the client can have: both configurations accepted, or the older or both not yet set |
| Handshake.AnnouncedIsPublishedIff | src/client.c:201-218 | however often a configuration is announced, it ends up published if and only if it was, or it differs in rate or channels from the one before the published |
| Handshake.TypeChangeUnnoticed | src/client.c:201-202 | a run in which a change of the type alone is never published |
| Handshake.ReturnGoesUnnoticed | src/client.c:214-218 | a run in which a change back to an earlier configuration is not published |
| Pipeline.ReachableInv | src/main.c:65-110 | in every run of receptions, inhibited or not, single stores between them, upstream reconnects, connections that share history records, passes and reallocations: the cache holds what was stored since the last reallocation, every packet stored is a checksummed frame of the upstream bytes, and the packets enqueued for a client are those delivered to it |
| Pipeline.PendingReachesCache | src/client.c:465-483 | every packet decoded is offered to the cache once and in order, and the cache then holds the newest since the last reallocation |
| Pipeline.ReallocationEmpties | src/main.c:281-296 | a reallocation empties the cache and ends the connection; what is cached next was stored after it |
| Pipeline.FreshAfterReset | src/client.c:155-168 | after the upstream connection is made again, a stream of frames is decoded from its start |
| Pipeline.ConnectsAndAsks | src/server.c:803-819 | a client that connects and asks is answered with the channel information first |
| Pipeline.EndToEnd | src/main.c:60-81 | whatever came from upstream, through reallocations, reconnections, inhibited passes and moves of the shared history record, the client at the other end decodes exactly the frames enqueued for it, up to the last whole one; its packets are a prefix of those delivered, each a checksummed frame of the upstream stream, in strictly increasing time since the record was last set back |
| Pipeline.CacheIsSpaced | src/databfr.c:439-453 | when every stored frame had a whole data header, cached packets are at least a millisecond apart, which is what the reader needs |
| Pipeline.ReaderMeetsEveryPacket | src/main.c:68-72 | in every world the proxy reaches with whole data headers cached, a connection then served while its client stays calm and nothing is stored has got, once the passes due have moved bytes and however often its socket blocked, every cached packet after its time, once and in order, if and only if none of them is longer than the send ring; and nothing is left on the ring |
| Pipeline.OneConfigurationDeliversAll | src/server.c:594-599 | so when the send ring was made by one configuration and cached packets are within its packet size, every newer packet is delivered |
| Pipeline.ClientCatchesUp | src/main.c:68-72 | and the client at the other end has then stored what was delivered before and everything deliverable, byte for byte |

## Left out

- Sockets, select, accept, name lookup, reconnecting and their timers (`src/socket.c`, the connection states of `client_thread`): input and output; only the lengths and results they give are modelled.
- The copies of the pre-header and the packet id that `get_adc_data` leaves for its caller, which nothing reads.
- Logging, warnings and hex dumps, and the replacement of unprintable bytes before logging: they change no state that is modelled.
- Calendar conversion (`src/time.c`): `timegm` is a parameter.
- Floating point rounding of packet times: reals are used.
- Overflow of the numbers in a channel information text: one too large for an int is read as itself, and refused, whatever the C library makes of it.
- A slot's packet buffer is a sequence field of the slot, not a separate array, so aliasing of the buffer without the slot is not modelled.
- PacketCache.Cache.Store: takes for granted that the packet is no longer than the slots, which main sizes for the channel information it had when allocating.
- Client.Receiver.AddToDataRing: leaves time and id of a frame shorter than its headers open, because they come from stale bytes of the buffer.
- Client.Receiver.CheckIncoming: takes for granted that no frame it will store is longer than a slot, as `PacketCache.Cache.Store` does.
- Connection.ConnectionData.ServiceConnection: takes for granted a send ring no longer than the fixed buffers, that is, at most 1600 samples a second.
- History.List.RemoveOld: is proved for the list it is called on; the server calls it on a list that stays empty (`src/server.c:258`, `src/server.c:269`), so no expiry of live records is claimed.
- The freeing of history records and connection rings is not modelled.
- The choice of an inactive entry in the array of connections (`src/server.c:573-583`) is not modelled: each connection is one object.
- `RING_ELEMENTS_STORED` and `RING_ELEMENTS_FREE` of the packet cache (`src/databfr.c:263-268`), which return without unlocking and are not called.
- Progress of the decoder on a corrupt length beyond the ring, or on bytes with no token that fill it: the code waits, and nothing is claimed.
- The argument check, the opening of the log file, `send_all` and `print_sdr_data`.
