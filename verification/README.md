# A verified model of the proxy's core

This project models the parts of the network library and proxy that carry real invariants, and
proves what they promise. `dafny verify dfyconfig.toml` checks everything.

| file | what it models |
|---|---|
| `WildcardTrie.dfy` | the domain trie of `base/trie.hpp`: heap nodes, insertion, search with a `*` fallback, recursive pruning deletion |
| `NumberCodec.dfy` | `pack_num` and `unpack_num` of `ae/packet.h`, in both byte orders |
| `PacketStream.dfy`, `PacketResume.dfy` | what the packet reader of `ae/packet.cpp` does on every byte string, and when a read can be taken up again |
| `PacketChannel.dfy`, `PacketLoss.dfy`, `PacketPieces.dfy` | framing over a stream that arrives in pieces: what always comes out, and exactly which readings lose a frame |
| `PacketReader.dfy` | the classes `ListBuffer` and `Packet`, step by step |
| `TimerWheels.dfy` | the idle-timeout wheel of `ae/timer_wheel.h`, against a clock |
| `ServerProtocol.dfy` | what the TCP server promises about its connections: a state machine with one deadline for each |
| `ServerHistory.dfy` | what a history of events alone says of every connection of that machine: whether it is open, when it was last heard of, what was reported of it |
| `TcpServers.dfy` | `TcpServer`, `TcpConnection` and `ConnectionWrapper` with their callbacks, reference counts and wheel, implementing that state machine |
| `TaskQueue.dfy` | the cross-thread task queue of `ae/async_task.cpp` as interleaved atomic steps |
| `AsyncTask.dfy` | the methods of `Async`, with any steps of the other threads between their own |
| `EventLoops.dfy` | the status of `EventLoop`, and where a function given to it runs |
| `ServerWrites.dfy` | the `write` and `write_in_loop` family |
| `WriteHistory.dfy` | what a history of events alone says of the loop and the names: which writes wait |
| `UdpSessions.dfy` | the session cache of `app/udp_proxy.cpp` |
| `Options.dfy` | an optional value |

## How to read it

A class of the source is a class here, with the fields its methods update. Where the source walks
a heap structure or a protocol, a method is proved against a function or a state machine on
values, and the theorems are about that: `Scan` for the packet reader, `Match` for the search in
the trie, `ServerProtocol.Next` and `TaskQueue.Next` for the protocols. What these functions mean is
in turn stated without them: by the events of a history (`ServerHistory`, `WriteHistory`,
`WildcardTrie.AnswersMeaning`), by the keys (`WildcardTrie.MatchMeaning`), by the bytes
(`PacketChannel.FrameLayout`, `NumberCodec.EncodeByte`). Each of them has a method
that takes a whole history (`WildcardTrie.Run`, `PacketReader.Receive`, `TcpServers.Serve`,
`ServerWrites.Serve`, `UdpSessions.Serve`), or lemmas about all of its interleavings.

What libuv does is the environment. The assumptions are these.

- An accepted write, half-close or close is completed once; a half-close is completed before the
  close of the same handle. A closed handle reports nothing more.
- Wake-ups coalesce, and a wake-up that was sent leads to one pass of the loop. A send on a handle
  that is assigned but not yet initialised is taken to be lost, which is the worst case.
- Memory is sequentially consistent, and a critical section is one step. So is the test of the
  status of a loop with the setting of it (`ae/event_loop.cpp:39-42`): two threads that enter one
  loop at the same moment are not modelled.
- Peer names of connections that are not closed yet differ.
- The timeout is set before the server listens. The answer of `uv_write`, the status of a
  completion, the peer name, the unpacked request and the byte order `Packet::Mode` are parameters.

Integers of the source are unbounded here, except where the width matters: the 16-bit sizes of the
packet code wrap at 65536, a number packed into `n` bytes is reduced modulo `256^n`, and UDP ports
are cut to 16 bits. The `unsigned char` casts of the packet code are the byte type.

## What the proofs found

- The comment at `base/trie.hpp:48-49` says that `search` returns whether the key is in the trie.
  The code also answers true when the search falls off a node that has a `*` child; the model
  follows the code. That answer depends on the keys alone, but not as a wildcard rule would:
  inserting a key can make it false (`WildcardTrie.InsertShadows` has the exact condition, and
  `WildcardTrie.WildcardShadowed` a concrete case). `WildcardTrie.SearchIsMembership` says for which
  key sets the comment is right. Null as the receiver of `search` is the empty trie.
- A payload above 65531 bytes makes the 16-bit sum of `ae/packet.cpp:33` wrap. Such a frame is read
  back when all of it is in the buffer, but the reader does not wait for it, and what it takes too
  early is lost. Independence of the cutting holds exactly for the readings in which no read finds
  such a size on an incomplete frame (`PacketLoss.ChunkingExact`, and `PacketPieces.ReceivedExact`
  for a receiver that reads until nothing comes out); `PacketLoss.FrameCut` is the case of one frame
  cut in two. With payloads of at most 65531 bytes every reading is such.
- After a wrong end byte the reader keeps the bytes in its hand, and windows pile up. A failed read
  can be taken up again with more bytes exactly when it stopped for want of bytes behind what it had
  skipped (`PacketResume.ResumeIff`); `PacketResume.WrongEndByte` has a buffer with which it cannot.
- `write_in_loop` calls its callback without looking whether there is one if the connection is gone
  by then. It throws exactly if there is none (`ServerWrites.Serve`, and `ServerWrites.ServeTooLate`
  for a run that does).
- A second `close_connection` while the first is pending completes at once
  (`TcpServers.TcpServer.UserCloses`): the connection is notified and its entry removed before
  libuv has closed the handle, which is no state of the protocol (`TcpServers.ServeSecondClose` is a
  run that gets there). The protocol theorems are about closing once.
- A connection whose name is still in the map gets no entry, so nothing will close or notify it
  (`TcpServers.TcpServer.OnAccept`); with a timeout the server then leaves the protocol
  (`TcpServers.ServeReusedName`).
- An `@` in the client address can make two session keys collide (`UdpSessions.AtSignCollides`); an IP
  address never has one, and nothing is asked of the server string.

## Model

| member | source | states |
|---|---|---|
| WildcardTrie.Trie.constructor | base/trie.hpp:17-22 | A new node is no leaf and has 128 null children. |
| WildcardTrie.Trie.Insert | base/trie.hpp:33-46 | Adds the key to the key set, adds exactly the prefixes of the key to the nodes, moves no node. |
| WildcardTrie.Trie.InsertFromRoot | base/trie.hpp:33-46 | A pruned trie of `K` becomes a pruned trie of `K + {key}`; what is new is freshly allocated. |
| WildcardTrie.Trie.Grow | base/trie.hpp:37-42 | One step of the insertion: the child for a letter, allocated when it is missing, keeps the ownership tree and the keys. |
| WildcardTrie.Trie.Mark | base/trie.hpp:44-45 | Marking the node reached adds exactly the key spelled by its path. |
| WildcardTrie.Trie.Search | base/trie.hpp:50-71 | The answer is `Match(K, key)`, a function of the key set alone: membership if every prefix is a node, else whether the longest prefix that is a node continues with `*`. |
| WildcardTrie.Trie.HaveChildren | base/trie.hpp:74-81 | True exactly when some child is owned below the node. |
| WildcardTrie.Trie.Deletion | base/trie.hpp:84-124 | At every level of the recursion: true exactly when that node was removed, and then the pointer is null; below it exactly the nodes on the way to another key remain; a missing key changes nothing; nodes off the path are untouched. |
| WildcardTrie.Trie.DeleteFromRoot | base/trie.hpp:84-124 | The trie of `K` becomes the pruned trie of `K - {key}`; true and a null root exactly when the key was the only one; no node is moved or added. |
| WildcardTrie.Trie.DeleteHere | base/trie.hpp:107-122 | At the end of the key: the leaf is removed if it is childless, else unmarked only. |
| WildcardTrie.Trie.DeleteBelow | base/trie.hpp:90-106 | Above the end of the key: the node goes too exactly when it became a dead end. |
| WildcardTrie.Trie.DeleteChild | base/trie.hpp:93-95 | The recursive call through the child slot: the slot is null afterwards exactly when the child was removed, and all links agree with ownership. |
| WildcardTrie.Trie.DeleteBranch | base/trie.hpp:93-95 | The recursive call itself: the subtree of the child is left as the deletion says, and every key and node outside it stays. |
| WildcardTrie.Trie.InsertThenDelete | base/trie.hpp:84-124 | Inserting and deleting a key gives back the identical nodes and keys if and only if the key was absent and the trie not empty. |
| WildcardTrie.KeysDetermineShape | base/trie.hpp:84-124 | The nodes of a pruned trie are the root and the prefixes of its keys, so equal keys mean equal shapes. |
| WildcardTrie.RemainsGone | base/trie.hpp:110-115 | Removing a childless leaf leaves, below it, exactly the nodes on the way to another key. |
| WildcardTrie.RemainsMarked | base/trie.hpp:116-121 | Unmarking a leaf that has children must keep its whole branch: every node of it is on the way to another key. |
| WildcardTrie.RemainsDropped | base/trie.hpp:96-101 | A non-leaf left without children is on the way to no other key, so removing it loses nothing. |
| WildcardTrie.RemainsKept | base/trie.hpp:102-104 | A node that is a leaf or still has a child is on the way to another key, so it must stay. |
| WildcardTrie.NoNodeBeyond | base/trie.hpp:57-67 | A word leaves the trie at one place only, and then no longer prefix of it is a node. |
| WildcardTrie.Apply | base/trie.hpp:26-28 | One insertion, deletion or search on the heap answers as the key set does and leaves the pruned trie of the new key set. |
| WildcardTrie.Run | base/trie.hpp:26-28 | Over any history of insertions, deletions and searches the answers are those of the key set. |
| WildcardTrie.AnswersFromKeys | base/trie.hpp:26-28 | The answer at each point of a history is a function of the keys present at that point, whatever shapes the trie went through. |
| WildcardTrie.KeyIsPresent | base/trie.hpp:26-28 | Over any history a key is present exactly if it was inserted and not deleted since. |
| WildcardTrie.AnswersMeaning | base/trie.hpp:26-28 | Every answer of a history by the operations before it: a deletion answers that the key was the only one present, a search that the word is present or has its place with a `*`. |
| WildcardTrie.MatchMeaning | base/trie.hpp:50-71 | A word is found if and only if it is a key, or at some place in it a key goes on with `*` (code 42) where no key goes on with the next letter, whatever follows the `*` in that key. |
| WildcardTrie.StarInside | base/trie.hpp:62-66 | With the key `a*b` the word `acde` is found: the `*` need not end a key, nor the word leave at its last letter. |
| WildcardTrie.InsertShadows | base/trie.hpp:62-66 | Exactly when inserting a key makes a search that succeeded through `*` fail. |
| WildcardTrie.WildcardCovers | base/trie.hpp:62-66 | A key ending in `*` makes every longer word found that leaves the trie right at the `*`. |
| WildcardTrie.WildcardShadowed | base/trie.hpp:62-66 | With the keys `*` and `ab` the word `a` is not found, though `*` alone finds it. |
| WildcardTrie.SearchIsMembership | base/trie.hpp:48-71 | The search answers whether the word is a key, as its comment says, for all words, if and only if no node has a `*` child and lacks another one. |
| WildcardTrie.NoStarNoWildcard | base/trie.hpp:48-71 | In particular it does when no key contains a `*`. |
| NumberCodec.PackNum | ae/packet.h:65-79 | Writes the encoding of the low bytes in place and nothing else. |
| NumberCodec.PackBig | ae/packet.h:68-72 | The big-endian loop, from the last byte to the first. |
| NumberCodec.PackLittle | ae/packet.h:73-78 | The little-endian loop, from the first byte to the last. |
| NumberCodec.UnpackNum | ae/packet.h:48-63 | The number the bytes stand for; the shifts at the width of the type lose nothing. |
| NumberCodec.DecodeEncode | ae/packet.h:48-79 | Unpacking what was packed gives the number modulo `256^width`, hence the number itself if it fits. |
| NumberCodec.EncodeDecode | ae/packet.h:48-79 | Packing what was unpacked gives the bytes back, for every byte string. |
| NumberCodec.OrdersReversed | ae/packet.h:65-79 | The two byte orders are reversals of each other. |
| NumberCodec.EncodeByte | ae/packet.h:65-79 | Every byte on its own: the byte of weight `256^i` is `num / 256^i` modulo 256 and stands `i` bytes from the low end, in both orders. |
| PacketReader.ListBuffer.Append | ae/list_buffer.cpp:14-19 | Appends the bytes in order. |
| PacketReader.ListBuffer.ReadBufferN | ae/list_buffer.cpp:21-32 | Appends the first bytes to the string without consuming them, or fails and changes nothing. |
| PacketReader.ListBuffer.ClearBufferN | ae/list_buffer.cpp:38-45 | Drops that many bytes, or all there are. |
| PacketReader.Packet.Pack | ae/packet.cpp:50-58 | The buffer is one frame: head byte, size, payload, end byte. |
| PacketReader.SendOne | ae/packet.cpp:16-79 | From `pack` through `append`, the reader and `swap` to `get_data`: the payload comes back, for every size, and what arrived behind it stays in the buffer. |
| PacketReader.Packet.ReadFromBuffer | ae/packet.cpp:16-48 | Returns 0 with the packet, or -1 with the output untouched, and leaves in the buffer what `Scan` says. |
| PacketReader.Packet.ReadBytes | ae/packet.cpp:17-47 | The loop of the reader ends on every byte string and computes `Scan`; each further iteration shrinks the buffer. |
| PacketReader.Packet.ReadBody | ae/packet.cpp:38-44 | The end of an iteration: what is in hand grows to the window, and the payload is consumed only if its end byte is right. |
| PacketStream.RestIsSuffix | ae/packet.cpp:18-45 | On every byte string, wrapped lengths included, the buffer left is a suffix, and a packet costs at least four bytes. |
| PacketStream.PacketIsLong | ae/packet.cpp:33-44 | On every byte string a packet has at least four bytes, so the size taken from it in `swap` does not fall below zero. |
| PacketStream.SizeFieldIsDecode | ae/packet.cpp:32 | The size field is the number its two bytes stand for. |
| PacketStream.Cut16IsRemainder | ae/packet.cpp:33 | The 16-bit sum is the remainder modulo 65536. |
| PacketStream.SkippedMeaning | ae/packet.cpp:27-31 | The bytes skipped hold no head byte, and what follows starts with one or is shorter than four bytes. |
| PacketStream.ScanSkips | ae/packet.cpp:27-31 | Reading is reading from the first head byte on. |
| PacketStream.RejectedMeaning | ae/packet.cpp:39-45 | Which windows are rejected: those before the first one that is incomplete or well ended. |
| PacketStream.WindowAt | ae/packet.cpp:38-39 | In the bytes a read returns, any `j`-th window is the one that starts `3 * j` bytes after the first. |
| PacketStream.WindowsLength | ae/packet.cpp:38-45 | With `k - 1` rejected end bytes there are `k` windows in what is returned. |
| PacketStream.ScanStep | ae/packet.cpp:26-45 | One iteration on a complete window, for every size: a packet or three bytes consumed with the window still in hand. |
| PacketStream.ScanFromHeader | ae/packet.cpp:18-45 | From a head byte a read returns all windows up to the first well ended one, or waits at the first incomplete one. |
| PacketStream.ReaderWindows | ae/packet.cpp:16-48 | The window invariant on arbitrary bytes, stated of the packet itself: after `s` skipped bytes and `k - 1` rejected end bytes it has `k` windows of `len + 4` bytes each, any `j`-th of which starts `3 * j` bytes behind the first; it begins with a head byte, ends with an end byte, and has cost `s + 3k + len + 1` bytes. |
| PacketStream.NoRejectionIsOneFrame | ae/packet.cpp:38-44 | Without a rejected end byte the packet is exactly one well-formed frame. |
| PacketResume.GuardMeaning | ae/packet.cpp:20-37 | If the bytes behind the skipped ones are fewer than four, or than the 16-bit sum of their size field and four, the read only skips; if not and no packet comes, an end byte was rejected. |
| PacketResume.ResumeIff | ae/packet.cpp:16-48 | A read that gave no packet can be taken up again, whatever arrives, if and only if the buffer met that guard. |
| PacketResume.WrongEndByte | ae/packet.cpp:38-45 | Four bytes with a wrong end byte and a continuation: a packet when read at once, none when the read is taken up again. |
| PacketResume.ResumeWait | ae/packet.cpp:20-37 | Without a rejected end byte, reading the rest and new bytes equals reading everything at once. |
| PacketResume.RejectionNotResumable | ae/packet.cpp:38-45 | After a rejected end byte a run of end bytes is read differently by the two. |
| PacketResume.RejectionConsumes | ae/packet.cpp:38-45 | A rejected end byte has cost a head byte and at least three bytes. |
| PacketResume.WaitIsIdempotent | ae/packet.cpp:20-37 | Repeating a failed read of a buffer that met the guard changes nothing. |
| PacketResume.PacketIsStable | ae/packet.cpp:16-48 | More bytes behind a packet do not change it, if its size does not wrap. |
| PacketChannel.FrameIsRead | ae/packet.cpp:16-58 | A packed frame of any size is read back, whatever follows it. |
| PacketChannel.FrameLayout | ae/packet.cpp:50-58 | A frame byte by byte: 0x7e, the high and low byte of the size in the order of the mode, the payload, 0xe7. |
| PacketChannel.FramePrefixWaits | ae/packet.cpp:32-37 | One read leaves the beginning of a frame in the buffer if and only if it has fewer than four bytes or the payload is at most 65531 bytes. |
| PacketChannel.NeverWraps | ae/packet.cpp:32-37 | The 16-bit sum on an incomplete frame can wrap only for a payload above 65531 bytes of which a part is still to come. |
| PacketChannel.ReadStep | ae/packet.cpp:16-48 | One read of a clean stream that has arrived in part, payloads of any size, unless the guard fails on an incomplete frame: it waits, or takes the next payload; it waits for good only when no payload is left. |
| PacketChannel.RunFrom | ae/packet.cpp:16-48 | From any point of a clean stream on, appends and such reads in any order yield the next payloads in order and leave a clean stream. |
| PacketChannel.ChunkingDoesNotMatter | ae/packet.cpp:16-58 | However a clean stream of payloads of any size is cut into appends and interleaved with reads none of which meets a wrapped size on an incomplete frame, the packets are the frames of the first payloads in order; at the end all have come out and at most three bytes are left. PacketLoss.ChunkingExact shows the condition is needed. |
| PacketChannel.SmallIsSafe | ae/packet.cpp:32-37 | Every reading of a stream of payloads of at most 65531 bytes is such, whatever the cutting. |
| PacketLoss.ChunkingExact | ae/packet.cpp:16-58 | For every size `pack` takes and every interleaving of appends and reads: when all has arrived and a read finds nothing, the packets are exactly the frames sent, in order, if and only if no read met a wrapped size on an incomplete frame. |
| PacketLoss.UnsafeRunLoses | ae/packet.cpp:32-45 | After such a read the frames do not all come out, whatever is appended and read later. |
| PacketLoss.FrameIsLost | ae/packet.cpp:32-45 | Such a read does not return the frame it stands at, and takes a head byte of the stream out of the buffer. |
| PacketLoss.FrameWasThere | ae/packet.cpp:16-48 | A read from a head byte that returns a well-formed frame, sizes that wrap included, found that whole frame at the front of the buffer. |
| PacketLoss.FramesNeedHeads | ae/packet.cpp:16-48 | No run of appends and reads returns frames with more head bytes than were in the buffer and arrived. |
| PacketLoss.FrameCut | ae/packet.cpp:16-58 | A frame of any size cut in two and read after each piece comes out if and only if it was cut before its fourth byte, or not cut, or its payload is at most 65531 bytes. |
| PacketPieces.ReceiveOps | ae/packet.cpp:16-48 | Receiving piece by piece is one of those runs, and meets a wrapped size exactly when that run does. |
| PacketPieces.DrainEnds | ae/packet.cpp:16-48 | On any bytes: reading until nothing comes out is some number of reads that each give a packet, and one more that finds nothing. |
| PacketPieces.ReceivedExact | ae/packet.cpp:16-58 | A receiver that reads until nothing comes out after each piece gets exactly the frames sent if and only if no piece ends where the size of an incomplete frame wraps. |
| PacketPieces.SmallChunksAreSafe | ae/packet.cpp:32-37 | With payloads of at most 65531 bytes no piece ends there, in any cutting. |
| PacketReader.ReadNext | ae/packet.cpp:16-66 | On the heap and on any bytes: one read returns the packet of `Scan` with the payload `get_data` and `data_size` give for it, or -1 with none. |
| PacketReader.Drain | ae/packet.cpp:16-48 | On any bytes: reading until -1 ends, and returns the packets and leaves the buffer of that run of reads. |
| PacketReader.ReceiveAll | ae/packet.cpp:16-48 | The loop over the pieces computes `Received` on any bytes, the payload of each packet included. |
| PacketReader.Receive | ae/packet.cpp:16-58 | A clean stream received in any pieces, payloads of every size: the packets are the frames sent if and only if no piece ends where the size of an incomplete frame wraps, and then the payloads are those sent; with payloads of at most 65531 bytes they are, in any pieces. |
| TimerWheels.TimerWheel.Start | ae/timer_wheel.h:50-56 | The first start makes one empty bucket for each second of the timeout; a second start of a running wheel changes nothing; after a change of the timeout the ring is cut or extended. |
| TimerWheels.TimerWheel.Insert | ae/timer_wheel.h:58-63 | The value goes into the current bucket and stays in step with the clock; null, or no timeout, changes nothing. |
| TimerWheels.TimerWheel.WheelCallback | ae/timer_wheel.h:70-78 | The bucket cleared held exactly what was inserted one turn ago; all other buckets stay in step. |
| TimerWheels.TickAligned | ae/timer_wheel.h:70-78 | After a tick bucket `(index - age) mod T` holds exactly what was inserted `age` ticks ago, for every age below `T`. |
| TimerWheels.InsertAligned | ae/timer_wheel.h:58-63 | After an insertion it still does. |
| TimerWheels.LastAgeMeaning | ae/timer_wheel.h:58-78 | The age of a value is the least number of ticks ago at which it was inserted. |
| TimerWheels.HeldIffRecent | ae/timer_wheel.h:58-78 | A value is in some bucket if and only if its last insertion is less than `T` ticks old. |
| TimerWheels.LeavesAfterOneTurn | ae/timer_wheel.h:58-78 | A value inserted and then left alone leaves exactly at the `T`-th tick, never earlier. |
| ServerProtocol.InvStep | ae/tcp_server.cpp:35-56 | Every event keeps: each connection is in one phase, closed with libuv at most once, notified exactly when closed, and open only before its deadline. |
| ServerProtocol.RunKeepsInv | ae/tcp_connection.cpp:66-92 | So does every interleaving of accepts, messages, errors, ends of stream, half-close and close completions, ticks, user closes and the close of the server. |
| ServerProtocol.ClosedServerDrains | ae/tcp_server.cpp:70-79 | After the server has closed and libuv has completed everything, every connection is closed, was notified once, and no name is left. |
| ServerProtocol.CanDrain | ae/tcp_server.cpp:70-79 | From every state of a closed server such an end is reached by the completions libuv owes alone, in exactly as many steps as it owes. |
| ServerProtocol.IdleTimeout | ae/timer_wheel.h:58-78 | A connection that hears nothing more, half-closed or not, is open before the `T`-th tick after its last activity and asked to close exactly then. |
| ServerProtocol.NeverRevived | ae/tcp_server.cpp:81-89 | Once asked to close it is never open again over any run, later messages included; its last activity stays where it was, and it is not asked again. |
| ServerProtocol.PastDeadline | ae/tcp_server.cpp:81-89 | A deadline that has passed stays passed over any run. |
| ServerHistory.OpenIff | ae/tcp_server.cpp:35-89 | Over every run: a connection is open if and only if since its accept no read error of it, no completed half-close of it, no close by its user and no close of the server came, and it was never silent for a timeout. |
| ServerHistory.LastActivity | ae/tcp_server.cpp:81-89 | Over every run: its last activity is the number of ticks before its accept, or before the latest message that came while nothing had asked for its close. |
| ServerHistory.MessageBuysOneTurn | ae/tcp_server.cpp:81-89 | After a message of an open connection, with nothing heard or asked since, it is open if and only if fewer than `T` ticks have passed. |
| ServerHistory.ReportsMeaning | ae/tcp_connection.cpp:156-177 | Over every run: it writes until a read error or the end of the stream; its pending half-closes are the ends of stream less the completions; it is closed exactly when libuv has reported so; its name is that of its accept. |
| ServerHistory.Overall | ae/tcp_server.cpp:35-79 | After any number of events the clock is the number of ticks, there is one connection for each accept, and the server listens until its close. |
| ServerHistory.AcceptOf | ae/tcp_server.cpp:35-56 | Every connection has its accept among the events. |
| TcpServers.TcpServer.constructor | ae/tcp_server.cpp:58-68 | A server whose timeout is set and that begins to listen implements the initial protocol state, with an empty map. |
| TcpServers.TcpServer.InsertWrapper | ae/timer_wheel.h:58-63 | A shared pointer put into a set counts once: the reference count grows only if the bucket did not hold it. |
| TcpServers.TcpServer.SocketClose | ae/tcp_connection.cpp:66-70 | With the callback set it asks for the close and clears the callbacks, once; without it nothing happens; the map is never changed. |
| TcpServers.TcpServer.CloseConnection | ae/tcp_server.cpp:148-161 | Closes an active handle and clears the callbacks; on a handle already closing it notifies and removes at once. |
| TcpServers.TcpServer.CloseComplete | ae/tcp_server.cpp:151-159 | The notification fires together with the removal of the entry of that name, for whichever connection has the name by then, or neither happens. |
| TcpServers.TcpServer.KeepAlive | ae/tcp_server.cpp:86-88 | A message of an open connection puts its wrapper into the current bucket and moves that deadline only; an expired wrapper is not revived. |
| TcpServers.TcpServer.Refresh | ae/tcp_server.cpp:86-88 | The current bucket then holds the live wrapper, which resets the age of that connection only; every reference count still is the number of buckets. |
| TcpServers.TcpServer.OnMessage | ae/tcp_server.cpp:81-89 | The objects implement the protocol state after the message, and with a timeout the wrapper of an active connection is in the current bucket. |
| TcpServers.TcpServer.OnReadError | ae/tcp_connection.cpp:160-167 | After a read error the connection writes no more and has been asked to close, exactly once; the objects implement that protocol state. |
| TcpServers.TcpServer.OnEof | ae/tcp_connection.cpp:160-175 | After the end of the stream it writes no more, one more half-close is pending, and its handle is as it was; the objects implement that protocol state. |
| TcpServers.TcpServer.OnShutdownDone | ae/tcp_connection.cpp:171-175 | The completion of a half-close leaves one less pending and the connection asked to close, exactly once; the objects implement that protocol state. |
| TcpServers.TcpServer.UserCloses | ae/tcp_server.cpp:148-161 | A close by name, always: nothing without an entry; the protocol step for an active handle; for a handle already closing, the notification and the removal at once, in a state that no protocol state describes. |
| TcpServers.TcpServer.EndChange | ae/tcp_connection.cpp:66-92 | If the state of one connection and its session change alike, and the entry goes exactly when it is closed, the whole server implements the changed protocol state. |
| TcpServers.TcpServer.OnCloseDone | ae/tcp_connection.cpp:85-88 | The same for the completion of the close: exactly that entry goes, and one notification fires. |
| TcpServers.TcpServer.Release | ae/tcp_connection.h:57-62 | Giving up the last reference to a wrapper asks its connection to close; any other changes the count only. |
| TcpServers.TcpServer.AddWrapper | ae/tcp_server.cpp:45-49 | Once the local pointer is gone the new wrapper lives by the one bucket that holds it. |
| TcpServers.TcpServer.AttachWrapper | ae/tcp_server.cpp:45-49 | With it every reference count is the number of buckets and every age is right, and the other connections are as they were. |
| TcpServers.TcpServer.AddConnection | ae/tcp_server.cpp:132-134 | The new connection gets its entry, and the protocol its session, if the name is free; otherwise nothing changes: an entry is never replaced. |
| TcpServers.TcpServer.Attach | ae/tcp_server.cpp:45-49 | With a timeout the connection gets its wrapper; the server then implements the protocol again. |
| TcpServers.TcpServer.OnAccept | ae/tcp_server.cpp:35-56 | With a free name the objects implement the protocol state after the accept, with exactly one entry more. With a name in the map no entry is added, and with a timeout the server leaves the protocol. |
| TcpServers.TcpServer.AttachStray | ae/tcp_server.cpp:45-49 | A wheel that holds a wrapper of a connection the server does not know implements no protocol state. |
| TcpServers.TcpServer.NamesInUse | ae/tcp_server.cpp:132-146 | The map has exactly the names of the connections that are not closed yet. |
| TcpServers.TcpServer.Turn | ae/timer_wheel.h:70-78 | Of the wrappers a tick clears, exactly those of the connections whose deadline it is lose their last reference. |
| TcpServers.TcpServer.DropOne | ae/tcp_connection.h:57-62 | Releasing one of them asks its connection to close exactly when it was the last reference, and disturbs no other. |
| TcpServers.TcpServer.DropAll | ae/timer_wheel.h:77 | Clearing a bucket destroys its pointers in any order with the same result. |
| TcpServers.TcpServer.Expire | ae/timer_wheel.h:70-78 | A tick with a timeout: afterwards every connection and every wrapper is as the protocol says. |
| TcpServers.TcpServer.OnTick | ae/timer_wheel.h:70-78 | The objects implement the protocol state after the tick: exactly the open connections at their deadline were asked to close. |
| TcpServers.TcpServer.AskAll | ae/tcp_server.cpp:73-75 | The loop over the map asks every open connection to close and leaves the map as it was. |
| TcpServers.TcpServer.OnServerClosed | ae/tcp_server.cpp:70-79 | The objects implement the protocol state after the close of the server; iterating over the map is safe. |
| TcpServers.TcpServer.AliveWhileHeld | ae/tcp_server.cpp:45-49 | A wrapper is alive exactly while some bucket holds it. |
| TcpServers.TcpServer.ExpiredForGood | ae/tcp_server.cpp:81-89 | A wrapper that had expired in some earlier state is still gone, whatever happened since, messages included. |
| TcpServers.TcpServer.HistoryOf | ae/tcp_connection.cpp:156-177 | The objects after any run, by its events: a handle is active exactly if nothing has asked for the close and the connection was never silent for a timeout; its flag, its pending half-closes and its being closed follow the reports of libuv. |
| TcpServers.TcpServer.SafeToAsk | ae/tcp_connection.cpp:66-92 | A close callback that is set means an active handle and an entry in the map, with no close and no notification so far. |
| TcpServers.TcpServer.Drained | ae/tcp_server.cpp:70-79 | When the closed server has drained, the map is empty and every connection was closed and notified exactly once. |
| TcpServers.OpenIsHeld | ae/tcp_connection.cpp:152-154 | The weak pointer to the wrapper can be locked exactly before the deadline. |
| TcpServers.DueMeaning | ae/timer_wheel.h:70-78 | A cleared wrapper is in no other bucket exactly when it was last inserted one turn ago. |
| TcpServers.Perform | ae/tcp_server.cpp:35-89 | Every event the protocol allows can be performed, and does what the protocol says. |
| TcpServers.Serve | ae/tcp_server.cpp:35-89 | Over any sequence of events the server ends in the state the protocol gives. |
| TcpServers.ServeSecondClose | ae/tcp_server.cpp:148-161 | A run with two closes by name: the connection is notified and gone from the map while its handle is still closing, and no protocol state describes the server. |
| TcpServers.ServeReusedName | ae/tcp_server.cpp:35-56 | A run with a timeout and two accepts under one name: no protocol state describes the server. |
| TaskQueue.ConservedStep | ae/async_task.cpp:20-41 | Every step keeps: executed tasks, then the batch, then the queue, are the exact posting order. |
| TaskQueue.WakeUpStep | ae/async_task.cpp:8-28 | Every step keeps: a queued task has a pending wake-up, a poster about to send, a loop about to swap, or `init` not yet done. |
| TaskQueue.RunKeepsInv | ae/async_task.cpp:8-41 | Both hold over every interleaving of any number of posters with the loop, before and after the handle exists. |
| TaskQueue.ExecutedInOrder | ae/async_task.cpp:30-41 | Each task runs at most once, and in posting order, in every interleaving. |
| TaskQueue.OutsideStep | ae/async_task.cpp:20-41 | Of the tasks not executed yet a post appends one, a call runs and removes the first, and every other step changes nothing. |
| TaskQueue.OutsideIsFifo | ae/async_task.cpp:20-41 | Over every interleaving the batch, the swap and the coalesced wake-ups cannot be told from one FIFO queue. |
| TaskQueue.QuiescentIsDone | ae/async_task.cpp:20-41 | When nothing can move any more every posted task has been executed. |
| TaskQueue.WorkDecreases | ae/async_task.cpp:30-41 | Every step other than a post or a return of the loop brings the end nearer. |
| TaskQueue.AllTasksRun | ae/async_task.cpp:20-41 | Once posting stops, every interleaving ends within a bound known in advance, and then all tasks were executed. |
| TaskQueue.CanFinish | ae/async_task.cpp:20-41 | Every reachable state has such an ending. |
| TaskQueue.HandleOnceAssigned | ae/async_task.cpp:8-28 | Over every interleaving the handle is null until it is assigned and never again, and no thread stands at its send while it is null. |
| TaskQueue.NoSendBeforeAssign | ae/async_task.cpp:25-27 | In no interleaving of any number of threads is a wake-up sent before the handle is assigned. |
| TaskQueue.OthersKeepThread | ae/async_task.cpp:20-28 | Steps of the others leave a poster at its place in the code. |
| TaskQueue.OthersKeepLoop | ae/async_task.cpp:30-41 | Steps of the others leave the loop its batch, and only add to the queue. |
| AsyncTask.Async.Init | ae/async_task.cpp:8-15 | Creates the handle, initialises it and sends once, with the others interfering; a second call does nothing. |
| AsyncTask.Async.RunInThisLoop | ae/async_task.cpp:20-28 | Its own steps are one push, the test of the handle, and one send if and only if the handle had been assigned before that test; the invariant holds whatever the others do between them. |
| AsyncTask.Async.SendIfHandle | ae/async_task.cpp:25-27 | The test and the send: with a handle one send, without one none. |
| AsyncTask.Async.RunFront | ae/async_task.cpp:36-40 | The front task is executed and removed, while others may post. |
| AsyncTask.Async.DrainBatch | ae/async_task.cpp:36-40 | The whole batch is executed, in order; what is posted meanwhile waits. |
| AsyncTask.Async.Process | ae/async_task.cpp:30-41 | Executes in order all that was queued when it swapped. |
| ServerWrites.Writer.WriteTo | ae/tcp_connection.cpp:94-133 | Either libuv has taken the write and nothing was called, or the callback was called at once with its data and the answer of libuv, or -1 if the connection is disconnected; never both. |
| ServerWrites.Writer.Write | ae/tcp_server.cpp:95-107 | By name: taken by libuv, or told its answer, or told -1 if the connection is missing or disconnected; the accounting of callbacks balances. |
| ServerWrites.Writer.WriteInLoop | ae/tcp_server.cpp:109-122 | By name, from any thread: queued; or performed at once, taken or told the answer of libuv; or told -1 if the connection is missing or disconnected; the accounting balances. |
| ServerWrites.Writer.Perform | ae/tcp_connection.cpp:137-145 | A queued write reaches libuv if its connection is still there and connected; else its callback is told -1; it throws exactly if the connection is gone and there is no callback. |
| ServerWrites.Writer.RunTask | ae/async_task.cpp:36-40 | The same for the front task of the queue, which is removed. |
| ServerWrites.Writer.Complete | ae/tcp_connection.cpp:101-111 | A completion calls the callback of that write once, with its data and the status of the completion. |
| ServerWrites.WrittenSettles | ae/tcp_connection.cpp:94-133 | Whatever a write does, it accounts for its callback exactly once: called now or owed by libuv. |
| ServerWrites.FiresOnce | ae/tcp_connection.cpp:94-146 | A callback given with one write has been called once, with the data of that write, or is owed by exactly one write that still waits. |
| ServerWrites.Perform | ae/tcp_connection.cpp:94-146 | Every event keeps the accounting, adds exactly its own write to what was asked, and throws exactly when the front task finds its connection gone and has no callback. |
| ServerWrites.ServeOne | ae/event_loop.cpp:38-96 | One event moves the status and the thread of the loop, its queue and the connections exactly as the history of events says: a function given to the loop is queued unless it comes from the thread that runs the loop or the loop has stopped. |
| ServerWrites.Serve | ae/tcp_connection.cpp:94-146 | Over any run nothing asked is lost or called twice; when no write waits each callback was called once for each time it was given; what a callback is told comes from one event: the status of a completion, or -1 or the answer of libuv for a write not taken, so that success is told by completions only. The run ends early if and only if a task throws, which is a function of the events alone. |
| ServerWrites.CallbacksPreventThrow | ae/tcp_connection.cpp:135-146 | No run throws in which every `write_in_loop` comes with a callback. |
| ServerWrites.ServeTooLate | ae/tcp_connection.cpp:141-144 | A run that does throw: a write without a callback is queued, and its connection is gone before the loop gets to it. |
| ServerWrites.SuccessIsCompletion | ae/tcp_connection.cpp:101-111 | A status of 0 has only a completion with status 0 as its cause. |
| WriteHistory.LoopStatus | ae/event_loop.cpp:38-60 | Over any history the loop is run by exactly the thread that entered it and has not come back, and is stopped exactly if some `run` has returned. |
| WriteHistory.LiveNames | ae/tcp_server.cpp:132-146 | A name has a connection exactly if one was made and not removed since. |
| WriteHistory.WaitsIff | ae/event_loop.cpp:79-96 | A `write_in_loop` waits if and only if its name has a connection, the caller is not the thread that runs the loop, and no `run` has returned. |
| UdpSessions.ToStringInjective | app/udp_proxy.cpp:43 | Different numbers have different decimal texts, negative ones included. |
| UdpSessions.KeyInjective | app/udp_proxy.cpp:42-43 | The keys are equal if and only if the four parts are, for any server string and ports and any client address without an `@`. |
| UdpSessions.KeyExample | app/udp_proxy.cpp:42-43 | The key of one request, letter by letter. |
| UdpSessions.AtSignCollides | app/udp_proxy.cpp:42-43 | An `@` in the client address can make two different requests collide. |
| UdpSessions.UdpAgent.constructor | app/udp_agent.cpp:5-10 | An agent serves the client and server it was built for: it keeps each port as the number below 65536 that differs from it by a multiple of 65536. |
| UdpSessions.AgentMeaning | ae/socket_addr.cpp:7-18 | An agent for a request has its addresses and, for ports from 0 to 65535, its ports unchanged. |
| UdpSessions.KeyHits | app/udp_proxy.cpp:46-56 | The string-keyed cache has an entry exactly when the map on 4-tuples does, and the same agent in it. |
| UdpSessions.AddSession | app/udp_proxy.cpp:54 | Adding a new agent under its key keeps the cache and the map in step. |
| UdpSessions.UdpProxy.GetAgent | app/udp_proxy.cpp:40-59 | The agent the request had before, or a new one, with the addresses of the request and its ports modulo 65536; no other entry changes. |
| UdpSessions.UdpProxy.Forward | app/udp_proxy.cpp:33-38 | The message goes to the agent of that request, which has the server of that request and its port modulo 65536, and to no other. |
| UdpSessions.Serve | app/udp_proxy.cpp:40-59 | Over any history two requests get the same agent exactly when they are the same, and every agent has the addresses of its request and its ports modulo 65536. |

## Left out

- libuv, sockets, DNS and logging: the environment of the protocols above.
- msgpack decoding in `TcpProxy::unpack` and `UdpProxy::unpack`: the unpacked tuple is a parameter.
- `TcpProxy`, `TcpAgent`, `TcpClient`, `TcpAcceptor`, `UdpSocket`, `SocketAddr`, `Timer`: thin layers over foreign calls.
- The replies from a real server to a client in `UdpProxy`: the relaying callback of an agent has no state of its own.
- User callbacks that call back into the server, the connection or the loop while they run.
- `EventLoop::stop`, and tasks posted after it: whether a task left in the queue then runs depends on libuv.
- What follows a close of a connection by its user while another is pending, and `TcpConnection::close` called directly.
- The wheel after a change of the timeout of a server that has begun to listen.
- TcpServers.TcpServer.OnAccept: does not follow a connection whose name is still in the map beyond its accept, since no shared pointer keeps it alive while libuv still refers to it.
- UdpSessions.UdpProxy.GetAgent: asks for a client address without an `@`, which every IP address is; UdpSessions.AtSignCollides shows what happens otherwise.
- Negative numbers in `pack_num` and `unpack_num`: shifts of negative values are the compiler's.
- The `connection` argument of `TcpServer::write`: writing by name covers it, a missing name standing for a null pointer.
- Whether the weak pointer from a wrapper to its connection can still be locked: once it cannot, the close callback is cleared, so the call would do nothing.
- Whether a user has set the message and close callbacks: notifications are counted as if one is set.
- Memory reclamation: a deleted trie node leaves the owned nodes and is not used again.
