# BPSP, verified

BPSP is a publish/subscribe broker in C with a Java client. Clients subscribe to topic patterns; the broker keeps the
patterns in a tree and sends every publication to the subscribers it matches. This project models the broker's
linked cores in Dafny and proves what they promise each other.

| files | what they model |
|---|---|
| Basics, Topics, Tries, SearchOrder, TopicTree, Entities | the tokenizer; the topic tree as a value, with matching and the order of a search defined apart from any tree; the tree on the heap, tied to that value |
| Bits, HashChains, HashTable, MergeSort, HashSort | the hash table under everything: chains, application order, bucket doubling, the in-place merge sort |
| Headers, HeaderScan, Frames, JavaHeaders | the header codec on both ends, the in-place scanner, the 16-bit size account, frames built from frames |
| ByteOrder, Stream, Receiver, Senders | fixed fields, the read and write loops, whole frames under any fragmentation, concurrent senders |
| Subscriptions, Publish | the client tables against the tree over all requests; the publish loop from search to delivered frame |
| Delivery, LockOrder | departures against deliveries as interleaved steps; the lock order of all server paths and freedom from deadlock |
| Replies | the Java client's queue of waiting handlers against the broker's loop |

Classes model what the source updates in place (tree, hash table, frame, connection, broker, Java client). Their
methods are proved against pure functions, and the theorems about all inputs, runs or reachable states are lemmas
about those functions. A byte is a character below 256 and text is a string of bytes. The state machines take one
step between two lock operations; a run is any finite sequence of steps by any threads.

Where the code and its documents differ, the model follows the code. The specification leaves open whether `a/*`
matches `a` (specs/specification.md:252); it does not. A subscription with a topic is answered with OK whatever it
came to, because the inner status shadows the outer one (server/handle.c:168; Subscriptions.Broker.Sub states both). A level keeps the slashes in front
of it: `a//b` has the levels `a` and `/b`.

## Model

| member | source | states |
|---|---|---|
| Topics.ExtractToken | lib/topic.c:230-268 | The tokenizer accepts exactly the nonempty topics without a slash at either end and without a lone `*` before the last level; the tokens it counts, walked by terminators, stay inside the buffer and are the topic's levels. |
| Topics.AcceptedIs | lib/topic.c:230-268 | Which texts are accepted, byte by byte: not empty, no slash at either end, and every star with a slash behind it has a byte other than a slash in front of it. |
| Topics.CutBufferWalks | lib/topic.c:270-270 | Stepping from terminator to terminator through the cut buffer visits the levels of the topic, one after the other, and never leaves the buffer. |
| Topics.StrtokR | lib/topic.c:240-253 | One `strtok_r` call: the token it hands out, the one byte it overwrites, where it resumes; runs of slashes stay with the next level. |
| Topics.JoinLevels | lib/topic.c:230-279 | The levels joined by `/` give back the topic. |
| Topics.LevelsInjective | lib/topic.c:230-279 | Different topics have different levels, so they spell different paths. |
| Tries.HitIsMatch | lib/topic.c:502-565 | A path that the tree walk can follow from a node is a pattern that matches: equal literals, `+` for one level, a final `*` for one or more. Both directions. |
| Tries.SearchIsScan | lib/topic.c:502-565 | The search returns each subscriber whose pattern selects the topic exactly once, and nobody else. |
| Tries.SearchAgreesWithScan | lib/topic.c:502-565 | The search result and a scan of the flat subscriber list are the same multiset. |
| Tries.RunSearch | lib/topic.c:502-565 | The same for the tree that any sequence of additions and deletions leads to, against the flat list of that run. |
| Tries.RunIsFlat | lib/topic.c:281-451 | Every run of additions and deletions keeps the tree well formed and its members those of the flat list. |
| Tries.InsertWf | lib/topic.c:281-383 | An addition keeps the tree well formed: parents present, nothing below `*`, subscribers at the node their topic spells, no empty leaf but the root. |
| Tries.InsertMembers | lib/topic.c:281-383 | An addition adds that subscriber and changes no other. |
| Tries.RemoveWf | lib/topic.c:385-451 | A deletion keeps the tree well formed and leaves every node's subscribers as they were, but for the one taken out. |
| Tries.RemoveMembers | lib/topic.c:413-451 | A deletion takes out that subscriber and no other. |
| Tries.RemoveFreesDeadNodesOnly | lib/topic.c:385-411 | Pruning frees a node exactly when it is not the root and no surviving subscriber sits on it or below it. |
| Tries.InsertRemove | lib/topic.c:385-451 | Adding a fresh subscriber and deleting it gives back the same tree, nodes and orders included. |
| Tries.SameMembersSameTrie | lib/topic.c:385-451 | A well-formed tree is determined by who sits where: it holds no node it does not need. |
| SearchOrder.TreeOrder | lib/topic.c:502-565 | In a well-formed tree, of two subscribers that a search finds the first one's pattern has `*` before `+` before a word at the first level where they differ, or they have one pattern and keep the order of their node's table. |
| SearchOrder.SearchOrder | lib/topic.c:502-565 | After any run the same, and subscribers of one pattern are found in the order in which they were added. |
| SearchOrder.SeatsAreFlat | lib/topic.c:281-451 | After any run every node's table is what the flat list holds with that pattern, in the same order. |
| SearchOrder.BeforeIsStrict | lib/topic.c:502-565 | The order of patterns is strict and transitive. |
| TopicTree.Tree.AddSubscriber | lib/topic.c:281-383 | On the heap: the status for every case, the new tree as the specified insertion, the heap invariant kept (mirrored parents and children, literal keys, seats), and a node set exactly when the subscriber is in the tree. |
| TopicTree.Tree.DelSubscriber | lib/topic.c:413-451 | On the heap: the new tree is the specified removal, every surviving node stays where it was, the subscriber's node is cleared, the invariant is kept. |
| TopicTree.Tree.PruneNode | lib/topic.c:385-411 | The upward loop unhooks exactly the chain of dead nodes that the specification prunes. |
| TopicTree.Tree.NodeAddSub | lib/topic.c:132-155 | A subscriber joins a node's table once; a second time is refused. |
| TopicTree.Tree.StarAndPlus | lib/topic.c:517-543 | What one node adds to the search before the walk goes down to the literal child. |
| TopicTree.Tree.NodeFindSubscribers | lib/topic.c:502-565 | The loop down literal children with a recursion into every `+` returns the specified list in the specified order: `*`, then below `+`, then below the literal. |
| TopicTree.Tree.FindSubscribers | lib/topic.c:567-596 | A search for a topic string: refused or answered with the specified list. |
| TopicTree.SharedIdDeletesTheOther | lib/topic.c:413-451 | With two records under one id in a node, a deletion by id that finds the other one takes that out and leaves the one it was to delete. |
| TopicTree.DeletionIsRight | lib/topic.c:413-451 | A deletion by id leaves the right table exactly when the search finds the very record. |
| TopicTree.TokenToArray | lib/topic.c:272-279 | The walked tokens, in an array, are the levels. |
| HashTable.Table.Add | deps/uthash.h:397-415 | Adding an item with a new key keeps all that HASH_FSCK checks and every item in bucket `hashv mod num_buckets`, and appends the item to the application order. |
| HashTable.Table.Delete | deps/uthash.h:451-478 | Deleting an item keeps the same invariant and takes just that item out of the order. |
| HashTable.Table.Find | deps/uthash.h:154-175 | Finds the item with the key, or null when no item of the table has it. |
| HashTable.Table.Iterate | deps/uthash.h:1055-1062 | Iteration yields the items in application order. |
| HashTable.Table.Fsck | deps/uthash.h:517-564 | The check that the library itself writes down finds no fault in a valid table. |
| HashTable.Table.AppendList | deps/uthash.h:279-285 | An item appended keeps both link directions, head and tail consistent. |
| HashTable.Table.AddToBkt | deps/uthash.h:766-785 | An item put at the head of its bucket, with the doubling when the bucket is full and doubling is not inhibited. |
| HashTable.DelInBkt | deps/uthash.h:788-829 | An item unhooked from its chain; every other chain is untouched. |
| HashTable.Table.ExpandBuckets | deps/uthash.h:832-882 | Doubling: the new chains are the redistribution of the old, the ideal length is the quotient rounded up, the excess count is exact, and the inhibition rule is followed. |
| HashChains.Doubling | deps/uthash.h:849-868 | Each item is moved exactly once, to its old index or to that plus the old number of buckets, and the set of items stays the same. |
| HashChains.AllMoved | deps/uthash.h:849-868 | No item is lost or invented by a redistribution. |
| HashChains.RehashSum | deps/uthash.h:849-868 | The item total is kept. |
| Bits.CeilByShift | deps/uthash.h:845-847 | The shift and mask expression is the number of items divided by the buckets, rounded up. |
| Bits.AndMask | deps/uthash.h:431-434 | Masking with a power of two minus one is the remainder. |
| HashSort.Sort | deps/uthash.h:889-971 | For any comparison at all the in-place merge sort terminates with a valid table whose list is the specified order: `prev`, `next`, head and tail consistent, chains untouched. |
| HashSort.MergeRuns | deps/uthash.h:915-956 | The inner loop moves two runs onto the list as their merge, without losing or repeating an item. |
| MergeSort.StableSort | deps/uthash.h:889-971 | For a total preorder the specified order is sorted, a permutation, and keeps the order of items that compare equal. |
| MergeSort.MergeClass | deps/uthash.h:924-944 | A merge keeps the order of equal items because the left run wins ties. |
| Frames.Frame.SetVarHeader | lib/frame.c:190-230 | What a header update returns and stores, for every outcome and whatever the account says. From an exact account: an update is accepted just when the table still fits, an accepted one leaves the account exact just when key and value are shorter than 65536, a refused addition changes nothing, a refused overwrite leaves the account short by the new value. |
| Frames.SpendExact | lib/frame.c:190-230 | What the 16-bit arithmetic of an update means for an account that was exact. |
| Frames.Frame.ParseVarHeader | lib/frame.c:256-307 | The in-place scanner terminates, stores the pairs of the text as it was before the scan wrote into it, last value of each key in first-occurrence order, and reports whether the text ended between pairs; 65535 bytes are fine as long as no pair closes with the last of them. |
| HeaderScan.ClosePair | lib/frame.c:270-298 | At a value's closing quote the cursors bound exactly the next pair of the text. |
| HeaderScan.ScanEnd | lib/frame.c:301-306 | At the end a set key cursor means a pair was left unfinished, and nothing else does. |
| HeaderScan.Scanned | lib/frame.c:256-307 | The loop as a machine with a 16-bit index: it ends for every text of up to 65535 bytes, wherever the index wraps, and changes bytes to NUL only. |
| HeaderScan.Wraps | lib/frame.c:270-299 | The index falls back at most once, and only when the last of 65535 bytes is a quote. |
| HeaderScan.ScannedIsParse | lib/frame.c:256-307 | While no pair closes with the last of 65535 bytes the machine ends as the text says, whatever it wrote into the text on its way. |
| Headers.ParseByQuotes | lib/frame.c:270-304 | For every text: the scan takes the unescaped quotes four by four, passes over the byte behind each pair unseen even when it is a quote, and rejects exactly when the number of quotes seen is not a multiple of four. |
| Headers.AllSeen | lib/frame.c:270-304 | When no quote directly follows another, none is passed over. |
| Headers.EncodeExample | lib/frame.c:59-102 | The printed form of two headers, byte by byte. |
| Headers.GetIsHeld | lib/frame.c:178-188 | A look-up gives a value exactly when the table holds that header. |
| Headers.SetAllSpec | lib/frame.c:190-230 | A run of updates leaves each key once, in first-occurrence order, with its last value. |
| Headers.SetSize | lib/frame.c:203-227 | How an update changes the sum of key length, value length and 5 over the table. |
| Headers.RoundTrip | lib/frame.c:59-102 | Scanning the printed form of distinct, well-escaped headers gives the same headers in the same order, and the last pair closes one byte before the end. |
| Headers.ParseEncoded | lib/frame.c:256-307 | The same after any text that ends in a semicolon, so each header is read on its own. |
| Headers.ParsedEscaped | lib/frame.c:256-307 | What is read from a text without NULs, empty keys or values and an escaped quote at its start is well escaped. |
| Frames.ToBytes | lib/frame.c:59-102 | The printer fills exactly the bytes of the size account with the wire form and touches no byte after them. |
| JavaHeaders.FromString | client/java-client/src/main/java/com/core/frame/VarHeader.java:41-94 | The Java scanner returns the map of the same pairs, or fails on the same texts, as the broker's. |
| JavaHeaders.ToStr | client/java-client/src/main/java/com/core/frame/VarHeader.java:96-108 | The Java printer's text is the wire form of the values in the order handed out. |
| JavaHeaders.JavaRoundTrip | client/java-client/src/main/java/com/core/frame/VarHeader.java:41-108 | Printed in any order, a map of well-escaped headers reads back as itself in Java and as the same headers at the broker. |
| JavaHeaders.SameTable | client/java-client/src/main/java/com/core/frame/VarHeader.java:41-94 | The broker's table and the Java map filled from the same pairs hold the same headers. |
| Frames.Frame.MallocPayload | lib/frame.c:352-390 | The payload buffer after an allocation: its size, the sizes recorded, the bytes a resize keeps. |
| Frames.Frame.PutPayload | lib/frame.c:392-412 | A replacement holds exactly the data; an append writes the data at the position, keeps what is before it and what a resize leaves behind it. |
| Frames.Frame.Build | lib/frame.c:452-479 | Building sets the time and completes the frame exactly when the account has room and the opcode is not 0. |
| Frames.Frame.CopyVarHeaders | lib/frame.c:481-492 | Copying headers into any table succeeds exactly when it still fits after each header and gives the run of updates; into an empty table it never fails and reproduces the source, order included. |
| Frames.Frame.Copy | lib/frame.c:505-523 | A copy of a completed frame has the same control bytes, headers and payload in a buffer of its own; with the build it has a new time and is complete, or has no room for it. |
| Frames.Frame.MSG | lib/frame_op.c:143-153 | A delivery keeps everything of its source but the opcode and the time, and fails exactly when the time does not fit or the source is not complete. |
| Frames.Frame.OK | lib/frame_op.c:155-182 | A positive reply has status 200, its time, and all else of the request's headers and flag, and succeeds exactly when both of its own headers fit. |
| Frames.Frame.ERR | lib/frame_op.c:184-225 | The same for a negative reply, with status 500 and the payload spelled out. |
| Frames.ReplyCarries | lib/frame_op.c:155-225 | What a reply says: its status code, its time, and every other header as the request had it. |
| Frames.ReplyOrder | lib/frame_op.c:155-225 | Where they stand: the time in its old place, the status at the end. |
| ByteOrder.Swap32Reverses | lib/datatype.h:49-55 | The masks and shifts reverse the four bytes. |
| ByteOrder.E32 | lib/datatype.h:49-55 | Encoding writes the most significant byte first on either kind of host and touches no other byte. |
| ByteOrder.E16 | lib/datatype.h:33-38 | The same for two bytes. |
| ByteOrder.AnyHost32 | lib/datatype.h:57-65 | Either kind of host reads from four bytes the number they stand for. |
| ByteOrder.AnyHost16 | lib/datatype.h:40-47 | The same for two bytes. |
| ByteOrder.FieldOf32 | lib/datatype.h:49-65 | A field stands for the number that was written into it. |
| Stream.NetRead | lib/net.c:264-299 | Whatever the chunks, a blocking read yields exactly the next bytes, or all that is left and a closed status, or some of them and an error; a non-blocking one yields some. |
| Stream.NetWrite | lib/net.c:301-336 | A write sends a prefix of the buffer; a blocking one the whole of it exactly when it reports success, a non-blocking one some of it. |
| Stream.RecvFrame | lib/frame_rw.c:8-87 | A receive yields what the bytes hold, for every outcome and any fragmentation, with only the time set anew, and consumes exactly the frame, unless a read fails. |
| Stream.SendFrame | lib/frame_rw.c:89-151 | An accepted frame goes out whole, a failed one as a prefix of its bytes, an incomplete one not at all. |
| Stream.Layout | specs/specification.md:12-23 | Which byte of a frame holds what: two bytes of header size, opcode, flag, four bytes of payload size, headers, payload. |
| Stream.DecodeBytes | lib/frame_rw.c:8-151 | Decoding the bytes of a frame gives the frame back and leaves exactly what follows. |
| Receiver.DecodeCut | lib/frame_rw.c:8-87 | A frame cut at any byte is never taken for a frame. |
| Receiver.ReceiveAll | lib/frame_rw.c:8-87 | A reading loop on a stream of whole frames and at most one cut frame gets exactly the whole frames in order, each with only its time value replaced; a failed read only cuts the row short. |
| Receiver.ReceiveFirst | lib/frame_rw.c:8-87 | The same for a given number of receives when anything at all follows the whole frames. |
| Receiver.ReceivedIsSound | lib/frame_rw.c:8-87 | A frame received from such a block can be sent on: the next receiver reads it back. |
| Receiver.UpdatedIsSound | server/handle.c:95-109 | The same after well-escaped updates that fit. |
| Receiver.RestampFits | lib/frame.c:452-479 | A new stamp replaces the value in place and leaves the size as it was. |
| Senders.NextInv | lib/client.c:438-450 | Every step of concurrent senders keeps what is taken before the first failed write a row of whole frames and at most one unfinished one. |
| Senders.WholeFrames | lib/client.c:438-450 | In every run, for any interleaving and partial writes, the bytes taken before the first failed write are the whole frames of different threads and then the start of at most one more; without a failed write these are all the bytes. |
| Senders.ReceiveSent | lib/frame_rw.c:8-151 | A receiver on such a wire gets exactly those frames in order, each with only its time value replaced. |
| Senders.ReceiveBefore | lib/frame_rw.c:8-151 | When writes go on after a failed one, the receiver still first gets all frames that were whole before it. |
| Subscriptions.Broker.Accept | lib/broker.c:172-209 | A new client gets an id that no connected client has; everything between tables and tree is kept, also while other clients are on their way out, as long as none of their ids is drawn. |
| Subscriptions.Broker.Sub0 | lib/client.c:500-534 | Filing a subscriber: a second one under the same identifier is refused and changes nothing; otherwise the table entry is made and the tree decides. |
| Subscriptions.Broker.Sub | server/handle.c:149-196 | A subscription for each case: no topic, duplicate key, accepted topic, refused topic (the entry stays without a node), with the exact table and tree and what is answered, and the agreement of all tables with the tree kept. |
| Subscriptions.Broker.Unsub | server/handle.c:198-235 | A request to unsubscribe: refused without a topic, a tag or an entry, otherwise exactly that entry and that subscriber are gone. |
| Subscriptions.Broker.UnsubAll | lib/client.c:260-285 | All and only this client's subscribers leave the tables and the tree. |
| Subscriptions.Broker.Disconnect | lib/broker.c:261-283 | A departure without anything between its steps: the client and all its subscribers are gone, and nothing else. |
| Subscriptions.Broker.LeaveTable | lib/broker.c:268-274 | The first step of a departure frees the id and keeps tables and tree in agreement; other requests may come before the second. |
| Subscriptions.Broker.LeaveTree | lib/client.c:358-382 | The second step takes all and only this client's subscribers out of tables and tree, whatever has come in between. |
| Subscriptions.IdsClash | lib/client.c:45-62 | Two subscriber records share an id exactly when their clients share one and their identifiers are equal. |
| Subscriptions.Broker.SameId | lib/client.c:45-62 | Because client ids have one length, equal subscriber ids mean one client and one identifier. |
| Subscriptions.GenId | lib/client.c:45-62 | The id that is filled in by offsets is the client id, the tag, a slash, the topic and a terminator. |
| Subscriptions.PartsOfId | lib/client.c:64-90 | The offset helpers find the topic and the identifier inside the id. |
| Subscriptions.IdentifierClash | lib/client.c:92-108 | Two tag and topic pairs have one identifier exactly when they are equal or the longer tag is the shorter one, a slash and the start of the other topic. |
| Delivery.NextInv | lib/broker.c:211-283 | Every step of publishers, arrivals and departures keeps the client table to live clients that have not left. |
| Delivery.DeliverySafe | lib/broker.c:211-283 | In every reachable state a thread that delivers holds the read lock, and its target is in the table and not freed, although addresses and ids are reused. |
| LockOrder.ProgramDisciplined | server/handle.c:263-301 | Every path of a client's thread, whatever requests it serves and whether it ends at a read or right after a failed request, takes its locks in rising order and gives all of them back. |
| LockOrder.DestroyNeat | lib/client.c:260-282 | The departure path nests the tree lock in the client's mutex and keeps the order. |
| LockOrder.DeliverNeat | lib/broker.c:211-259 | The delivery path nests the target's locks, one at a time, in the table lock and keeps the order. |
| LockOrder.Progress | lib/client.c:260-282 | While a thread is unfinished some thread can step, with or without preference for writers. |
| LockOrder.NoCycle | lib/client.c:260-282 | Threads never wait for each other in a ring. |
| LockOrder.NoDeadlock | lib/client.c:260-282 | Both in every reachable state of any number of clients. |
| Replies.BPSPClient.Pub | client/java-client/src/main/java/com/core/client/BPSPClient.java:118-139 | A publication sends its frame, with opcode, flag bits, topic and data as they must be, and queues its handler, or does neither; either way it is a step of the run model. |
| Replies.BPSPClient.Sub | client/java-client/src/main/java/com/core/client/BPSPClient.java:141-166 | A subscription sends its frame, queues and registers, or does none of them; it is a step of the run model. |
| Replies.BPSPClient.Unsub | client/java-client/src/main/java/com/core/client/BPSPClient.java:168-193 | An unknown subscriber is passed over; otherwise the request is sent and queued and just that registration goes; it is a step of the run model. |
| Replies.BPSPClient.ProcessFrame | client/java-client/src/main/java/com/core/client/BPSPClient.java:233-278 | A reply takes the first waiting handler; a message goes to the subscriber registered under its tag and topic, and takes no handler. |
| Replies.PubFrameIs | client/java-client/src/main/java/com/core/client/Publisher.java:62-72 | A publication's frame has opcode 3, asks for a reply and for echo, and carries the handler's topic, no tag and the data; it belongs to its handler. |
| Replies.TagFrameIs | client/java-client/src/main/java/com/core/client/Subscriber.java:46-68 | A SUB or UNSUB frame has its opcode, asks for a reply, and carries the handler's topic and tag; it belongs to its handler. |
| Replies.IsSetIsMask | lib/frame.h:106-106 | Testing a flag bit is masking the byte, for both bits. |
| Replies.ConsumerIs | client/java-client/src/main/java/com/core/client/BPSPClient.java:249-265 | A message is looked up under its topic, a slash and its tag, with nothing and `_0` for what is missing; other frames have no consumer. |
| Replies.RunRegistry | client/java-client/src/main/java/com/core/client/BPSPClient.java:141-193 | In every run the registered handlers are exactly those whose last request was a SUB, judged by the frames sent, and the requests the broker has not taken are the last ones sent. |
| Replies.SubscribedGets | client/java-client/src/main/java/com/core/client/BPSPClient.java:141-166 | After a SUB that was sent, a message with the handler's topic and tag goes to it, and other registrations stay. |
| Replies.UnsubscribedGetsNone | client/java-client/src/main/java/com/core/client/BPSPClient.java:168-193 | After an UNSUB such a message has no consumer, a new SUB is accepted, and other registrations stay. |
| Replies.KeysClash | client/java-client/src/main/java/com/core/client/Subscriber.java:42-44 | Two handlers share an identifier exactly when the longer topic is the shorter one, a slash and the start of the other's tag; a message for one then goes to the other. |
| Replies.ReplyIsOf | lib/frame_op.c:155-225 | A reply belongs to a handler exactly when its request does. |
| Replies.HandleReply | server/handle.c:16-37 | What the broker answers: nothing without the ACK flag, else the reply that the run model sends, OK with status 200 or ERR with status 500, its time, and all other headers and the flag of the request; it fails exactly when its headers do not fit. |
| Replies.NextInv | client/java-client/src/main/java/com/core/client/BPSPClient.java:118-247 | Every step keeps the queue equal to the handlers of the replies in flight, then those of the requests in flight. |
| Replies.RepliesMatch | client/java-client/src/main/java/com/core/client/BPSPClient.java:233-247 | In every run each OK and ERR goes to the handler of the request it answers and is of that handler; none arrives with an empty queue. |
| Publish.Overwrite | server/handle.c:95-102 | Updating the same headers again over an earlier round, complete or broken off, gives what updating the original would, order included. |
| Publish.Update | lib/frame.c:190-230 | One update of a round over an earlier round: from an exact account it succeeds exactly when the table fits with it, and a refused addition changes nothing. |
| Publish.DeliverMsg | lib/broker.c:211-259 | Who one delivery goes to and the headers of the frame then; it fails exactly at the first update that does not fit. |
| Publish.TakeTurn | server/handle.c:89-115 | One turn of the loop sends exactly when the subscriber's client is there and all four updates fit. |
| Publish.DeliverAll | server/handle.c:89-115 | The loop that reuses one frame sends, as long as the size account is exact, exactly the frames of the turns whose updates all fit, each the frame that would be built for that subscriber alone, in search order, each turn with the client table it meets, without the publisher's own unless echo is set; a refused addition only ends its own turn. |
| Publish.ServedIffExpected | server/handle.c:89-115 | Every wanted subscriber whose client is there gets its fresh frame exactly when no refused overwrite spoils the account and every update of its turn fits. |
| Publish.FitIsServed | server/handle.c:89-115 | When every update of every turn fits, every subscriber is served. |
| Publish.RoomyAllFit | server/handle.c:89-115 | With room for the longest texts every update fits. |
| Publish.HandlePub | server/handle.c:69-135 | A whole publication: no topic, nobody to deliver to, no room for the time, or the deliveries above to the subscribers that the tree's search finds, each looked up in the client table of its own turn; in all cases nobody is sent anything but clients that are there and have a subscriber in that list, and with flag bit 0x40 clear never the publisher. |
| Publish.ExpectedIs | server/handle.c:89-115 | The frames expected, one by one and in the order of the list: subscribers of other clients, or of all with echo, whose client is there at their turn, each with the frame built for it alone. |
| Publish.DeliveredIs | server/handle.c:89-115 | While the size account is exact the frames delivered are, in the order of the list, those of such turns whose four updates all fit. |
| Publish.EchoRule | server/handle.c:91-93 | With flag bit 0x40 clear the publisher gets nothing back; with it set its selected subscribers are served; other clients' are in both cases. |
| Publish.FreshOrder | server/handle.c:95-109 | Where a delivered frame's headers stand: the topic in its old place, then tag, origin and sender. |
| Publish.FreshCarries | server/handle.c:95-109 | A delivered frame carries the subscriber's own tag and pattern, the topic published to, the sender, and otherwise the publisher's headers and payload. |
| Publish.ReachesMatches | server/handle.c:69-115 | While no client comes or goes, a publication is sent exactly to the subscribers whose pattern selects its topic and whose client is there. |
| Publish.ReachesOnlyMatches | server/handle.c:69-115 | Whatever clients come and go between two deliveries, nobody gets a frame but subscribers whose pattern selects the topic. |
| Publish.QuietBroker | lib/broker.c:211-259 | In a broker without a departure under way every subscriber's client is found, so each subscriber in the tree whose pattern selects the topic is sent its frame. |
| Publish.ReachesItsSubscriber | client/java-client/src/main/java/com/core/client/BPSPClient.java:249-265 | The Java client hands a delivered frame to the very subscriber that subscribed with its tag and pattern. |

## Left out

- TopicTree.Tree.AddSubscriber: a second subscriber record with the id of another one in the tree is excluded. The code files both under one key, which its hash table does not allow for. It comes to this only when a new client draws the id of one that is on its way out (Subscriptions.IdsClash says when, TopicTree.SharedIdDeletesTheOther what a deletion then does).
- TopicTree.Tree.DelSubscriber: `repr` keeps the freed nodes as ghost; that no freed node is reachable is what `Linked` says.
- HashTable.Table.Add: counters are unbounded, so the wrap of 32-bit item and bucket counts is not modelled; nor are allocation failure, Bloom filters and the concrete hash functions (the hash is any function of the key).
- HashSort.Sort: the comparison is a function of the two keys.
- Frames.Frame.SetVarHeader: a new header with an empty value is excluded, since it then has no value at all (lib/frame.c:23).
- Frames.Frame.ParseVarHeader: a text of 65535 bytes in which a pair closes with the last byte is excluded from the in-place contract, because the index then wraps and the rest is read from a text already written into; HeaderScan.Scanned proves that the loop ends for that text too. Also excluded are pairs with a key and an empty value, and a text that together with the table needs more than 65535 bytes.
- Frames.Frame.PutPayload: the wrap of a 32-bit payload size is excluded; bytes that nobody has written are unspecified.
- Stream.RecvFrame: header blocks outside the scanner's domain above are excluded.
- Senders.WholeFrames: says nothing of the bytes taken after a failed write but that they come last.
- Subscriptions.Broker.Accept: some drawn id is free, none belongs to a client on its way out; the loop of draws is a given list.
- Delivery.DeliverySafe: accept is one step, as it takes no lock; removal, unlocking and freeing are separate steps.
- LockOrder.NoDeadlock: which branches a request takes is arbitrary instead of computed; waiting on sockets is not waiting on locks.
- Publish.DeliverAll: once a refused overwrite has spoilt the size account, which frames are sent after it is left open, but not to whom. Tag, pattern, topic and sender's address are not empty and shorter than 65536.
- Publish.HandlePub: its reply is Replies.HandleReply; the sends are recorded as frames, whose bytes are Stream.SendFrame's.
- Replies.RepliesMatch: sending and queueing a request are one client step; the channels hand over frames unchanged but for the time, which is what Receiver.ReceiveAll proves; the connection handshake comes before the first step.
- The hash tables inside tree nodes, clients, the broker and frames are maps or lists in insertion order, which HashTable is proved to behave as.
- Subscriber records copied into a search result are references to the same record; utarray is a sequence.
- Sockets, signals, logging, timestamps (an opaque text of 27 characters), random ids, command-line tools, user interface.
- Freeing order at broker shutdown, client__write, net__write_lock, frame__dup, client__sub1 and other paths that the server does not use.
- Java frame reading and writing, its append of payload data and its size count when a header is set twice.
- Character sets: lengths in Java count characters, lengths in C count bytes; they agree for bytes.
- A tag or topic that is empty in a Java request, which the broker's scanner does not take.
