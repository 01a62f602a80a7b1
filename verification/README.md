# Shoreline in Dafny

Shoreline is a pixelflut server: clients send textual commands over TCP, the server draws their
pixels into framebuffers and merges these for display.  This project models the parts of the
server that have to be right together and proves what they promise:

* **The command parser** (`Protocol`, `Segmentation`, `Grammar`, `Streams`).  The parse loop of a
  connection as a pure function of the bytes received, an independent grammar of what a client may
  write, and the exact condition under which it does not matter how the stream is cut into reads;
  `Examples` holds a concrete stream.
* **The ring buffer and the connection thread** (`Ring`, `Connection`).  The wrapping buffer as a
  bounded byte queue, and the thread that parses out of it, rolls back incomplete commands,
  executes complete ones and replies.  The thread is shown to compute the pure parser for every
  sequence of reads, ring size and wrap position.
* **Numbers, pixels and replies** (`Numbers`, `Pixels`, `Replies`).  32-bit arguments, colour
  formats and the text of replies, which a client may send back.
* **Framebuffers** (`Framebuffer`, `Drawing`, `Coalesce`, `EndToEnd`, `LinuxFb`).  Drawing, optional
  alpha blending, the shuffled merge of the per-node framebuffers, the way from socket to screen,
  and the encoding for a Linux framebuffer device.
* **The intrusive list and the protocols on it** (`LList`, `Workqueue`, `ConnectionList`).  The heap
  list as a sequence, the work queues and the list of connection threads as state machines over
  the atomic steps of all threads.

`dafny verify dfyconfig.toml` checks everything.

Conventions of the model.  Pointers into the ring are indices.  `char` is signed and pixels are
little-endian.  The features `SIZE` and `OFFSET` are compiled in, as by default; alpha blending is a
parameter, because it is off by default but changes the arithmetic.  A framebuffer has fewer than
2^32 pixels.  The socket is the environment: `Serve` takes the client's bytes and a list that says
how many bytes each read returns, so it covers every run; between two commands other threads may
do anything to the two framebuffers (`Others`), and the ghost log that `Serve` returns says what
happened in which order.  Random numbers, the results of callbacks and the moment of a shutdown are
parameters as well.  `hide` statements only narrow what a proof looks at.

Where the source and its comments differ, the model follows the code: a malformed `PX` or `OFFSET` is
not skipped but waits until the ring is full (`Stuck`); a pixel is queried only if the last
whitespace byte at hand after Y is a newline; an offset also moves pixel queries.

Properties one would expect that do not hold of the code as it is, each with an input that shows it
and the exact condition under which it does hold:

* Cutting the stream differently can turn a set into a get (`CutsMatter`); the meaning is independent
  of the cuts exactly for unambiguous streams (`SegmentationIndependent`), that is, for a well-formed
  client, exactly if no gap before a colour contains a newline (`PlainIsUnambiguous`).
* Blending can overflow a channel over a partly transparent pixel (`BlendWraps`, `EqualSetsDarken`);
  it never does exactly for the alphas of `TruncationFree`.
* Screen offsets of the device misplace pixels and make the update write behind its buffer
  (`PannedScreenFails`, `PlacedAsExpected`, `LastRowDecides`).
* A worker thread that ends normally never gives its lock back, so threads that enqueue wait forever
  (`NormalExitHappens`, `NormalExitKeepsLock`).  A lock can come free exactly if `CanFree`
  (`LockComesFree`): once a worker holding it has been told to stop, only a failing error handler
  frees it.

## Model

| member | source | states |
|---|---|---|
| Segmentation.SegmentationIndependent | network.c:316-459 | For every stream: all ways of cutting it into reads give the same commands, status and unread bytes if and only if no `PX` command in it has a newline inside, but not at the end of, the whitespace after Y. |
| Segmentation.NoGapUnambiguous | network.c:354-360 | The condition holds of every stream in which no newline byte is directly followed by a space or tab. |
| Segmentation.RunAppend | network.c:316-459 | If no command in the whole stream is ambiguous, parsing a first part, rolling back, and parsing the rest after more bytes arrive equals parsing everything at once. |
| Segmentation.StepLocal | network.c:332-444 | A completed pass depends on no byte behind the ones it consumed: every stream that begins with these makes the same step, unless it is itself ambiguous at this command and goes on with whitespace. |
| Segmentation.StopsForGood | network.c:336-352 | A stuck command stays stuck, and an aborting token keeps aborting, whatever is received later. |
| Segmentation.StopUnambiguous | network.c:336-352 | Bytes behind a stuck or aborting command never make an unambiguous stream ambiguous. |
| Segmentation.RunIdle | network.c:332-333 | The bytes left after the loop has stopped make no progress by themselves. |
| Segmentation.FeedSnoc | network.c:316-332 | One more read continues from exactly the state the reads before it left. |
| Grammar.StepIsGrammar | network.c:332-445 | A pass executes a command and consumes n bytes if and only if these bytes are a way of writing that command, with its separators, and no further whitespace follows. |
| Grammar.WireAccepted | network.c:332-445 | Every way of writing a command is consumed whole and means that command. |
| Grammar.AcceptedIsWire | network.c:332-445 | Whatever a pass consumes is a way of writing the command it executes. |
| Protocol.Step | network.c:332-445 | A completed pass consumes at least one byte and all whitespace behind it, so each read is processed in finitely many passes. |
| Streams.WellFormedIsParsed | network.c:332-445 | Parsing what a client wrote recovers the commands it meant, in order, with nothing left over. |
| Streams.StuckExactly | network.c:336-352 | A rolled-back command is called stuck exactly if no further input can ever complete it. |
| Streams.AbortExactly | network.c:431-442 | A pass disconnects the client exactly if the unread bytes begin with no keyword and their first 33 bytes contain no whitespace. |
| Streams.StatusMeans | network.c:332-459 | The loop stops because all bytes are used up or because of the command at the unread bytes: unfinished, stuck, or a token that is too long. |
| Streams.StaysStopped | network.c:336-352 | Once blocked or aborted, the parser executes nothing more and keeps every byte. |
| Streams.PendingBound | network.c:143-166 | An unfinished command has at most 2 + 3 * (32 + k) bytes if whitespace runs have at most k. |
| Streams.PendingBoundReached | network.c:143-166 | A pending command of exactly that length exists for every k > 0; its whitespace runs have at most k bytes. |
| Streams.NoStall | network.c:316-333 | The loop never stops waiting with more unread bytes than one pending command can have. |
| Streams.OverfullStops | network.c:318-325 | If the parser leaves as many bytes as the ring holds after some part of the input, reads that fit never get beyond that part. |
| Streams.PrefixNeverBlocks | network.c:436-440 | No prefix of a well-formed stream, whatever its gaps, makes the parser abort or get stuck. |
| Streams.SinglesHaveNoGap | network.c:354-360 | A stream whose whitespace runs are single bytes has no newline before a space or tab, and no command in it is ambiguous. |
| Streams.SinglesArePlain | network.c:354-360 | A well-formed client that separates everything by single whitespace bytes meets the conditions of `ServeWellFormed` with a ring of 103 bytes. |
| Streams.PlainIsUnambiguous | network.c:354-360 | A well-formed client is understood however its bytes are cut if and only if no gap before a colour contains a newline. |
| Streams.NewlineGapIsAmbiguous | network.c:354-360 | Every set command with a newline in the gap before its colour makes the stream ambiguous. |
| Streams.CutsMatter | network.c:318-360 | A concrete stream that sets a pixel if it is received at once and queries that pixel if the first read ends behind its first newline. |
| Streams.FeedConserves | network.c:318-445 | For every stream and all cuts, ambiguous or not: the received bytes are the wire forms of exactly the commands executed, in order, followed by the unread bytes; rollback loses, duplicates and reorders nothing. |
| Streams.RunIsWires | network.c:332-445 | The bytes that one run of the loop uses up are the wire forms of the commands it executes. |
| Streams.WellFormedClient | network.c:316-459 | For a well-formed client with no newline in the gap before a colour, and any cuts: always waiting, never more than one pending command unread, and at the end every command executed. |
| Examples.ExampleIsParsed | network.c:335-431 | A stream given byte by byte, with one command of each kind, is parsed to these commands: keywords, order of arguments, digits and colour channels. |
| Connections.SkipWhitespace | network.c:128-141 | Consumes exactly the whitespace run, returns its length or -1, and leaves its last byte as the previous byte. |
| Connections.NextWhitespace | network.c:143-166 | Returns the length of the token at hand, -1 if unfinished, -EINVAL from 33 bytes on; the read pointer is unchanged. |
| Connections.StrToUint32Base10 | network.c:168-177 | Consumes the token and returns its decimal value modulo 2^32. |
| Connections.StrToUint32Base16 | network.c:180-196 | Consumes the token and returns its hexadecimal value modulo 2^32. |
| Connections.ParsePx | network.c:335-384 | Parses coordinates, decides between get and set by the byte before the read pointer, and parses the colour, at every wrap position. |
| Connections.ParseTwo | network.c:413-426 | Parses two arguments exactly if both are there and closed by whitespace. |
| Connections.ParseUnknown | network.c:431-442 | Consumes, waits for, or refuses a token that is no command. |
| Connections.ParseCommand | network.c:332-459 | Recognizes the command at the read pointer as the pure step does; otherwise the read pointer is back at the command. |
| Connections.Connection.constructor | network.c:305-315 | A new connection has an empty ring and no offset. |
| Connections.Connection.Execute | network.c:358-429 | Executes one command on offset, socket and framebuffer, and never fails to format a reply. |
| Connections.Connection.SetPixelAt | network.c:385-400 | Sets, or blends, one pixel if it is on the screen and changes nothing else. |
| Connections.Connection.ReportPixel | network.c:362-368 | Reports the main framebuffer's pixel if it is on the screen. |
| Connections.Connection.Send | network.c:198-228 | Partial writes of any lengths add up to the whole reply; nothing is written if it does not fit the scratch string. |
| Connections.Connection.Pass | network.c:332-459 | One pass over the ring computes the pure step on the unread bytes; an incomplete, stuck or aborting command changes nothing at all. |
| Connections.Connection.ParseLoop | network.c:332-446 | The loop over one read computes the pure parser, executes its commands in order, interleaved in any way with the actions of other threads, and terminates. |
| Connections.Connection.Serve | network.c:316-459 | For every sequence of reads and every interleaving with other threads, the commands executed and the unread bytes are those of the pure parser and account for every received byte, and all effects are those of replaying the interleaving; if the received stream is unambiguous, the commands are those of parsing it in one piece.  The thread gives up exactly if a token is too long or the ring is full before another read. |
| Connections.Connection.ServeWellFormed | network.c:316-459 | A well-formed client with no newline in the gap before a colour is never disconnected or stalled by a ring that holds one pending command, and all its commands are executed. |
| Connections.Connection.ServeOverfull | network.c:318-325 | If after some part of an unambiguous input the parser leaves as many bytes as the ring can hold, every way of cutting the input ends with a full ring. |
| Connections.Connection.ServeLongest | network.c:318-325 | No smaller ring is enough: the well-formed client that writes the longest pending command and a space, with plain gaps and whitespace runs of at most k bytes, stalls in every smaller ring for all cuts. |
| Connections.Connection.ServeStuck | network.c:336-352 | A stuck client fills the ring with what it sends later and is then dropped. |
| RingBuffer.FirstInFirstOut | ring.c:67-107 | On the byte queue, any interleaving of writes and reads returns the written bytes, in order, and never exceeds the capacity. |
| RingBuffer.Operate | ring.c:67-107 | A ring on the heap that performs any interleaving of writes and reads behaves as that byte queue: the bytes read followed by the bytes unread are the bytes written; operations that do not fit have no effect. |
| RingBuffer.Ring.constructor | ring.c:12-38 | A new ring is empty. |
| RingBuffer.Ring.AnyAvailable | ring.h:20-22 | Equal pointers mean exactly that there is nothing to read. |
| RingBuffer.Ring.PeekOne | ring.h:25-27 | The byte at the read pointer is the oldest unread byte. |
| RingBuffer.Ring.Next | ring.h:38-43 | Pointers advance by one and wrap at the end. |
| RingBuffer.Ring.ReadOne | ring.h:46-50 | Removes and returns the oldest byte, which stays visible as the previous byte. |
| RingBuffer.Ring.IncRead | ring.h:52-54 | Removes the oldest byte, which stays visible as the previous byte. |
| RingBuffer.Ring.FreeSpaceContig | ring.h:57-62 | Is within the buffer and the free space, and zero exactly if the ring is full. |
| RingBuffer.Ring.AdvanceRead | ring.h:64-75 | Drops the oldest bytes, wrapping the pointer. |
| RingBuffer.Ring.AdvanceWrite | ring.h:77-88 | Appends bytes stored behind the write pointer; a ring never looks empty after that. |
| RingBuffer.Ring.Available | ring.h:91-96 | Is the number of unread bytes. |
| RingBuffer.Ring.AvailableContig | ring.h:99-104 | Splits the unread bytes into the two blocks in which they are stored. |
| RingBuffer.Ring.FreeSpace | ring.h:107-112 | Used and free bytes always add up to size - 1. |
| RingBuffer.Ring.Memcmp | ring.h:122-155 | Matches exactly if the unread bytes begin with the reference, then consumes it, and otherwise consumes nothing. |
| RingBuffer.Ring.Peek | ring.c:47-64 | Copies the oldest bytes across the wrap, or changes nothing if there are too few. |
| RingBuffer.Ring.Read | ring.c:67-86 | Copies and removes the oldest bytes, or changes nothing if there are too few. |
| RingBuffer.Ring.Write | ring.c:89-107 | Appends the bytes across the wrap, or changes nothing if they do not fit. |
| RingBuffer.Ring.Receive | network.c:318-330 | A read from the socket to the write pointer appends what it returns. |
| Numbers.DecimalRoundTrip | network.c:168-177 | Reading back a printed decimal number of any size gives that number modulo 2^32. |
| Numbers.HexRoundTrip | network.c:180-196 | Reading back padded hexadecimal digits gives the number modulo 2^32. |
| Numbers.HexDigitValue | network.c:187-193 | Each hexadecimal digit has its value in lower and in upper case. |
| Numbers.AnyByteCounts | network.c:168-177 | A byte that is no digit counts as its difference to the digit zero, negative for bytes from 128 on, modulo 2^32. |
| Numbers.LowerIsBitwise | network.c:188 | Setting bit 5 of a signed character is the bitwise `or` of the source for every byte. |
| Pixels.AbgrRoundTrip | framebuffer.h:18-42 | The 32-bit view and the four channel bytes describe the same pixel. |
| Pixels.ChannelsOfAbgr | framebuffer.h:18-42 | The lowest byte of a stored number becomes the alpha, the next ones blue, green and red. |
| Replies.PixelReplyFits | network.c:205-210 | A pixel reply fits the 32-byte string exactly if not both coordinates have ten digits. |
| Replies.InBoundsReplyFits | network.c:362-367 | So every reply about a pixel on the screen fits. |
| Replies.SizeReplyFits | network.c:404-408 | Every size reply fits. |
| Replies.ColourRoundTrip | network.c:375-380 | Six printed digits name the opaque pixel of the same colour. |
| Replies.ColourWithAlpha | network.c:375-376 | Eight printed digits name the pixel, in the order red, green, blue, alpha. |
| Replies.ColourOfNumber | network.c:375-380 | For every number of up to eight hexadecimal digits: up to six digits are red, green and blue of an opaque pixel, seven or eight also its alpha. |
| Replies.SixDigitColour | network.c:378-380 | `rrggbb` is the opaque pixel with just this red, green and blue. |
| Replies.EightDigitColour | network.c:375-376 | `rrggbbaa` is the pixel with just these channels and this alpha. |
| Replies.PixelReplyReads | network.c:361-365 | A pixel reply reads back as x and y, in this order, followed by `rrggbb` and a newline. |
| Replies.SizeReplyReads | network.c:404-408 | A size reply reads back as the width and then the height, and ends with a newline. |
| Replies.GetSetRoundTrip | network.c:361-380 | Sending a pixel reply back sets the same pixel to the same colour, opaque. |
| Drawing.ReplyRestores | network.c:361-397 | The answer to a pixel query, sent back by a client without offset, draws the pixel that was shown. |
| Drawing.OffsetMoves | network.c:358-359 | Until the next offset command every event is moved by the offset, modulo 2^32. |
| Drawing.OffsetReplaces | network.c:426-428 | An offset command replaces the previous offset for everything after it and nothing before it. |
| Drawing.LastSetWins | network.c:385-397 | Without blending a pixel is what the last set command on it made it. |
| Drawing.NoSetKeeps | framebuffer.h:64-71 | A pixel that no set command hits keeps its value. |
| Drawing.AfterAppend | network.c:332-445 | Executing commands in two portions has the effect of executing them all. |
| Drawing.CommandEffects | network.c:358-429 | In absolute coordinates, which are the sums with the offset modulo 2^32: a set changes the cell y * width + x, blended when enabled and not opaque; a query reports the same cell of the main framebuffer; both only on the screen; a size query reports the size; an offset replaces the offset; an unknown token does nothing. |
| Drawing.DrawnIsMean | network.c:391-397 | When blending, drawing over an opaque pixel leaves the mean of both, weighted by the new alpha. |
| Drawing.ReplayAppend | network.c:332-445 | Interleavings of commands and other actions can be replayed in two portions. |
| Drawing.QuietReplay | network.c:332-445 | Without other actions an interleaving has the effect of executing its commands at once. |
| Drawing.FrameMerges | framebuffer.c:147-163 | The steps of a frame, with nothing in between, merge and clear the whole framebuffer. |
| Drawing.UntouchedKeepsVisible | framebuffer.c:148-163 | What is to be shown at a pixel changes only by drawing there or repainting it, however far any frame has got; once a frame has merged the pixel, it is shown. |
| Drawing.LastDrawnIsShown | framebuffer.c:148-163 | For every interleaving of this client, other clients and the single steps of frames: a pixel that a frame has merged after it was last drawn shows what was drawn, composited when blending. |
| Drawing.EqualSetsDarken | network.c:391-397 | When blending, two equal white set commands at alpha 1 on a cleared pixel leave a darker pixel. |
| Framebuffers.IndexInRange | framebuffer.h:64-84 | The 32-bit index of a pixel on the screen does not wrap and is inside the array. |
| Framebuffers.IndexInjective | framebuffer.h:64-84 | Different pixels have different indices. |
| Framebuffers.IndexSurjective | framebuffer.h:64-84 | Every index is that of a pixel. |
| Framebuffers.Framebuffer.constructor | framebuffer.c:9-47 | A new framebuffer is opaque black. |
| Framebuffers.Framebuffer.SetPixel | framebuffer.h:64-71 | Changes one pixel and no other. |
| Framebuffers.OutAlpha | framebuffer.h:102 | The resulting alpha is at least the new one, always fits one byte, and is opaque over an opaque pixel. |
| Framebuffers.ChannelBounds | framebuffer.h:86-87 | Before truncation a blended channel is at least the smaller input and at most the larger plus 254 / outa; over an opaque pixel it lies between both. |
| Framebuffers.BlendWraps | framebuffer.h:86-87 | Over a partly transparent pixel a channel can exceed one byte: white over white at alpha 1 gives 509. |
| Framebuffers.WhiteDarkens | framebuffer.h:89-113 | So the composite of white on white at alpha 1 is stored as 253 in all three channels. |
| Framebuffers.TruncationFree | framebuffer.h:86-102 | No choice of colours is truncated if and only if olda * (255 - newa) modulo 255 is below the resulting alpha. |
| Framebuffers.BlendOverOpaque | framebuffer.h:86-113 | Over an opaque pixel nothing is truncated and the result is opaque. |
| Framebuffers.OverOpaqueIsMean | framebuffer.h:86-87 | Over an opaque pixel a channel is the alpha-weighted mean, rounded down. |
| Framebuffers.BlendIsMean | framebuffer.h:86-113 | Over an opaque pixel the composite is opaque, and each channel is the alpha-weighted mean of that channel. |
| Framebuffers.AlphaIsComplement | framebuffer.h:102 | What a composite lets through is the product of what both pixels let through, rounded up. |
| Framebuffers.ChannelRoundsOnce | framebuffer.h:86-87 | The two truncating divisions of a channel amount to one: the exact weighted mean is rounded down once. |
| Framebuffers.BlendIsComposite | framebuffer.h:89-113 | For all alphas each channel of the composite is the weighted mean of just that channel of both pixels, cut to one byte. |
| Framebuffers.BlendIdentities | framebuffer.h:89-113 | An opaque pixel replaces, and a transparent one keeps, what is below it. |
| Framebuffers.BlendOverTransparent | framebuffer.h:89-113 | Over a transparent pixel the result is the new pixel with its alpha. |
| Framebuffers.BlendInto | framebuffer.h:89-113 | The bytewise assignments give the composite even if source and destination pixels are the same. |
| Coalescing.PickInRange | util.h:27 | Every random outcome selects a cell that exists. |
| Coalescing.PickBlocks | util.h:27 | The random outcomes are cut into blocks of equal size, in order, one for each cell. |
| Coalescing.ShuffledPermutes | util.h:22-32 | Shuffling permutes for every length and all random outcomes. |
| Coalescing.ShuffledFrom | util.h:22-32 | Shuffling from a cell on leaves the cells before it, puts the picked cell there, and depends on no outcome before it. |
| Coalescing.EveryOrder | util.h:22-32 | The shuffle can produce every visiting order if and only if, for each number of cells, the largest random outcome selects the last one. |
| Coalescing.EnoughOutcomes | util.h:27 | That is so for n framebuffers whenever RAND_MAX is at least n * n. |
| Coalescing.ArrayShuffle | util.h:22-32 | The in-place loop performs exactly the swaps chosen by the random outcomes. |
| Coalescing.OrderFacts | framebuffer.c:136-144 | A shuffled index array visits every list entry exactly once. |
| Coalescing.MergeOne | framebuffer.c:148-163 | Merges one pixel into the main framebuffer and makes it transparent, keeping its colour; no other pixel changes. |
| Coalescing.MergeIsMean | framebuffer.c:152-157 | With blending, a contribution to an opaque pixel is mixed in by its own alpha, channel by channel. |
| Coalescing.MergeFrom | framebuffer.c:148-163 | Merges all pixels of one framebuffer and makes it transparent, keeping its colours. |
| Coalescing.Coalesce | framebuffer.c:133-166 | Merges the framebuffers in the shuffled order up to the first of another size, clears exactly those merged, and fails exactly if there is such a one. |
| Coalescing.MergeIsPointwise | framebuffer.c:148-163 | Each pixel of the result depends only on the same pixel of the contributors. |
| Coalescing.LastOpaqueWins | framebuffer.c:148-160 | Without blending the last contribution that is not transparent is shown. |
| Coalescing.TransparentKeeps | framebuffer.c:149-151 | Pixels to which every contribution is transparent keep their value. |
| Coalescing.OneContribution | framebuffer.c:148-163 | A pixel to which only one framebuffer contributes shows that contribution merged into what was shown, wherever it is visited. |
| Coalescing.OneContributionIsMean | framebuffer.c:152-157 | With blending, an opaque pixel then becomes the alpha-weighted mean of both. |
| Coalescing.StaysOpaque | framebuffer.c:152-157 | With blending an opaque main framebuffer stays opaque under any number of contributors. |
| Coalescing.CoalesceTwice | framebuffer.c:133-166 | A second coalesce, in whatever order, changes nothing. |
| Coalescing.OrderIndependent | framebuffer.c:141-163 | Without blending the picture is the same for all random outcomes of the shuffle if at every pixel all contributions that are not transparent agree; if the outcomes can produce every order, only if they agree. |
| EndToEnd.ShowsLastSet | network.c:385-397 | After drawing and a coalesce a pixel shows the last set command on it if that was not transparent, else what it showed before. |
| EndToEnd.ShowsSingleSet | framebuffer.c:152-157 | With or without blending, a pixel set once is composited with what was shown: the detour through the node framebuffer loses nothing; with blending over an opaque pixel the alpha-weighted mean is shown. |
| EndToEnd.QuietClient | main.c:385-388 | If nothing but the commands of one client happens, the next frame shows exactly what they drew. |
| EndToEnd.ShowClient | main.c:385-388 | From socket to screen: a well-formed client with plain gaps is served completely, however its bytes are cut and whatever other clients and frames do meanwhile, and the coalesce on the heap list that follows is one frame. |
| LinkedLists.LList.constructor | llist.c:11-15 | A new list is empty. |
| LinkedLists.LList.IsEmpty | llist.h:22 | A null head means exactly that the list is empty. |
| LinkedLists.LList.Append | llist.c:41-57 | Adds the entry at the end and keeps all links right. |
| LinkedLists.Remove | llist.c:59-78 | Removes an entry anywhere, keeps the order of the others and all links right, and resets the entry. |
| LinkedLists.LList.Length | llist.c:80-87 | Returns the number of entries. |
| LinkedLists.LList.GetEntry | llist.c:90-98 | Returns the entry at an index, or null behind the end. |
| LinkedLists.MoveToEnd | llist.c:41-78 | A removed entry can be appended again. |
| LinkedLists.ListsAreDisjoint | llist.h:14-18 | No entry is in two lists. |
| WorkQueues.TraceKeeps | workqueue.c:14-67 | In every interleaving: entries taken are the oldest enqueued, in order; every finished entry has been freed once and cleaned exactly if its error was not handled; a worker has given up exactly if the last error handler failed; the lock is held exactly in the critical phases. |
| WorkQueues.CounterExact | workqueue.c:26-28 | Before a shutdown the item counter is the sum of the queue lengths. |
| WorkQueues.CallbacksInOrder | workqueue.c:24-29 | Callbacks start in the order of enqueuing and at most once per entry. |
| WorkQueues.ExecutionPossible | workqueue.c:22-52 | In every reachable state some continuation executes all entries enqueued so far if and only if they have been taken already, or the worker has neither been told to stop nor ended. |
| WorkQueues.ShutdownComplete | workqueue.c:24-67 | After join and drain every entry has been freed exactly once and was either executed or discarded; the cleanups made are, in order, those of executed entries that failed without their error being handled, with their errors, and then those of the discarded ones with error 0. |
| WorkQueues.ShutdownCanFinish | workqueue.c:54-67 | From every reachable state in which a queue has been told to stop, some continuation joins its worker and drains it. |
| WorkQueues.NormalExitKeepsLock | workqueue.c:22-52 | A worker that ends normally keeps the lock in every continuation of every run: no entry is added to its queue or executed any more. |
| WorkQueues.NormalExitHappens | workqueue.c:22-52 | A run in which a worker ends normally, holding the lock. |
| WorkQueues.LockComesFree | workqueue.c:22-52 | In every reachable state some continuation frees the lock of a queue if and only if it is free, or its worker has neither been told to stop nor returned, or the worker is executing an entry with an error handler. |
| WorkQueues.WorkQueue.Enqueue | workqueue.c:135-141 | Appends to the heap list under the lock and counts. |
| WorkQueues.WorkQueue.TakeNext | workqueue.c:24-28 | Takes the first entry from the heap list and counts down. |
| WorkQueues.WorkQueue.Finish | workqueue.c:29-47 | Frees the entry, cleans it exactly if it failed and its error was not handled, and gives up, with the lock released, exactly if its error handler failed. |
| WorkQueues.WorkQueue.InnerLoop | workqueue.c:24-48 | The worker's loop performs exactly the steps of the state machine, with the exit flag changing at any moment. |
| WorkQueues.WorkQueue.DrainAll | workqueue.c:58-66 | The shutdown's loop empties the heap list by drain steps. |
| ConnectionLists.RemovalFindsItself | network.c:241-247 | A thread that is about to remove itself is in the list, even if it ended before it had been appended. |
| ConnectionLists.TraceKeeps | network.c:499-528 | In every interleaving the list is the created threads minus the removed ones, in order, without duplicates. |
| ConnectionLists.RoundShrinksList | network.c:467-474 | Each round of the shutdown makes the list shorter, whatever other threads do meanwhile. |
| ConnectionLists.ShutdownCanFinish | network.c:462-477 | The shutdown cannot deadlock: from every state that any interleaving reaches during a shutdown, some continuation ends it. |
| ConnectionLists.ShutdownComplete | network.c:462-477 | When the shutdown has ended, the list is empty and every thread ever created has removed itself. |
| ConnectionLists.ThreadList.constructor | network.c:489-495 | A new thread list is empty. |
| ConnectionLists.ThreadList.Create | network.c:506-518 | Allocates the entry of a new thread. |
| ConnectionLists.ThreadList.AppendThread | network.c:525-526 | Appends the new thread's entry to the heap list, whether or not that thread has already ended. |
| ConnectionLists.ThreadList.RemoveOwn | network.c:241-247 | Unlinks a thread's own entry from the heap list, wherever it is, as the step of the state machine does. |
| ConnectionLists.ThreadList.CancelFirst | network.c:468-471 | The thread at the head of the heap list is the next one to be joined. |
| LinuxFb.EncodedReads | linuxfb.c:111-143 | What the device reads from the encoded bytes, as a little-endian number, has in each format just the channels of the pixel, each in its field. |
| LinuxFb.Decode565Exact | linuxfb.c:112-120 | The 16-bit format keeps exactly the high 5, 6 and 5 bits of red, green and blue. |
| LinuxFb.UpdateRow | linuxfb.c:108-151 | The inner loop writes the encoded pixels of one row and nothing else. |
| LinuxFb.Update | linuxfb.c:104-152 | The nested loops, with a wrapping 32-bit index, write row after row, also behind the allocated buffer if the screen makes them; every pixel that is both in the framebuffer and visible can be read from its place; an unknown pixel format fails without writing. |
| LinuxFb.UpdatedPixel | linuxfb.c:106-152 | After the loops every byte of every visible pixel is where its row and column put it. |
| LinuxFb.UpdatedReads | linuxfb.c:106-152 | So after the loops the device reads every drawn pixel at the place of its row and column. |
| LinuxFb.UpdatedElsewhere | linuxfb.c:106-152 | All other bytes are unchanged. |
| LinuxFb.BufferLargeEnough | linuxfb.c:78 | Without screen offsets every write is in the allocated buffer. |
| LinuxFb.LastRowDecides | linuxfb.c:78-152 | All writes stay within a given length if and only if nothing is drawn or the last row stays within it. |
| LinuxFb.OverrunIsWritten | linuxfb.c:78-152 | If the last row is not within the allocated length, the last byte of the last pixel is written behind the buffer. |
| LinuxFb.PannedScreenFails | linuxfb.c:78-152 | A legal screen, panned by ten pixels, on which the update writes behind the buffer and misplaces the second row. |
| LinuxFb.PlacedAsExpected | linuxfb.c:106-151 | Pixels are where the device expects them if and only if nothing is drawn, or the vertical offset is zero (or pixels are single bytes) and the horizontal offset is zero (or one row is drawn). |

## Left out

- Connections.Connection.Serve: drawing, merging and repainting a single pixel are atomic; that two threads may interleave within one pixel is not modelled.
- LinuxFb.Update: the memory given to it reaches as far as it writes, which may be beyond what was allocated (`LastRowDecides`), and no row lies beyond 2^32 bytes, where the index would wrap around to the start of the buffer.  The copy to the device file is an environment step.
- EndToEnd.ShowClient: one node framebuffer; merging several is stated by `Coalesce` and its lemmas.
- WorkQueues.TraceKeeps: the item counter, shared by queues with different locks, is updated atomically, and no entry is enqueued once a queue has been joined; the source leaves both to its callers.
- WorkQueues.ShutdownCanFinish: a wake-up that comes before the worker waits is lost in the source; the continuation may then need a spurious one, so that the shutdown ends in every fair run is not stated.
- ConnectionLists.TraceKeeps: threads that fail before their cleanup handlers are in place are not modelled, nor is the lifetime of the memory a joining thread still looks at.
- Shutdown of a connection while it parses: `Serve` ends between reads, at any read.
- Sockets, accepting, address resolution, thread creation and affinity, and failing writes: environment.
- Allocation failures.
- Big-endian pixels.
- `next_pos` of `ring_memcmp`: no caller passes it.
- `fb_resize`, `fb_copy`, `fb_clear_rect`, `fb_get_fb_on_node` and the getters: easy, or only meaningful under concurrent resizing.
- Statistics, text rendering, SDL and VNC frontends, and command line options: libraries and user interface.
