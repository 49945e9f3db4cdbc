# Proofs about the Redis Cluster proxy

This project models the four parts of the proxy that hold real algorithms and
proves what they promise. The model keeps the form of the Go code: objects
whose methods update their fields are classes, loops are loops with
invariants, and pure code is functions and lemmas.

## What is modelled

**The RESP codec over its own buffering** (`Bytes`, `Decimal`, `Itoa`,
`Reader`, `Writer`, `Resp`, `Encoder`, `Decoder`, `RoundTrip`). The compacting,
refilling `Reader` and the spilling `Writer` are classes over real arrays. A
byte source may cut its stream in any way, stall a bounded number of times and
end with any error; a sink may fail or write short a bounded number of times.
Every read is proved to be a function of the stream that is left, whatever the
buffer size and the cutting; every write leaves the sink a prefix of what was
accepted. The recursive printer and parser are specified by functions on byte
sequences, the imperative encoder and decoder are proved against them, and the
round trip is an if-and-only-if: a message survives exactly when it is
canonical. `RoundTrip.Transport` puts everything together: any list of
canonical messages, sent through a writer of any size and read through a reader
of at least eleven bytes, arrives unchanged.

**Cluster routing** (`Command`, `Replies`, `Slots`, `SlotTable`, `Redirect`,
`Multi`, `Batch`). `Command` and `Replies` are the two ends of a node
connection: printed commands are read back by the command reader, and the
lenient reply reader gives back exactly the legible ones among the encoder's
messages. `Slots` proves the table-driven CRC16 equal to long division of the
message followed by sixteen zero bits by x^16 + x^12 + x^5 + 1 (Redis cluster
specification, appendix A), for all messages, and tells exactly which keys the
Go loop, which runs over runes, feeds unchanged. `SlotTable` rebuilds the
16384-entry table and the replica lists for every order of map iteration, with
the pigeonhole argument behind the coverage count. `Redirect` follows MOVED,
ASK and connection timeouts against nodes that may do anything a cluster node
can, while other goroutines replace or empty the node map, and proves that at
most one node executes the command, that no exchange follows the one that does,
what follows each reply up to the result, that an answer of the last node is
never lost, and exactly when the client crashes; nodes that answer MOVED
finitely often need no bound on the loop. `Multi` and `Batch` scatter commands over
nodes and gather the replies: every interleaving of the MSET tasks equals the
plain command, MGET and batches give each argument and each put its own reply.

**The connection pool of a node** (`Pool`). One invariant, kept by every step:
pooled connections owe nothing, are in one place only, were released in list
order, stay within the bound, and a closed node never pools again. Whole calls
are proved with any number of steps of other callers between any two of their
own, a shutdown included: the reply is still the one to the caller's command.

**The expiring cache and its sharded form** (`FixedWidth`, `Cache`, `Capacity`,
`Sharded`). Every operation is one step of a timed map; the cache represents
the last live writes of its whole history, each found exactly through its
lifetime; cleaning is invisible; counters are
two's-complement sums; under any interleaving the unsynchronised capacity check
overshoots by at most the number of goroutines minus one, and that bound is
reached; sharding is invisible for whole runs.

## Where the code is not what one would guess

The model follows the code, and the contracts are phrased around these points.

- `crc16` ranges over runes (`utils/rediscluster/crc16.go:84`): the slot is the
  standard one on keys of ASCII and 0xFD bytes; "\u00e9" is a key whose slot
  differs (`Slots.FedAsIs`, `Slots.SlotNotStandard`).
- A redirection that fails inside the MOVED loop yields a nil reply without an
  error (`utils/rediscluster/cluster.go:191-200`): this is the only way in which
  `Redirect.Do` reports success without the last exchange's reply.
  `Redirect.NilSuccess` is such a run, in which the command is even executed.
- A redirected RPUSH never sends its expiry again, and pushes an expiry that was
  given as one more element (`utils/rediscluster/cluster.go:170-171`, `:394`):
  `Redirect.RedirectedPush`.
- After ASK any reply, a further redirection included, is returned as it is
  (`utils/rediscluster/cluster.go:397-437`): `Redirect.Do`.
- `Update` counts slots but does not look for overlaps
  (`utils/rediscluster/cluster.go:713`): `SlotTable.FullCoverage` says when the
  count means coverage, `SlotTable.CountIsNotCoverage` shows that it need not.
- After `Close` the node map can be filled again by an update on its way, and
  calls on their way crash instead of failing
  (`utils/rediscluster/cluster.go:367-378`).
- `handleConnTimeout` uses a nil node when the node map is empty, which a Close
  during the call brings about (`utils/rediscluster/cluster.go:439-452`): the
  outcome `Panicked`, with its exact condition; `Redirect.TimeoutAfterClose` is
  the crash.
- `parseInt` knows no plus sign and does not check the range
  (`utils/rediscluster/node.go:431-459`): `Command.IntReplyAgrees`.
- `readLine` accepts line feeds inside a line but fails on two in a row, and
  `parseLen` wraps around, so that a length of 2^63 reads as nil
  (`utils/rediscluster/node.go:376-428`): `Replies.LineRoundTrip`,
  `Replies.OversizedLength`, `Replies.OversizedIsNil`.
- A node answering with too few values makes `multiGet` index an empty slice
  (`utils/rediscluster/multi.go:151-157`): the outcome `Panicked`, with its exact
  condition in `Multi.MgetCases`; `Multi.EmptyAnswer` is the crash.
- Connections dropped for their age are never closed
  (`utils/rediscluster/node.go:104`): after `Pool.Node.Shutdown` exactly these
  and the ones in use are open.
- `Set` on an existing key is dropped when the cache is full
  (`utils/memorycacher/cache.go:78-81`), and `ShoudClean` dereferences a nil
  janitor (`utils/memorycacher/cache.go:221-222`): the results `Full` and
  `Crashed` of `Cache.Step`. Shards never have a janitor.
- `get` and `Increment` use different expiry tests: `Cache.ExpiredIsInvisible`
  says when they agree.
- `djb33` never hashes the last byte (`utils/memorycacher/sharded.go:50-70`):
  `Sharded.LastByteIgnored`.

## Model

| member | source | states |
|---|---|---|
| Decimal.Btoi64 | utils/resparse/credis/decoder.go:35-64 | The short fast path and its fallback together accept exactly the byte strings strconv.ParseInt accepts, with the same values and the same failures |
| Decimal.ParseDec | utils/resparse/credis/encoder.go:34-44 | Parsing the decimal print of any int64 gives it back |
| Decimal.ParsePlus | utils/resparse/credis/decoder.go:35-64 | A leading plus sign is accepted and means nothing |
| Decimal.DecIsAscii | utils/resparse/credis/encoder.go:25-44 | The ten digits and the minus sign are the ASCII ones |
| Decimal.ShortValue | utils/resparse/credis/decoder.go:35-58 | A string of at most nine digits denotes a number below 10^9, so the fast path cannot overflow |
| Itoa.Table.constructor | utils/resparse/credis/encoder.go:25-32 | Offset j of the table is the total length of the decimals of -128 to -129+j, and the text is all of these decimals in order |
| Itoa.Table.Itoa | utils/resparse/credis/encoder.go:34-44 | For every integer, inside or outside the table and at its last entry, the result is its decimal print |
| Itoa.RunEntry | utils/resparse/credis/encoder.go:25-42 | The text between two neighbouring offsets is the decimal of the entry between them |
| Itoa.RunBound | utils/resparse/credis/encoder.go:25-32 | Every offset fits the uint32 it is stored in |
| Reader.ByteReader.constructor | utils/resparse/bufio2/bufio.go:30-36 | A new reader has delivered nothing: the undelivered stream is the whole source; size zero means the default size |
| Reader.ByteReader.Fill | utils/resparse/bufio2/bufio.go:58-76 | Compacting and refilling loses and reorders no byte; without an error at least one byte more is buffered; a set error stays |
| Reader.ByteReader.Read | utils/resparse/bufio2/bufio.go:82-101 | What is delivered into the caller's array followed by what is left is the stream as it was, for all three ways of reading; nothing outside the delivered range is touched |
| Reader.ByteReader.ReadByte | utils/resparse/bufio2/bufio.go:103-115 | Takes the head of the undelivered stream for every buffer size and cutting, or reports the source's end exactly when nothing is left; errors are sticky |
| Reader.ByteReader.PeekByte | utils/resparse/bufio2/bufio.go:117-128 | Shows the head of the stream and leaves the stream unchanged |
| Reader.ByteReader.ReadSlice | utils/resparse/bufio2/bufio.go:130-150 | Delivers the shortest prefix ending in the delimiter if it fits the buffer; BufferFull exactly when a full buffer has no delimiter, handing that buffer out |
| Reader.ByteReader.ReadBytes | utils/resparse/bufio2/bufio.go:152-177 | Delivers the shortest prefix ending in the delimiter, over as many refills as it spans, for every buffer size |
| Reader.ByteReader.ReadFull | utils/resparse/bufio2/bufio.go:179-188 | Delivers exactly the next n bytes, or fails with UnexpectedEof or the source's end as io.ReadFull does |
| Reader.ByteReader.IoReadFull | utils/resparse/bufio2/bufio.go:179-188 | Repeated Read calls fill the array with the next bytes of the stream and terminate, or some read has failed |
| Reader.SliceOfLine | utils/resparse/bufio2/bufio.go:152-177 | A slice read after a part without delimiter is the line over both parts |
| Writer.ByteWriter.constructor | utils/resparse/bufio2/bufio.go:202-207 | A new writer has accepted what its sink holds and nothing else |
| Writer.ByteWriter.Flush | utils/resparse/bufio2/bufio.go:216-236 | Without failure the sink holds all that was accepted; with one, a prefix of it; a short write counts as a failure |
| Writer.ByteWriter.Write | utils/resparse/bufio2/bufio.go:242-260 | All bytes are accepted in order behind the earlier ones, through direct writes and spills, or the writer has failed and stays so; the loop terminates also against short writes |
| Writer.ByteWriter.WriteByte | utils/resparse/bufio2/bufio.go:262-272 | The byte is accepted behind the earlier ones, flushing a full buffer first, or the writer has failed |
| Writer.ByteWriter.WriteString | utils/resparse/bufio2/bufio.go:274-287 | As Write, by spills only |
| Resp.RespRoundTrip | utils/resparse/credis/encoder.go:112-126 | For every message and whatever follows it on the wire: decoding gives the message back if and only if it is canonical (known type, unused slice nil, text without line feed, lengths within the limits and the buffer), consuming exactly its bytes; nil and empty stay apart |
| Resp.ArrayRoundTrip | utils/resparse/credis/encoder.go:170-184 | The same for array bodies, nil array and empty array kept apart |
| Resp.ItemsRoundTrip | utils/resparse/credis/decoder.go:221-229 | A concatenation of messages decodes to exactly that list if and only if all of them are canonical |
| Resp.NumberRoundTrip | utils/resparse/credis/decoder.go:173-183 | A printed number is read back exactly when it is an int64 whose line fits the buffer; otherwise the line read fails with BufferFull |
| Resp.TextRoundTrip | utils/resparse/credis/decoder.go:161-171 | A text line is read back if and only if the text has no line feed |
| Resp.BulkRoundTrip | utils/resparse/credis/decoder.go:185-206 | A bulk value, nil included, is read back if and only if its length is within the limit and its length line fits the buffer, whatever bytes it holds |
| Resp.ElevenIsEnough | utils/resparse/credis/decoder.go:173-216 | Eleven bytes of reader buffer hold every length line, so only the limits on lengths remain: 512 MiB for bulks, 2^20 items for arrays |
| Resp.EmitSnoc | utils/resparse/credis/encoder.go:170-184 | Printing a list one message longer appends the print of that message |
| Resp.TextForm | utils/resparse/credis/encoder.go:112-157 | Strings, errors and integers on the wire: their mark +, - or :, the text, CRLF |
| Resp.BulkForm | utils/resparse/credis/encoder.go:159-168 | Bulks on the wire: $, the length, CRLF, the bytes, CRLF; nil is $-1 |
| Resp.ArrayForm | utils/resparse/credis/encoder.go:170-184 | Arrays on the wire: *, the count, CRLF, the items; nil is *-1 |
| Resp.BulksAreItems | utils/resparse/credis/decoder.go:276-287 | The command reader accepts any list of messages that are all bulks, as the array reader does |
| Resp.MultiBulkRoundTrip | utils/resparse/credis/decoder.go:255-288 | A non-empty array of bulks is read back by the command reader too |
| Resp.FieldsOfJoined | utils/resparse/credis/decoder.go:232-253 | Splitting an inline command undoes joining its words by single spaces |
| Resp.FieldsAreWords | utils/resparse/credis/decoder.go:240-248 | Splitting yields non-empty words without spaces only |
| Resp.InlineRoundTrip | utils/resparse/credis/decoder.go:232-274 | A line of words joined by single spaces is read by the command reader as an array of these words, an empty line as no command, consuming exactly the line |
| Resp.UnknownTypeRefused | utils/resparse/credis/decoder.go:141-159 | A message that starts with any byte but the five marks is refused |
| Resp.LengthsRefused | utils/resparse/credis/decoder.go:185-274 | Lengths below -1 and above the limits are refused, and for commands lengths of zero and below, each with its error |
| Resp.BareLineRefused | utils/resparse/credis/decoder.go:161-171 | A text line that ends without a carriage return is refused |
| Resp.BulkEndRefused | utils/resparse/credis/decoder.go:185-206 | A bulk followed by anything but CRLF is refused |
| Resp.ShortBulkRefused | utils/resparse/credis/decoder.go:185-206 | A bulk that the stream does not hold in full ends in UnexpectedEof or in the end of the source |
| Resp.BlankLineRefused | utils/resparse/credis/decoder.go:240-252 | A command line of spaces only is refused |
| Decoder.RespDecoder.Decode | utils/resparse/credis/decoder.go:107-116 | The outcome is the parse function's on the undelivered stream for every buffer size and cutting; the first error is final: later calls move nothing and fail |
| Decoder.RespDecoder.DecodeResp | utils/resparse/credis/decoder.go:141-159 | Reads one message of any depth as the parse function says and leaves exactly the rest of the stream |
| Decoder.RespDecoder.DecodeTextBytes | utils/resparse/credis/decoder.go:161-171 | Reads one text line as the parse function says, checking the carriage return |
| Decoder.RespDecoder.DecodeInt | utils/resparse/credis/decoder.go:173-183 | Reads one number line as the parse function says, within the buffer size |
| Decoder.RespDecoder.DecodeBulkBytes | utils/resparse/credis/decoder.go:185-206 | Reads one bulk as the parse function says: negative, too long, nil, truncated and badly terminated ones each with their outcome |
| Decoder.RespDecoder.DecodeArray | utils/resparse/credis/decoder.go:208-230 | Reads one array as the parse function says, with the three length cases |
| Decoder.RespDecoder.DecodeItems | utils/resparse/credis/decoder.go:221-229 | The loop reads n messages in a row, stopping at the first failure |
| Decoder.RespDecoder.DecodeMultiBulk | utils/resparse/credis/decoder.go:118-127 | The next command as the command parse function says; the first error is final |
| Decoder.RespDecoder.ReadMultiBulk | utils/resparse/credis/decoder.go:255-288 | Chooses array or inline form by the first byte without consuming it and refuses empty, nil and too long arrays |
| Decoder.RespDecoder.DecodeBulks | utils/resparse/credis/decoder.go:276-287 | Reads n bulks, refusing the first message of another kind |
| Decoder.RespDecoder.DecodeSingleLineMultiBulk | utils/resparse/credis/decoder.go:232-253 | An inline command is the words of its line; an empty line is no command, a line of spaces an error |
| Decoder.SplitWords | utils/resparse/credis/decoder.go:240-248 | The two-index scan yields exactly the maximal runs of non-space bytes, in order |
| Encoder.EmitsThen | utils/resparse/credis/encoder.go:112-184 | Emissions compose: the sink never holds anything but a prefix of the intended print, also across failures |
| Encoder.RespEncoder.Encode | utils/resparse/credis/encoder.go:66-76 | Without a sink failure exactly the message's print was accepted; with one, the sink holds a prefix of it and the failure is final |
| Encoder.RespEncoder.EncodeResp | utils/resparse/credis/encoder.go:112-126 | Emits the print of a message of any depth, stopping with BadType at the first unknown type |
| Encoder.RespEncoder.EncodeArray | utils/resparse/credis/encoder.go:170-184 | Emits the print of an array: the count, then the items up to the first failure |
| Encoder.RespEncoder.EncodeTextBytes | utils/resparse/credis/encoder.go:135-143 | Emits the text and its line end |
| Encoder.RespEncoder.EncodeInt | utils/resparse/credis/encoder.go:145-157 | Emits the decimal of the number and the line end, through the table |
| Encoder.RespEncoder.EncodeBulkBytes | utils/resparse/credis/encoder.go:159-168 | Emits nil as length -1 and anything else as its length and its bytes |
| RoundTrip.SendAll | utils/resparse/credis/encoder.go:66-76 | Canonical messages encoded one by one and flushed leave exactly the concatenation of their prints in the sink, for every writer size |
| RoundTrip.ReceiveAll | utils/resparse/credis/decoder.go:107-116 | Repeated decoding of a stream yields the messages that parsing the whole stream yields, for every cutting |
| RoundTrip.Transport | utils/resparse/credis/decoder.go:107-230 | End to end: what is sent is received, message by message, for every writer size and every reader of at least eleven bytes, and nothing of the stream is left over |
| RoundTrip.CanonicalAtEleven | utils/resparse/credis/decoder.go:173-216 | Which messages survive does not depend on the reader size from eleven bytes on |
| Command.Conn.FormatLen | utils/rediscluster/node.go:303-321 | The backwards formatting stays inside the 32-byte scratch space for every length and yields prefix, decimal and line end |
| Command.Conn.WriteLen | utils/rediscluster/node.go:303-321 | Appends prefix, decimal and line end to what was written |
| Command.Conn.WriteBytes | utils/rediscluster/node.go:323-337 | Appends the wire form of a bulk message |
| Command.Conn.WriteCommand | utils/rediscluster/node.go:348-373 | What is written is an array of bulks: the command and its arguments as rendered, up to the first argument of unknown kind; it succeeds exactly when there is none |
| Command.CommandRoundTrip | utils/rediscluster/node.go:348-373 | The written command is decoded by the command reader to the command and its arguments: bytes as they are, integers as words that parse back to them |
| Command.ParseIntReply | utils/rediscluster/node.go:431-459 | The accumulating loop yields the decimal value of the digits reduced to 64-bit two's complement, and refuses everything that is no digit string |
| Command.IntReplyAgrees | utils/rediscluster/node.go:431-459 | It agrees with strconv.ParseInt if and only if the input has no leading plus and its value is in range |
| Replies.ReplyConn.ReadLine | utils/rediscluster/node.go:376-405 | The loop over pieces yields the line up to the first line feed that a carriage return precedes; a piece that is a line feed alone is an error |
| Replies.ReplyConn.ParseLen | utils/rediscluster/node.go:408-428 | The accumulating loop yields -1 for nil and otherwise the digits' value reduced to 64-bit two's complement |
| Replies.ReplyConn.ReadReply | utils/rediscluster/node.go:470-545 | Reads one reply of any depth as the reply function says, each type byte and each failure with its outcome, and leaves exactly the rest of the stream |
| Replies.ReplyConn.ReadBinary | utils/rediscluster/node.go:495-514 | Reads n bytes whatever they are, and then the empty line |
| Replies.ReplyConn.ReadItems | utils/rediscluster/node.go:533-540 | The loop reads n replies in a row, stopping at the first failure |
| Replies.LineRoundTrip | utils/rediscluster/node.go:376-405 | A printed line is read back if and only if none of its line feeds comes first or after a carriage return or another line feed |
| Replies.LenAgrees | utils/rediscluster/node.go:408-428 | A length is read as itself if and only if it is a digit string whose value fits 64 bits |
| Replies.OversizedLength | utils/rediscluster/node.go:408-428 | A digit string reads as a negative length, that is as nil, if and only if its value modulo 2^64 exceeds the largest int64 |
| Replies.OversizedIsNil | utils/rediscluster/node.go:495-531 | A concrete failure: a bulk or array announced with 2^63 elements is read as nil without an error |
| Replies.ReplyRoundTrip | utils/rediscluster/node.go:470-545 | For every message the encoder prints and whatever follows it: the reply read shows the message if and only if its types are known, its lines are readable and its integers are numbers; exactly its bytes are consumed; nil bulk and nil array become the same nil |
| Replies.RepliesRoundTrip | utils/rediscluster/node.go:533-540 | The same for any sequence of messages |
| Slots.TableIsDivision | utils/rediscluster/crc16.go:47-80 | Each of the 256 table entries is the remainder it stands for |
| Slots.TurnDivides | utils/rediscluster/crc16.go:82-88 | One turn of the loop divides by eight more bits |
| Slots.LateBit | utils/rediscluster/crc16.go:82-88 | Bringing a bit down at the bottom and dividing sixteen zeros more is adding it at the top |
| Slots.TurnsAreCrc | utils/rediscluster/crc16.go:82-88 | On every byte sequence the table-driven loop computes the remainder of the message followed by sixteen zero bits on division by 0x1021, from initial value 0 |
| Slots.FedAsIs | utils/rediscluster/crc16.go:84-86 | Iterating over runes feeds the bytes unchanged if and only if each byte is ASCII or 0xFD |
| Slots.RuneOfUtf8 | utils/rediscluster/crc16.go:84-86 | A text that starts with the UTF-8 of a scalar value yields that value and moves on by its length |
| Slots.Utf8OfRune | utils/rediscluster/crc16.go:84-86 | What the iteration takes for a rune of several bytes or ASCII is the UTF-8 of that rune; anything else is one byte and U+FFFD |
| Slots.Crc16 | utils/rediscluster/crc16.go:82-88 | The method returns the standard checksum of the runes' low bytes |
| Slots.Hash | utils/rediscluster/cluster.go:1083-1106 | The two scanning loops find the hash tag; the slot is the checksum of the tag, or of the key where there is no non-empty tag, modulo 16384 |
| Slots.SlotIsRemainder | utils/rediscluster/cluster.go:1083-1106 | The masked checksum is the checksum modulo 16384 |
| Slots.SlotOfFoo | utils/rediscluster/cluster.go:1083-1106 | The key "foo" lies in slot 12182 |
| Slots.HashIndex | utils/rediscluster/cluster.go:1083-1106 | The slot as a table index, in range |
| Slots.SameTagSameSlot | utils/rediscluster/cluster.go:1083-1106 | Keys with the same non-empty tag share a slot, whatever stands around the tag |
| Slots.TagOfTagged | utils/rediscluster/cluster.go:1083-1106 | The tag is what stands between the first opening brace and the first closing brace after it |
| Slots.UntaggedIsWhole | utils/rediscluster/cluster.go:1085-1093 | Without an opening brace the whole key decides |
| Slots.UnclosedIsWhole | utils/rediscluster/cluster.go:1095-1103 | Without a closing brace after the first opening one the whole key decides |
| Slots.EmptyTagIsWhole | utils/rediscluster/cluster.go:1101-1103 | With nothing between the two the whole key decides |
| Slots.SlotIsStandard | utils/rediscluster/cluster.go:1083-1106 | Where the deciding part of the key consists of ASCII and 0xFD bytes the slot is the specification's, its checksum modulo 16384, whatever the other bytes are |
| Slots.SlotNotStandard | utils/rediscluster/crc16.go:82-88 | A concrete key outside that condition whose slot is not the specification's |
| SlotTable.CountOfSlotted | utils/rediscluster/cluster.go:665-668 | The rows cover at most as many slots as they have, with equality if and only if no two rows overlap |
| SlotTable.TotalIsSizes | utils/rediscluster/cluster.go:665-668 | The slot count is at most the number of slots the rows have, with equality if and only if no row is upside down |
| SlotTable.FullCoverage | utils/rediscluster/cluster.go:711-715 | The rows of a reply that passes the 16384 count are disjoint if and only if they cover every slot and none is upside down |
| SlotTable.CountIsNotCoverage | utils/rediscluster/cluster.go:711-715 | A reply that passes the count and leaves a slot to nobody |
| SlotTable.Collect | utils/rediscluster/cluster.go:616-709 | Counts the slots and groups the ranges by master and by replica, in row order, losing and adding none (SlotTable.CountIsListings tells what that means for replicas) |
| SlotTable.Adopt | utils/rediscluster/cluster.go:727-753 | The node of an address is kept if known and created otherwise, and stamped |
| SlotTable.Cluster.constructor | utils/rediscluster/cluster.go:84-97 | An empty cluster: no nodes, no slot assigned |
| SlotTable.Purge | utils/rediscluster/cluster.go:757-763 | Exactly the nodes without this update's stamp are shut down and removed, for every iteration order |
| SlotTable.Cluster.AssignMasters | utils/rediscluster/cluster.go:727-754 | For every iteration order each slot points to a node one of whose ranges has it, or is untouched when no range does |
| SlotTable.Cluster.ResetSlaveSlots | utils/rediscluster/cluster.go:767-770 | All replica lists are emptied |
| SlotTable.Cluster.AssignSlaves | utils/rediscluster/cluster.go:773-802 | Each slot's list holds, in the one order in which replicas were taken up, each replica as often as its ranges contain the slot; the nodes are replica nodes |
| SlotTable.Cluster.InstallMasters | utils/rediscluster/cluster.go:727-763 | After assigning and purging, known masters kept their node, new ones are fresh, all carry the stamp, and unstamped ones are shut down and gone |
| SlotTable.Cluster.InstallSlaves | utils/rediscluster/cluster.go:765-811 | The replica lists are rebuilt from scratch and name live replicas only; known replicas kept their node, new ones are fresh, unstamped ones are shut down and gone |
| SlotTable.Cluster.Update | utils/rediscluster/cluster.go:602-813 | A reply is installed if and only if it counts 16384 slots, else nothing changes; each slot then points to the node of a row that has it, with disjoint rows to the live node of its one announced master; a replica's node is in a slot's list if and only if a row with that slot names it, as often as rows do so, in one order for all slots; if the clock has moved, masters and replicas in the maps are exactly those of the reply; the ones that stay keep their node, all others are shut down |
| SlotTable.Cluster.HandleUpdates | utils/rediscluster/cluster.go:815-835 | After any number of updates under a clock that moves, maps, slots and replica lists are those of the last reply that passed the count |
| SlotTable.DisjointAgreement | utils/rediscluster/cluster.go:727-754 | With disjoint rows every slot points to the master that announced it, whatever the order of map iteration |
| SlotTable.SameListingsSameReplicas | utils/rediscluster/cluster.go:773-802 | Slots for which the rows list every replica equally often have identical replica lists |
| SlotTable.CountIsListings | utils/rediscluster/cluster.go:671-709 | The ranges collected for a replica contain each slot exactly as often as rows with that slot list the replica |
| SlotTable.ListsServe | utils/rediscluster/cluster.go:773-802 | A node is in a slot's list exactly when it is the node of an address that a row with that slot names, and occurs as often as rows do so |
| SlotTable.ListingsPositive | utils/rediscluster/cluster.go:671-709 | The rows list a replica for a slot at least once if and only if some row with that slot names it |
| SlotTable.SameCoverSameReplicas | utils/rediscluster/cluster.go:765-802 | When no slot is given to a replica twice, two slots for which the rows name the same replicas have identical lists, so one seed picks the same replica for both |
| SlotTable.Cluster.Close | utils/rediscluster/cluster.go:368-378 | Every master node is shut down, the map is empty and the cluster closed |
| SlotTable.Cluster.GetNodeByKey | utils/rediscluster/cluster.go:908-929 | The node of the key's slot, or none after Close |
| SlotTable.Cluster.GetNodeByAddr | utils/rediscluster/cluster.go:892-906 | A node is found exactly when the cluster is open and knows the address; it has that address, is in the map and is not shut down |
| SlotTable.Cluster.GetSlaveByNumSeed | utils/rediscluster/cluster.go:1026-1064 | A replica of the key's slot at seed modulo list length, always in bounds, with the slot's master; an error when there is none |
| Redirect.NodeDo | utils/rediscluster/node.go:234-259 | A refused connection becomes the pseudo-error reply, a broken one an error, anything else the node's reply |
| Redirect.TimeoutKind | utils/rediscluster/cluster.go:508-532 | The pseudo-error of a refused connection is classed as a connection timeout |
| Redirect.MovedIsMove | utils/rediscluster/cluster.go:508-532 | A message with the MOVED prefix is classed as a redirection |
| Redirect.KindIsPrefix | utils/rediscluster/cluster.go:508-532 | For every error text, each of the five kinds is told exactly by how the text begins |
| Redirect.HandleMove | utils/rediscluster/cluster.go:380-395 | Makes at most one exchange, with the node the message names, or fails with a nil reply; a node that stays in the map is found |
| Redirect.HandleAsk | utils/rediscluster/cluster.go:397-437 | Sends ASKING and the command together to the node the message names; only full success returns a reply; a node that stays in the map is found |
| Redirect.Net.PickNode | utils/rediscluster/cluster.go:439-449 | Some node of the map, the failed one only if it is the only one, and none exactly when the map is empty |
| Redirect.HandleConnTimeout | utils/rediscluster/cluster.go:439-495 | A node of the map is asked, the failed one only if it is the only one; a second one exactly when the first answers MOVED with another address than the failed one; only the last can execute the command, and its answer is returned; each failure has its outcome; it crashes exactly when the node map is empty |
| Redirect.RefusalOwes | utils/rediscluster/cluster.go:439-495 | Whatever goes on that way keeps at-most-once, sends the command itself, follows MOVED and loses no answer |
| Redirect.FollowMoves | utils/rediscluster/cluster.go:188-215 | The loop goes on exactly while replies are MOVED, each time to the node named, nothing having been executed yet |
| Redirect.Settle | utils/rediscluster/cluster.go:182-225 | The final dispatch on the kind of reply keeps at-most-once, returns what the last exchange brought, and crashes exactly when the chain ends at a refused connection and the node map is empty |
| Redirect.Do | utils/rediscluster/cluster.go:155-228 | On every run of MOVED chains, ASK and timeouts at most one node executes the command and no exchange follows it; event by event it is fixed what comes next and what is returned: MOVED is followed to the node it names, ASK to the node it names with ASKING in front, a refused connection to another node of the map, anything else ends the run; data the last node answers is always the result; success means the last exchange's reply except for a MOVED chain ending in a failure, which returns nil without error; nodes that stay in the map are found |
| Redirect.FollowsChain | utils/rediscluster/cluster.go:182-225 | When the replies before an event were all MOVED, that event decides the rest of the run |
| Redirect.DoToEnd | utils/rediscluster/cluster.go:155-228 | If nodes answer MOVED finitely often, Do terminates, every event being followed by what its reply asks for; if a node executes the command and answers with data, that is the result; no crash unless the node map was empty or the cluster has been closed |
| Redirect.DeliveredAfter | utils/rediscluster/cluster.go:203-225 | Past a chain of MOVED replies only what follows decides the result |
| Redirect.SplitMoved | utils/rediscluster/cluster.go:381-385 | A redirection as nodes send it is recognised and names its target, and the event that follows it is with that node |
| Redirect.SplitAsk | utils/rediscluster/cluster.go:397-401 | An ASK as nodes send it is recognised and names its target |
| Redirect.SplitUnsplit | utils/rediscluster/cluster.go:381-385 | No field of a split text has a space, and the fields with single spaces between them are the text |
| Redirect.NilSuccess | utils/rediscluster/cluster.go:191-200 | A concrete run of redirections on which the result is nil without error although the command was executed |
| Redirect.TimeoutAfterClose | utils/rediscluster/cluster.go:439-449 | A concrete crash: a connection timeout after Close |
| Redirect.QuietAppliesOnce | utils/rediscluster/cluster.go:155-228 | If only the last exchange can execute the command, it is executed at most once, and exactly once when the last one does |
| Redirect.RoutedAppend | utils/rediscluster/cluster.go:188-225 | Following each redirection to the node it names composes over the stages of Do |
| Redirect.RedirectedPush | utils/rediscluster/cluster.go:170-171 | For every RPUSH no later exchange is the pipeline sent first: the expiry is never sent again, and an expiry that was given becomes one more element |
| Redirect.FirstSendIs | utils/rediscluster/node.go:261-281 | A push is sent with its key and one element, pipelined with an expire of the same key by the third argument, or 600 when there is none; any other command is sent as it is |
| Multi.Group | utils/rediscluster/multi.go:34-72 | One task per occurring slot, in the order of first occurrence, holding that slot's items in argument order, at the slot's owner; it fails exactly when some slot has no owner, naming the first such slot |
| Multi.Place | utils/rediscluster/multi.go:46-71 | One more item goes to the end of its slot's task or opens a new one, all other tasks unchanged |
| Multi.ScheduleKeepsOrder | utils/rediscluster/multi.go:74-80 | Every interleaving of the tasks' writes keeps each task's own order |
| Multi.ApplyIsLastWrite | utils/rediscluster/multi.go:29-91 | A key holds the last value written to it, or what it held before |
| Multi.LastWriteInSlot | utils/rediscluster/multi.go:46-71 | What happens to a key is decided by the writes to its slot |
| Multi.MsetSchedule | utils/rediscluster/multi.go:74-80 | Whichever tasks were executed, in any interleaving of single writes, the keys of their slots are as after the plain command and all others as before |
| Multi.MsetConfluence | utils/rediscluster/multi.go:29-91 | With all tasks executed every interleaving leaves the same store as applying the pairs from left to right |
| Multi.Data.Run | utils/rediscluster/multi.go:74-80 | Running the tasks at once is some interleaving of their writes |
| Multi.RunTasks | utils/rediscluster/multi.go:163-228 | The writes of exactly the tasks that were executed, and the failure of the first task, in order, that failed |
| Multi.MultiSet | utils/rediscluster/multi.go:29-91 | The error is determined: odd arguments, the first slot without owner, or the first task that failed; otherwise success and the store of the plain command; the slots whose task was executed are as after it, all others untouched; nothing is written before every slot has its owner |
| Multi.MsetCases | utils/rediscluster/multi.go:29-91 | Odd arguments if and only if their number is odd; no node if and only if a slot is unowned, naming the first; a task failure if and only if all slots are owned and some task failed; success otherwise |
| Multi.FailureOfPairs | utils/rediscluster/multi.go:82-89 | The failure reported is that of the first pair, in argument order, whose task failed, and there is none exactly when all succeed |
| Multi.AskAll | utils/rediscluster/multi.go:230-233 | Each task holds what its slot's owner answers to its keys: a reply list or a failure |
| Multi.Gather | utils/rediscluster/multi.go:145-160 | Popping each task's replies from the front gives every argument the reply at its rank within its task if all can be served, and otherwise the failure or crash of the first that cannot |
| Multi.MultiGet | utils/rediscluster/multi.go:93-161 | The outcome is determined by the slot table and the nodes' answers; with all slots owned and nodes that look their keys up in order it is the pointwise lookup of all arguments in their order, duplicates and shared slots included |
| Multi.MgetCases | utils/rediscluster/multi.go:93-161 | Success if and only if all slots are owned and every argument can be served; a crash if and only if the first that cannot is short of replies; a task failure if and only if its node failed; no node if and only if a slot is unowned |
| Multi.EmptyAnswer | utils/rediscluster/multi.go:145-160 | A concrete crash: a node answers a key with an empty list |
| Multi.RankIsPlace | utils/rediscluster/multi.go:98-134 | Argument i stands at its rank within its slot's task |
| Multi.PlacesAreRanks | utils/rediscluster/multi.go:98-134 | Every key of a task is one of the arguments, at its rank |
| Multi.RanksKeepOrder | utils/rediscluster/multi.go:98-134 | Arguments of one slot keep their order in the task |
| Multi.MgetIsPointwise | utils/rediscluster/multi.go:93-161 | When nodes look their keys up in order, the gathered result is the pointwise lookup of all arguments, and nothing else is |
| Batch.CommandBatch.constructor | utils/rediscluster/batch.go:44-52 | An empty batch |
| Batch.CommandBatch.Put | utils/rediscluster/batch.go:67-137 | A put is refused exactly without key, for a multi-key command or without node; otherwise the command joins the end of its node's pipeline and the index tells which |
| Batch.PlaceFits | utils/rediscluster/batch.go:117-134 | Command k stands at its place in its node's pipeline |
| Batch.PlacesKeepOrder | utils/rediscluster/batch.go:117-134 | Commands to one node keep the order of the puts |
| Batch.PlacesCover | utils/rediscluster/batch.go:117-134 | A node's pipeline holds the commands put for it and nothing else |
| Batch.DoBatch | utils/rediscluster/batch.go:309-355 | Replies are recorded in pipeline order until the pipeline breaks, and the break is remembered |
| Batch.CommandBatch.RunAll | utils/rediscluster/batch.go:141-152 | Every pipeline is run once, with the commands put for its node in order |
| Batch.CommandBatch.Pop | utils/rediscluster/batch.go:160-187 | The front reply is handed out, nil for a broken pipeline, and dropped |
| Batch.CommandBatch.RunBatch | utils/rediscluster/batch.go:141-191 | One reply per put, the k-th being the one recorded for the k-th command, or nil if its node's pipeline broke; popping never runs out; the call fails if and only if some recorded reply is CLUSTERDOWN |
| Pool.Conn.Send | utils/rediscluster/node.go:194-206 | One more command is on the wire, counted and logged, unless the connection broke |
| Pool.Conn.Flush | utils/rediscluster/node.go:208-218 | A failure breaks the connection |
| Pool.Conn.Receive | utils/rediscluster/node.go:220-232 | The reply answers the oldest unanswered command; without one nothing happens |
| Pool.Node.constructor | utils/rediscluster/node.go:44-73 | A new pool is empty and valid |
| Pool.Node.TakePooled | utils/rediscluster/node.go:75-148 | The locked part: the connection taken is the one at the back once the expired ones are gone, owes nothing and nobody has it; the early exit leaves no expired connection in the pool; a pooled one that has not expired is handed out; one must be dialled exactly when the node is open and none is pooled |
| Pool.Node.Dial | utils/rediscluster/node.go:109-136 | A dialled connection is new, owes nothing and belongs to the caller |
| Pool.Node.Others | utils/rediscluster/node.go:75-301 | Any number of steps of other callers, a shutdown included, keep the invariant, leave the caller's connections alone and never reopen a node |
| Pool.Node.GetConn | utils/rediscluster/node.go:75-148 | Other callers acting during the dial, the connection handed out owes nothing and is the caller's; there is one when the node is open and can be dialled or has an unexpired one pooled; a closed node hands out none |
| Pool.Node.Purge | utils/rediscluster/node.go:87-106 | A tail of the pool is dropped, all of it expired, and no expired connection is left |
| Pool.Node.ReleaseConn | utils/rediscluster/node.go:150-170 | A connection is pooled, in front, if and only if it owes nothing, the node is open, there is room and connections are kept; otherwise it is closed |
| Pool.Node.Discard | utils/rediscluster/node.go:234-259 | A failed connection is closed and forgotten |
| Pool.Node.Shutdown | utils/rediscluster/node.go:176-192 | The pool is emptied, its connections closed and the node closed for good; open afterwards are exactly the ones in use and those dropped for their age |
| Pool.Node.Exchange | utils/rediscluster/node.go:240-256 | With other callers acting between send, flush and receive, the reply is to the command sent, and nothing is owed afterwards |
| Pool.Node.Do | utils/rediscluster/node.go:234-259 | Whatever other callers do between its steps, the reply is the reply to this call's own command, the last one sent on its connection; it fails only if the connection broke, and has none only if the dial failed or the node is closed; the connection is pooled or closed in the end and owes nothing |
| Pool.Node.DoRpushExpire | utils/rediscluster/node.go:261-301 | Whatever other callers do between its steps, on success the push and then its expiry were the last things sent on its connection, the push's own reply is returned and both replies are consumed; the connection is pooled or closed in the end |
| Cache.ExpiredIsInvisible | utils/memorycacher/cache.go:37-42 | The two expiry tests agree if and only if the expiration is non-negative or not yet past |
| Cache.StepKeepsSigns | utils/memorycacher/cache.go:101-113 | No operation stores a negative expiration |
| Cache.ThinnerStep | utils/memorycacher/cache.go:76-173 | Any operation below capacity has the same result with and without earlier cleaning of expired items |
| Cache.CleaningIsInvisible | utils/memorycacher/cache.go:981-1000 | For every run under a clock that does not go back and below capacity, cleaning any number of times anywhere changes no result |
| Cache.RepresentsStep | utils/memorycacher/cache.go:76-278 | Every operation keeps the cache equal to the last effective writes of its history, up to expired items |
| Cache.GetIsLastLiveWrite | utils/memorycacher/cache.go:157-173 | Get finds the last value effectively written, as later counting left it, if it has not expired, and nothing otherwise |
| Cache.LiveIsKept | utils/memorycacher/cache.go:205-217 | What is live in the cache is the last effective write, if that has not expired |
| Cache.FoundThroughLifetime | utils/memorycacher/cache.go:76-173 | In plain numbers: what Set, Add or Replace stored at a time for a positive lifetime (the default one where none is given) and nothing wrote since is found up to and including that time plus the lifetime and never after; without a positive lifetime it is found for ever |
| Cache.KeptSince | utils/memorycacher/cache.go:76-173 | The last effective write of a key is what its history keeps, however long it goes on |
| Cache.ExpiringCache.Set | utils/memorycacher/cache.go:76-99 | A write replaces the item with its expiry, or is dropped, which happens exactly when the cache is full |
| Cache.ExpiringCache.Peek | utils/memorycacher/cache.go:205-217 | Finds the item if it is there and not expired |
| Cache.ExpiringCache.Put | utils/memorycacher/cache.go:101-113 | Stores the item with default, given or no expiry |
| Cache.ExpiringCache.Add | utils/memorycacher/cache.go:123-139 | With room it stores exactly where the last write, if any, has expired; a cache with at least max items drops it |
| Cache.ExpiringCache.Replace | utils/memorycacher/cache.go:143-153 | It stores exactly where the last write is live, full or not |
| Cache.ExpiringCache.Get | utils/memorycacher/cache.go:157-173 | The result is the last live write of the whole history |
| Cache.ExpiringCache.Count | utils/memorycacher/cache.go:237-278 | It counts exactly where the last write is live and an integer, moving it in its width's two's complement; expiration and all other keys are unchanged |
| Cache.ExpiringCache.Delete | utils/memorycacher/cache.go:955-973 | The key is gone; the callback gets its value if it was there |
| Cache.ExpiringCache.DeleteExpired | utils/memorycacher/cache.go:981-1000 | Exactly the expired items go, for every iteration order, and the callback sees each once; the clean time is set |
| Cache.ExpiringCache.Sweep | utils/memorycacher/cache.go:983-994 | The pass over the map removes exactly the expired items |
| Cache.ExpiringCache.Items | utils/memorycacher/cache.go:1090-1105 | A copy of exactly the unexpired items |
| Cache.ExpiringCache.Flush | utils/memorycacher/cache.go:1117-1121 | Everything is gone |
| Cache.BumpIsWrappedSum | utils/memorycacher/cache.go:237-278 | Converting the amount to the width first and adding then is wrapping the exact sum |
| Cache.CounterIsWrappedSum | utils/memorycacher/cache.go:597-640 | After any run of operations that only count on a live integer item it shows its start plus the signed sum in two's complement of its width, its expiration unchanged |
| Cache.CountsAreLocal | utils/memorycacher/cache.go:597-640 | A run of counts on one key leaves every other key alone |
| Cache.DecrementUndoesIncrement | utils/memorycacher/cache.go:597-640 | Decrement undoes Increment and the other way round, across overflow |
| FixedWidth.WrapAdd | utils/memorycacher/cache.go:237-278 | Wrapping an addend early or late is the same |
| FixedWidth.WrapMulAdd | utils/rediscluster/node.go:440-456 | Wrapping after each digit or once at the end is the same |
| FixedWidth.WrapFixes | utils/memorycacher/cache.go:237-278 | A number is its own wrapping if and only if it is in range |
| FixedWidth.WrapNegative | utils/rediscluster/node.go:420-427 | The upper half of the residues stands for the negative numbers |
| Capacity.ActKeepsInv | utils/memorycacher/cache.go:69-99 | Items plus goroutines past the check never exceed the limit plus the number of goroutines minus one: kept by every atomic step |
| Capacity.Bounded | utils/memorycacher/cache.go:69-99 | In every interleaving of k goroutines from an empty cache there are never more than max + k - 1 items |
| Capacity.BoundIsReached | utils/memorycacher/cache.go:69-99 | For every positive max and k some interleaving reaches max + k - 1 items |
| Sharded.Djb33Unrolled | utils/memorycacher/sharded.go:43-72 | The unrolled loop and its tail stay in range and equal the plain fold over all bytes but the last, in 32-bit arithmetic |
| Sharded.HashOfRedis | utils/memorycacher/sharded.go:43-72 | The hash of "redis" for one seed, as a number |
| Sharded.LastByteIgnored | utils/memorycacher/sharded.go:50-70 | Keys that differ in their last byte only share their hash, for every seed |
| Sharded.KeyedIsLocal | utils/memorycacher/sharded.go:78-108 | An operation on a key reads and changes that key alone |
| Sharded.ShardStep | utils/memorycacher/sharded.go:78-108 | One operation at its key's shard is the same operation, with the same result, on the shards taken together, and every key stays in its own shard |
| Sharded.AllShardsStep | utils/memorycacher/sharded.go:110-133 | Cleaning or flushing every shard at one time does it to the whole |
| Sharded.SweptTogether | utils/memorycacher/sharded.go:110-114 | Cleaning each shard at its own time removes from the whole exactly the keys expired at their shard's time |
| Sharded.ShardingIsInvisible | utils/memorycacher/sharded.go:74-133 | Every run gives the same results on any number of shards with any seed as on one cache, as long as neither meets its capacity |
| Sharded.ShardedCache.constructor | utils/memorycacher/sharded.go:170-195 | Empty distinct shards with the given limit each and no janitor; ready for use if there is at least one |
| Sharded.ShardedCache.Bucket | utils/memorycacher/sharded.go:74-76 | The shard of a key is its hash modulo the number of shards, in range |
| Sharded.ShardedCache.Set | utils/memorycacher/sharded.go:78-80 | The operation on the one unsharded cache, unless the key's shard is full, which crashes for want of a janitor |
| Sharded.ShardedCache.Add | utils/memorycacher/sharded.go:82-84 | As for Set |
| Sharded.ShardedCache.Replace | utils/memorycacher/sharded.go:86-88 | The operation on the one unsharded cache |
| Sharded.ShardedCache.Get | utils/memorycacher/sharded.go:90-92 | What the one unsharded cache would find |
| Sharded.ShardedCache.Count | utils/memorycacher/sharded.go:94-104 | The count on the one unsharded cache |
| Sharded.ShardedCache.Delete | utils/memorycacher/sharded.go:106-108 | The deletion from the one unsharded cache |
| Sharded.ShardedCache.DeleteExpired | utils/memorycacher/sharded.go:110-114 | Each shard cleaned by its own clock reading, exactly the keys expired then are gone, none of which could be seen afterwards |
| Sharded.ShardedCache.Flush | utils/memorycacher/sharded.go:129-133 | Nothing is left in any shard |

## Left out

- Redirect.Do: takes the owner of the key as a parameter and stops after `fuel` MOVED replies, so that every finite part of every run is covered; Redirect.DoToEnd has no such bound.
- Redirect.Do: requires two arguments of an RPUSH, because the code slices its arguments without a check and crashes with fewer.
- Batch.CommandBatch.RunBatch: what a command's redirections bring is folded into the replies its pipeline yields (`wire`), since HandleMove, HandleAsk and HandleConnTimeout are proved in Redirect; running the same batch twice is not modelled.
- Batch.CommandBatch.Put: the choice between master and replica is the parameter `found`; the READONLY handshake and the retry at the master belong to what `wire` yields.
- Multi.RunTasks: redirections inside a task are folded into whether it succeeded and whether it was executed; MSETNX, whose integer reply the gathering turns into an error, is not told apart from MSET.
- SlotTable.Cluster.Update: takes the rows of the reply already converted and with slot numbers below 16384 (others make the code index out of range); malformed replies, refused before anything changes, are left out.
- Command.Conn.WriteCommand: writes to an unbounded stream, not through the buffered writer of the connection, whose failures it passes on; floating-point and boolean arguments are not modelled.
- Pool.Node.Do: works with abstract commands and replies, each reply naming the command it answers; the bytes are the subject of Command and Replies.
- Reader.ByteReader.ReadSlice: the returned slice is a copy; that the code's slice shares the buffer and changes with the next read is not modelled.
- Reader.ByteReader.Fill: a source delivers bytes or an error, not both at once; the code discards bytes that come with an error.
- Cache.ExpiringCache.Set: the clock is read once per operation, and the whole operation is one step; the separate capacity check is the subject of Capacity.
- Cache.CleaningIsInvisible: says nothing about runs that meet the capacity, where cleaning makes room and results do differ.
- Sharded.ShardedCache.Bucket: requires at least one shard, as all operations do; with none the code divides by zero.
- Sharded.ShardingIsInvisible: cleans all shards at one time; Sharded.ShardedCache.DeleteExpired has a time for each.
- Sharded.Djb33Unrolled: keys of 4 GiB and more hash a prefix only, as the code's 32-bit length does.
- Sockets, deadlines, TLS, dialling and the timing of background updates: I/O.
- `SlaveDo`, the random replica choice and the update queue: the same dispatch and lookups again, on other node lists.
- Rendering of key arguments by `key()`, and conversions by reflection in reply.go: library calls.
- Replies.ReplyConn.ReadReply: the connection's buffered reader is the Go library's and enters by its contract; allocating a slice of any announced length succeeds.
- nil `*Resp` pointers, pooled buffers, and the stack depth of deeply nested messages.
- Floating-point counters, Save and Load, the janitor's ticker and finalizers.
- The order in which the eviction callback sees items; which items it sees is stated.
