# Verified model of the rbdc database drivers

rbdc is a family of wire-protocol database drivers. This project models the parts of it where a mistake would
corrupt data or leave a connection out of step, and proves what those parts promise:

- **Numeric**: the PostgreSQL NUMERIC codec. A decimal is regrouped from base 10 to base 10000 with a signed weight,
  written as bytes, read back and converted through base 100. The value survives, exactly.
- **PgProtocol, PgHistory, PgSession**: the PostgreSQL connection against any conforming server (section 55.2 "Message
  Flow" of the PostgreSQL 16 manual). Errors may come at any point, also at a Sync, and row streams may be dropped
  after any item. The pending counter, the write buffer, the unread replies, the statement cache and the statements
  open on the server stay consistent over every run of calls. What each row stream delivers is a first part of
  what the server sent for that call, and a call fails only with a cause that came up during that very call.
- **MySqlFraming, MySqlSession**: splitting and joining of packets over 16 MiB, and the `Waiting` machine that skips
  what a dropped row stream left unread.
- **Exchange**: two implementations of placeholder rewriting, batch copying and in-place editing, against one meaning.
- **StatementCache**: the LRU cache of statements. **StatementBooks**: cached statements against those open on a server.
  **SqliteStatements**: multi-statement SQL compiled lazily and replayed from that cache, with arguments spread over the
  inner statements.
- **PgArguments, PgMessages**: the parameter block with its back-filled lengths and deferred JSON patches, and the Parse
  and Bind messages (section 55.7 "Message Formats" of the PostgreSQL 16 manual).
- **PgTypes**: recursive resolution of user-defined types through a cache.
- **BufStream**: the read buffer that survives cancelled reads. **PgPass**: lines of a pgpass file.
  **MySqlDateTime**: the binary DATETIME encoder that edits its buffer in place.
- **Bytes, Radix, Text, Wrappers**: machine integers and their byte forms, numbers as digit strings, parts of `str`,
  `Option`.

Whatever the code does not decide is left open and the proofs hold for every choice: which legal answer a server
gives, whether an I/O operation fails or is cancelled, how a socket splits its bytes, what `sqlite3_prepare_v3` makes of
a text. Code that works by changing state is modelled by classes and loops, each proved against a function or predicate
whose own properties are proved beside it. What goes over a wire is stated twice, by a reader that undoes the writer and
in byte values, and what a stream gives is stated by the replies or packets it was read from.

Where the code does less than one might expect of it, the model keeps the code as it is and says exactly when the
expectation holds:

- Equal decimals give equal NUMERICs except for zero, whose weight depends on its exponent (`Numeric.EqualValuesAgree`,
  `Numeric.ZerosOfDifferentWeight`).
- `TryFrom<PgNumeric>` means to refuse digits outside 0..9999 but lets those through whose two base-100 bytes wrap into
  range: 25600 reads as 0 (`Numeric.CentsInRange`, `Numeric.OutOfRangeDigitAccepted`).
- The MySQL row stream yields the final OK or EOF before it takes its entry off `waiting`. Dropped there it makes the
  next call wait for packets that never come (`MySqlSession.AbandonOutcome`). So would the stream of the private `run`
  if it were dropped before its first poll; a `fetch_many` that is never polled does not get that far and sends nothing.
- `recv` hands a notification to its caller if no sender for notifications is set, and no code sets one. A caller that
  only waits for ReadyForQuery passes over it; any other fails because it expected something else, and the connection
  stays usable (`PgSession.PgConnection.Recv`, `PgSession.PgConnection.RecvExpect`). The model has connections with and
  without a listener.
- Rewriting placeholders in place reads what it inserted. It agrees with batch copying if and only if the prefix has no
  question mark or the text no placeholder; a bare question mark in the prefix makes it insert for ever
  (`Exchange.EditingCorrectIff`, `Exchange.EscapedPrefix`).
- `read_raw` always takes `cnt` more bytes from the socket, so bytes left in the buffer by a cancelled read do not help
  it to succeed (`BufStream.BufStream.ReadRaw`, `BufStream.BufferedBytesNotEnough`, `BufStream.CutShort`).
- A MySQL DATETIME keeps its year only modulo 65536 (`MySqlDateTime.RoundTripIff`).
- Looking up a type oid by name depends on what is cached exactly if the name is ambiguous, that is, if a user-defined
  type other than the one the catalog gives first bears it (`PgTypes.NameLookupIff`).
- A statement can stay open on the PostgreSQL server with nobody left to close it: on success exactly if it was prepared
  without being stored, and on failure at most the new one, if it did not reach the cache, or else the one it pushed
  out (`PgSession.PgConnection.GetOrPrepare`, `PgProtocol.CloseMayBeRefused`). Every id that leaves the cache does get
  its one Close message.

The comment on `PgNumeric::encode` announces a panic for digits of 10000 and more. The code has a debug assertion; the
model follows release builds, where such digits are written.

## Model

| member | source | states |
|---|---|---|
| `Numeric.WeightOf` | rbdc-pg/src/types/bigdecimal.rs:80-88 | The two truncating branches compute one thing: the base-10000 group that holds the leading decimal digit, for positive, zero and negative positions |
| `Numeric.Base10To10000` | rbdc-pg/src/types/bigdecimal.rs:60 | A chunk of at most four digits folds to its value and no step leaves `i16` |
| `Numeric.ShiftedDigit` | rbdc-pg/src/types/bigdecimal.rs:100-113 | A padded chunk is a digit below 10000, and not zero if it starts with a non-zero digit |
| `Numeric.FirstGroup` | rbdc-pg/src/types/bigdecimal.rs:96-106 | The alignment group spells the first `offset` decimal digits, also when the number is shorter than the offset |
| `Numeric.NextGroup` | rbdc-pg/src/types/bigdecimal.rs:108-113 | Each chunk of four extends the base-10000 number by exactly those decimal digits, the last one padded with zeros |
| `Numeric.Regroup` | rbdc-pg/src/types/bigdecimal.rs:96-113 | All groups together are the decimal number shifted by the alignment, first digit non-zero for a non-zero number |
| `Numeric.StripTrailingZeros` | rbdc-pg/src/types/bigdecimal.rs:115-117 | Exactly the trailing zeros go and the value stays |
| `Numeric.DigitSumIsHorner` | rbdc-pg/src/types/bigdecimal.rs:39-40 | The positional value with a weight is the base-10000 number shifted by the place of its last digit, the scale both conversions rely on |
| `Numeric.BuiltValue` | rbdc-pg/src/types/bigdecimal.rs:69-113 | Digits that spell the shifted number, placed by the computed weight, sum to the decimal's value |
| `Numeric.FromBigDecimal` | rbdc-pg/src/types/bigdecimal.rs:59-128 | Succeeds exactly if scale and weight fit `i16`; the result is canonical and has exactly the value, with no overflow on the way |
| `Numeric.CanonicalUnique` | rbdc-pg/src/types/bigdecimal.rs:59-128 | Canonical numerics of equal value have the same sign and digits, and the same weight unless zero |
| `Numeric.EqualValuesAgree` | rbdc-pg/src/types/bigdecimal.rs:59-128 | Decimals equal in value but not in exponent convert alike; the weight agrees if and only if they are non-zero or their weights coincide |
| `Numeric.ZerosOfDifferentWeight` | rbdc-pg/src/types/bigdecimal.rs:69-88 | Two equal zeros that get the weights 0 and -2 |
| `Numeric.WrappedPosition` | rbdc-pg/src/types/bigdecimal.rs:71-88 | For every `i64` exponent the 64-bit computation of the position accepts the same decimals as exact arithmetic, and never wraps for those it accepts |
| `Numeric.CentsTruncate` | rbdc-pg/src/types/bigdecimal.rs:44-47 | The two base-100 bytes are quotient and remainder of truncating division, modulo 256, for every `i16` |
| `Numeric.CentsInRange` | rbdc-pg/src/types/bigdecimal.rs:43-50 | For every `i16`, the two base-100 bytes are in range if and only if the digit is accepted; for 0..9999 they make up the digit |
| `Numeric.OutOfRangeDigitAccepted` | rbdc-pg/src/types/bigdecimal.rs:44-50 | An out-of-range digit that is accepted and reads as zero |
| `Numeric.ToBigDecimal` | rbdc-pg/src/types/bigdecimal.rs:15-53 | NaN fails, no digits is 0, success exactly if every digit is accepted, and then the value is that of the digits as they are taken, which for base-10000 digits is exactly the numeric's |
| `Numeric.ParseWire` | rbdc-pg/src/types/numeric.rs:77-134 | Whatever the encoder can write reads back unchanged with any bytes after it |
| `Numeric.WireLaid` | rbdc-pg/src/types/numeric.rs:51-134 | The wire form in byte values, for every numeric and any bytes before it |
| `Numeric.Encode` | rbdc-pg/src/types/numeric.rs:102-134 | Appends the wire form of `ParseWire` and leaves the buffer before it, and byte by byte: digit count, weight, sign 0000, 4000 or C000, scale and digits as big-endian words; panics exactly from 32768 digits on |
| `Numeric.Decode` | rbdc-pg/src/types/numeric.rs:77-96 | The cursor loop agrees with the reader of `ParseWire` on every buffer, with its panics and sign errors; which bytes are count, weight, sign, scale and digits, and which sign bytes mean what, is stated in byte values |
| `Numeric.RoundTrip` | rbdc-pg/src/types/bigdecimal.rs:15-128 | Decimal to numeric to bytes and back gives exactly the value; with fitting scale and weight it fails only if every canonical form of the value needs 32768 digits or more |
| `StatementCache.RoomConserves` | src/common/statement_cache.rs:28-46 | What stays when room is made and what is taken out are together what was there |
| `StatementCache.RoomInUseOrder` | src/common/statement_cache.rs:28-46 | Making room keeps entries in order of last use, leaves a free place and no entry for the key |
| `StatementCache.PutsRoom` | src/common/statement_cache.rs:28-46 | What an insertion means: the entry of that key is replaced and its value handed back, or if there is none and the cache is full the entry with the oldest use goes, and every other entry stays |
| `StatementCache.InUseOrderDistinct` | src/common/statement_cache.rs:11-23 | Keys of a reachable cache are pairwise distinct |
| `StatementCache.Cache.constructor` | src/common/statement_cache.rs:13-17 | A new cache is empty and within its capacity |
| `StatementCache.Cache.GetMut` | src/common/statement_cache.rs:21-23 | A hit gives the cached value, counts as its latest use and makes its entry the most recent; a miss changes nothing |
| `StatementCache.Cache.RemoveLru` | src/common/statement_cache.rs:54-56 | The entry handed back was used before every other one |
| `StatementCache.Cache.Insert` | src/common/statement_cache.rs:28-46 | Capacity is kept, the insertion is the latest use, the replaced value or that of the entry used longest ago is handed back, all others stay, and every value ever inserted is cached, was handed back once, or was dropped by `clear` |
| `StatementCache.Cache.Clear` | src/common/statement_cache.rs:59-61 | All values are dropped without being handed back, and accounted for |
| `PgProtocol.CanAnswer` | rbdc-pg/src/connection/executor.rs:157-162 | The server assumptions are satisfiable: there is a legal answer to every request in every state |
| `StatementBooks.CachedIdsDistinct` | rbdc-pg/src/connection/executor.rs:174-190 | Cached statement ids are pairwise distinct |
| `StatementBooks.OrphanMeans` | rbdc-pg/src/connection/executor.rs:164-193 | A statement without an owner is one that is open and is the value of no cached entry |
| `StatementBooks.DisplacedMeans` | src/common/statement_cache.rs:28-34 | A new key displaces a statement if and only if the cache is full, and then that of the oldest entry |
| `StatementBooks.PromoteOrphans` | rbdc-pg/src/connection/executor.rs:174-176 | A cache hit leaves the same statements without an owner |
| `StatementBooks.StoreOrphans` | rbdc-pg/src/connection/executor.rs:180-189 | Caching a new statement leaves the one it pushes out without an owner if and only if that was not closed |
| `StatementBooks.StoredOpen` | rbdc-mysql/src/connection/executor.rs:74-79 | Caching a new statement and closing the one pushed out leaves every cached one open for its text |
| `PgProtocol.AnswerReadies` | rbdc-pg/src/connection/executor.rs:157-162 | An answer holds a ReadyForQuery exactly for Sync and Query, as its last message |
| `PgProtocol.ServerPays` | rbdc-pg/src/connection/executor.rs:157-162 | Over any legal log there are as many ReadyForQuery as Sync and Query, whatever errors came, provided no Query stands inside an unfinished group |
| `PgProtocol.PrepareOutcome` | rbdc-pg/src/connection/executor.rs:49-83 | All replies Parse, Describe and Sync can have, an error of any of the three included; ParseComplete comes exactly if the statement was opened |
| `PgProtocol.CloseGroupOutcome` | rbdc-pg/src/connection/mod.rs:167-177 | After Close messages and Sync a prefix of the ids is closed, with one CloseComplete each; an error comes if it is not all of them, and may come from the Sync |
| `PgProtocol.CloseMayBeRefused` | rbdc-pg/src/connection/executor.rs:182-188 | For every open statement there is a legal answer to Close and Sync that leaves it open |
| `PgProtocol.LegalConcat` | rbdc-pg/src/connection/mod.rs:107-110 | A legal run that goes on legally is a legal run, and its replies are those of its parts in order |
| `PgProtocol.StreamOutcome` | rbdc-pg/src/connection/executor.rs:224-253 | Bind, Execute, Sync or Query open and close no statement and cause only replies a row stream expects, tagged with their call |
| `PgProtocol.ExecuteEnds` | rbdc-pg/src/connection/executor.rs:224-243 | In the answer to Bind, Execute and Sync the server always says how the command ended: completed, empty, failed or suspended |
| `PgProtocol.QueryEnds` | rbdc-pg/src/connection/executor.rs:250-253 | The same of the answer to Query |
| `PgHistory.ErrorsLeft` | rbdc-pg/src/connection/mod.rs:112-118 | Reading past the first unread error leaves exactly one error less |
| `PgHistory.FirstRowMeans` | rbdc-pg/src/connection/executor.rs:358-377 | The first row of some items is a row with none before it, and there is none exactly if no item is a row |
| `PgHistory.YieldsOne` | rbdc-pg/src/connection/executor.rs:276-314 | A reply is an item of a stream if and only if it is a row or a count |
| `PgHistory.SentOne` | rbdc-pg/src/connection/executor.rs:276-314 | A reply is an item of a call if and only if it is a row or a count and answers that call |
| `PgHistory.SentUnchanged` | rbdc-pg/src/connection/executor.rs:264-332 | As long as a call sends no Query or Execute, nothing is added to the items sent for it, whatever else a legal run does |
| `PgHistory.SendMore` | rbdc-pg/src/connection/mod.rs:107-110 | What was read and what is unread are together all the server sent, also when more is sent: no reply is lost, repeated or reordered |
| `PgHistory.ReadOne` | rbdc-pg/src/connection/stream.rs:97-173 | The same when a reply is taken |
| `PgHistory.RunSuspends` | rbdc-pg/src/connection/executor.rs:234-239 | In every legal run a portal is suspended only after it gave a row, so the first row is never missed for it |
| `PgHistory.CausedWithin` | rbdc-pg/src/connection/stream.rs:65-80 | A cause that came up in a part of a call came up in the call: the error was read by it, or a notification nobody listens for reached it |
| `PgHistory.StillSettled` | rbdc-pg/src/connection/executor.rs:337-356 | No later call adds to or takes from what the server sent for an earlier one, so its delivery stays right |
| `PgHistory.NextSettled` | rbdc-pg/src/connection/executor.rs:337-356 | One more call leaves every delivery of the session a first part of what was sent for its call |
| `PgHistory.NextChained` | rbdc-pg/src/connection/executor.rs:337-394 | A fitting outcome that starts where the session stands extends it |
| `PgHistory.SettledOwn` | rbdc-pg/src/connection/executor.rs:264-332 | Every item delivered answers the call it was given to |
| `PgSession.NextIdFresh` | rbdc-pg/src/connection/executor.rs:29-30 | Up to 2^32 prepares, the next id is not open, cached or closed before, and opening it keeps the books consistent |
| `PgSession.PromoteConsistent` | rbdc-pg/src/connection/executor.rs:174-176 | A cache hit returns an id that is open and parsed from this very text, and keeps the books consistent |
| `PgSession.EvictConsistent` | rbdc-pg/src/connection/mod.rs:167-170 | Taking the oldest entry and logging its Close keeps every evicted id closed exactly once |
| `PgSession.InsertConsistent` | rbdc-pg/src/connection/executor.rs:180-184 | Caching a new id and logging the Close of the one pushed out keeps every evicted id closed exactly once |
| `PgSession.RemoveClosed` | rbdc-pg/src/connection/executor.rs:187-188 | When the server closes logged ids, what is cached stays open |
| `PgSession.RunRecorded` | rbdc-pg/src/connection/executor.rs:195-262 | After waiting and preparing, the items of the answer to what `run` sends are all items ever sent for that call |
| `PgSession.PgConnection.constructor` | rbdc-pg/src/connection/establish.rs:179-190 | A new connection is consistent and ready |
| `PgSession.PgConnection.Flush` | rbdc-pg/src/connection/mod.rs:107-110 | The server answers the buffered messages in some legal way, which goes on record, and the counter still equals what is unread or owed |
| `PgSession.PgConnection.WriteSync` | rbdc-pg/src/connection/executor.rs:157-162 | A Sync and its count go together |
| `PgSession.PgConnection.Recv` | rbdc-pg/src/connection/stream.rs:97-173 | Replies come in order and what was read and what is unread stay all that was sent; asynchronous messages are skipped, except that a notification without a listener is handed over, which uses it up; an ErrorResponse is the error |
| `PgSession.PgConnection.RecvExpect` | rbdc-pg/src/connection/stream.rs:65-80 | Takes the expected reply, or fails with a cause met in this very read: an error, another reply, or a notification nobody listens for; it never swallows a ReadyForQuery |
| `PgSession.PgConnection.RecvDescRows` | rbdc-pg/src/connection/executor.rs:109-126 | Takes a RowDescription or NoData, or fails with a cause met in this very read, with the count still right |
| `PgSession.PgConnection.RecvReadyForQuery` | rbdc-pg/src/connection/mod.rs:123-133 | The counter follows the ReadyForQuery taken; an ErrorResponse in its place is taken and reported; it fails only with a cause met in this very read, and the count is still right |
| `PgSession.PgConnection.HandleReadyForQuery` | rbdc-pg/src/connection/mod.rs:135-140 | The decrement cannot underflow and the transaction status is the server's once all is read |
| `PgSession.PgConnection.WaitUntilReady` | rbdc-pg/src/connection/mod.rs:107-121 | Ok means nothing is owed, unsent or unread, and is given if and only if no error was unread or came for the queued queries; otherwise the first such error is reported and everything up to it read |
| `PgSession.PgConnection.Recover` | rbdc-pg/src/connection/mod.rs:107-121 | Called again after each failure it fails exactly once for each unread error, and then the connection is ready |
| `PgSession.PgConnection.QueueSimpleQuery` | rbdc-pg/src/connection/mod.rs:145-148 | The queued query and its count go together, in every consistent state |
| `PgSession.PgConnection.Prepare` | rbdc-pg/src/connection/executor.rs:23-101 | On success the id is fresh, open, parsed from this text, and the connection is ready; it fails only with an error this call read itself, or on a notification that reached it and nobody listens for, and then at most this id was opened; on success Parse, Describe if asked for, and Sync are on record one after the other |
| `PgSession.PgConnection.RecvPrepared` | rbdc-pg/src/connection/executor.rs:65-93 | Of every possible answer to Parse, Describe and Sync: success means the statement is open and the connection ready, failure has a cause met meanwhile, and the count is right either way |
| `PgSession.PgConnection.TakeId` | rbdc-pg/src/connection/executor.rs:29-30 | The id taken is neither open nor ever closed, and opening it keeps the books consistent |
| `PgSession.PgConnection.WaitForCloseComplete` | rbdc-pg/src/connection/executor.rs:130-155 | Ok only if every Close was answered, and then the ReadyForQuery is left to read, or the error of the Sync before it; it fails only with an error this call read itself, or on a notification that reached it and nobody listens for |
| `PgSession.PgConnection.GetOrPrepare` | rbdc-pg/src/connection/executor.rs:164-193 | A cached statement is returned with nothing sent; otherwise the id is new, open and parsed from exactly this text. On success the id pushed out is closed and a statement without an owner is added exactly if it was not to be stored; it fails only with an error this call read itself, or on a notification that reached it and nobody listens for, and then at most the named statement is orphaned. On a miss Parse, Describe and Sync are on record, and the cache is touched only if the statement is to be stored |
| `PgSession.PgConnection.ClearCachedStatements` | rbdc-pg/src/connection/mod.rs:161-182 | On success the cache is empty and exactly the cached statements are gone from the server; it fails only with an error this call read itself, or on a notification that reached it and nobody listens for, and then every id is still accounted for |
| `PgSession.PgConnection.Run` | rbdc-pg/src/connection/executor.rs:195-262 | What is unread is a legal answer to exactly Bind, Execute with this limit and Sync of a statement parsed from this text, or to Query; these frames end the record and no other frame of this call asks for items; nothing older is left, and the answer holds all items sent for this call; unless it holds an error or a suspended portal it says the command was completed; the statement is cached afterwards exactly if it was or is persistent; it fails only with an error this call read itself, or on a notification that reached it and nobody listens for |
| `PgSession.PgConnection.Next` | rbdc-pg/src/connection/executor.rs:264-332 | Each item is the very reply read last, and no row, count, error or suspended portal was passed over before it, nor before the end; the items are the rows and counts of its own call's answer, each once and in order; after any of them the connection can be used again; its end means ready; it fails only with an error of that answer that this poll read, on a notification that reached this poll and nobody listens for, or, with a limit, after the first row on a suspended portal |
| `PgSession.PgConnection.Meet` | rbdc-pg/src/connection/executor.rs:264-332 | Each message a row stream can meet: an item is the next one of the answer, an error or a suspended portal is a cause, a ReadyForQuery is the last, and any other passes without changing what is still to come |
| `PgSession.PgConnection.Poll` | rbdc-pg/src/connection/executor.rs:337-356 | Any number of polls gives that many first items of the answer, all of them if the stream ended, and fewer only if it ended or failed with a cause met by these polls; an end means no error and no suspended portal was in the answer |
| `PgSession.PgConnection.FetchOptional` | rbdc-pg/src/connection/executor.rs:358-377 | The very first row the server sent for this call, or none if it sent none; the answer is the recorded one to exactly this query, of a statement that is open and parsed from this text; it fails only with an error this call read itself, or on a notification that reached it and nobody listens for; none means the server said that the command was completed |
| `PgSession.PgConnection.PrepareWith` | rbdc-pg/src/connection/executor.rs:379-394 | The statement is cached, open and parsed from this text; it fails only with an error this call read itself, or on a notification that reached it and nobody listens for; if it was not cached, Parse, Describe and Sync of it are on record |
| `PgSession.PgConnection.Fetch` | rbdc-pg/src/connection/executor.rs:337-356 | Never polled it sends nothing and changes nothing; otherwise the query was run as asked during this call, by exactly one Execute or Query, and its stream delivered what the server sent for it, which at the end of the stream includes that the command was completed; or the call failed with a cause met during it |
| `PgSession.PgConnection.Session` | rbdc-pg/src/connection/executor.rs:337-394 | Over every run of calls with streams dropped anywhere: the counter equals what is owed, cached ids are open for their text, evicted ids are closed once, and there is one outcome per command, each from where the one before left off: a query was run as asked in its own call, by exactly one Execute or Query, and delivered the first items the server ever sent for it, as many as were taken, all if the stream ended, and then the server has said that the command was completed; a prepare left its statement cached and open, a clear closed exactly what was cached, a queued query is the last thing buffered; or the call failed with an error it read itself or on a notification that reached it |
| `MySqlFraming.HeaderRoundTrip` | rbdc-mysql/src/protocol/packet.rs:22-28 | Length and sequence id come back out of a header |
| `MySqlFraming.HeaderUnique` | rbdc-mysql/src/connection/stream.rs:136-150 | Any four bytes are the header of exactly one length and id |
| `MySqlFraming.IdsConsecutive` | rbdc-mysql/src/protocol/packet.rs:17-61 | The next sequence id is the old one plus the number of frames, modulo 256; an exact multiple of the maximum needs one more, empty frame |
| `MySqlFraming.FrameAt` | rbdc-mysql/src/protocol/packet.rs:17-61 | The i-th frame on the wire: it starts after i full ones, its length is in three bytes, low byte first, its id counts up modulo 256, and the i-th piece of 0xFFFFFF bytes follows, or what is left |
| `MySqlFraming.FramesLength` | rbdc-mysql/src/protocol/packet.rs:17-61 | Nothing else is on the wire: there are as many frames as full pieces, and one more |
| `MySqlFraming.EncodeWith` | rbdc-mysql/src/protocol/packet.rs:17-61 | The back-patching and splitting appends exactly the frames of the payload to what was in the buffer |
| `MySqlFraming.RecvPacket` | rbdc-mysql/src/connection/stream.rs:136-194 | The joining loop gives the packet at the front of any input, the bytes after it, and the next id; ERR and empty packets are told apart |
| `MySqlFraming.JoinStep` | rbdc-mysql/src/connection/stream.rs:136-178 | What one frame contributes, whatever its id; a stream that ends inside it gives nothing |
| `MySqlFraming.JoinFrames` | rbdc-mysql/src/connection/stream.rs:136-194 | Joining undoes splitting for every payload, leaves following bytes alone, and both ends agree on the next id |
| `MySqlFraming.JoinInjective` | rbdc-mysql/src/connection/stream.rs:136-194 | Input with ids counting up that joins to a payload is the framing of that payload and no other |
| `MySqlFraming.RoundTrip` | rbdc-mysql/src/protocol/packet.rs:17-61 | Write then read gives the payload back if and only if it is not empty and does not start with 0xff |
| `MySqlSession.DrainResponse` | rbdc-mysql/src/connection/stream.rs:78-115 | Skipping from the start of a well-formed response, of any number of result sets, consumes exactly it |
| `MySqlSession.DrainEnd` | rbdc-mysql/src/connection/stream.rs:84-97 | Skipping from inside the rows consumes exactly the rest of the response |
| `MySqlSession.DrainResponseAsRows` | rbdc-mysql/src/connection/stream.rs:84-97 | Skipping a whole response in the row state finds its end if and only if it is not made of OK packets only |
| `MySqlSession.DrainLegacyAsRows` | rbdc-mysql/src/connection/stream.rs:84-97 | The same without DEPRECATE_EOF: what is left unread when the EOF after the columns is taken for the end of the rows |
| `MySqlSession.DrainExplained` | rbdc-mysql/src/connection/stream.rs:78-115 | Whatever the packets: skipping reads from the front and never past an ERR, fails exactly at one, is ready only with an empty queue, and waits for ever only with nothing left to read |
| `MySqlSession.ErrsOnWire` | rbdc-mysql/src/connection/stream.rs:176-190 | A response ends in an error exactly if its last packet is an ERR, and no packet before that is |
| `MySqlSession.ItemsOnWire` | rbdc-mysql/src/connection/executor.rs:132-213 | The items of a response are those its packets make, in order, each carrying its own packet; only a column count and as many definitions as it announces make none |
| `MySqlSession.AbandonOutcome` | rbdc-mysql/src/connection/stream.rs:78-115 | For every stage: a dropped row stream leaves a usable connection if and only if `CanAbandon`, always at a row, and then exactly the unread rest is consumed and `waiting` is empty; out of step on a legacy server the outcome is that of `DrainLegacyAsRows` |
| `MySqlSession.DropAfterFinalOkHangs` | rbdc-mysql/src/connection/executor.rs:148-156 | A stream dropped right after the final OK item leaves the connection waiting for ever |
| `MySqlSession.MySqlStream.RecvPacket` | rbdc-mysql/src/connection/stream.rs:136-194 | An ERR packet takes the front entry off `waiting`; any other packet leaves it |
| `MySqlSession.MySqlStream.SkipResultMetadata` | rbdc-mysql/src/connection/stream.rs:207-225 | Reads the announced columns and, on a legacy server, the EOF |
| `MySqlSession.MySqlStream.WaitUntilReady` | rbdc-mysql/src/connection/stream.rs:78-115 | The nested loops compute the packet-by-packet meaning the drain lemmas are about, and end as `DrainExplained` says |
| `MySqlSession.MySqlConnection.Run` | rbdc-mysql/src/connection/executor.rs:92-93 | In step, after a drop at any stage that `CanAbandon`, and only then, the next query can start, with one entry in `waiting`; it reports an error exactly if one was unread in the response before. Out of step: for each kind of response whether it hangs, fails or starts with stale packets unread, and which |
| `MySqlSession.MySqlConnection.Settle` | rbdc-mysql/src/connection/stream.rs:78-115 | The outcome of waiting at every stage, in step and out of step, down to what is left unread |
| `MySqlSession.MySqlConnection.FirstPoll` | rbdc-mysql/src/connection/executor.rs:109-130 | It fails only if the server refuses to prepare a statement that is not cached, and then `waiting` is empty and the books are as before; a server that accepts every prepare while an id is free refuses none; otherwise the query and its response are on record, the stream stands at that response, the statement executed is open and prepared from this text, and cached afterwards exactly if it was or is persistent |
| `MySqlSession.MySqlConnection.PrepareWith` | rbdc-mysql/src/connection/executor.rs:263-280 | From every stage that `CanAbandon`: an error is reported exactly if one was unread; otherwise the statement is cached, open and prepared from this text, unless the server refused it; a server that accepts every prepare while an id is free refuses none; a failure leaves the books as before |
| `MySqlSession.MySqlConnection.GetOrPrepare` | rbdc-mysql/src/connection/executor.rs:27-82 | A cached statement is returned with nothing sent; otherwise it is new, open and prepared from exactly this text, unless the server refuses; a server that accepts every prepare while an id is free refuses none; the one pushed out is closed; a statement is left without an owner exactly if it was prepared without being stored |
| `MySqlSession.MySqlConnection.Prepare` | rbdc-mysql/src/connection/executor.rs:40-65 | The whole prepare answer is read, for every count of parameters and columns, with or without an entry in `waiting`; a server that accepts every prepare while an id is free refuses none |
| `MySqlSession.MySqlConnection.Keep` | rbdc-mysql/src/connection/executor.rs:66-80 | A new statement is open; if it is to be stored the one it pushes out is closed and nothing is left without an owner, and otherwise it alone is |
| `MySqlSession.FreeId` | rbdc-mysql/src/connection/executor.rs:40-65 | With fewer than 2^32 statements open there is an id to give |
| `MySqlSession.MySqlConnection.Next` | rbdc-mysql/src/connection/executor.rs:132-213 | The items are exactly those of the response, in order, and each carries the very packet that was taken off the wire last; no read blocks, no `front_mut().unwrap()` fails, `waiting` holds at most one entry |
| `MySqlSession.MySqlConnection.ReadResult` | rbdc-mysql/src/connection/executor.rs:132-174 | The first packet of a result gives its count or its error, carried by the item, or leads into the rows |
| `MySqlSession.MySqlConnection.ReadMetadata` | rbdc-mysql/src/connection/executor.rs:308-370 | Both metadata readers stop exactly before the first row |
| `MySqlSession.MySqlConnection.ReadRow` | rbdc-mysql/src/connection/executor.rs:177-212 | Inside the rows the next packet gives the next item of the response, which carries it |
| `MySqlSession.MySqlConnection.Take` | rbdc-mysql/src/connection/executor.rs:234-245 | Polling up to a row or the end gives the first items of what was left, all of them at the end |
| `MySqlSession.MySqlConnection.Session` | rbdc-mysql/src/connection/executor.rs:85-215 | Over every run of queries and prepares with streams dropped at rows or read to the end there is one outcome per command, each from where the one before left off: no call waits for ever; every stream gives the first items of the recorded response to its own query, in order and as many as asked for; a prepare leaves its statement cached and open; a call reports an earlier error exactly if one is unread, and is refused only if the server had to be asked to prepare, with the books as before; an accepting server refuses none while ids last; a stream never polled changes nothing; cached statements stay open for their text |
| `Exchange.SpellTokens` | src/util/exchange.rs:9-31 | Cutting a text into holes, escapes and plain bytes loses and reorders nothing |
| `Exchange.HoleNumber` | src/util/exchange.rs:18-27 | The placeholder of a hole is the prefix and, in decimal, the start number plus the count of holes before it |
| `Exchange.RenderNoMark` | src/util/exchange.rs:28-36 | Text without a question mark is kept, backslashes included |
| `Exchange.ImplExchange` | src/util/exchange.rs:2-39 | Batch copying renders the tokens of the text, for every prefix and text |
| `Exchange.TokensStep` | src/util/exchange.rs:9-31 | What each branch of the scan has to emit, at any position |
| `Exchange.TokensConcat` | benches/exchange.rs:14-37 | Two texts are cut separately unless an escape would straddle them, so an inserted placeholder is read by itself |
| `Exchange.StepUnread` | benches/exchange.rs:14-37 | What each turn does to the text still unread: a hole gives way to the tokens of its placeholder, an escape and a plain byte are passed |
| `Exchange.StepKeepsGoal` | benches/exchange.rs:14-37 | With no hole left or no question mark in the prefix, a turn keeps what the text has to become and uses up a hole or a token |
| `Exchange.NeverEnds` | benches/exchange.rs:21-33 | With a bare question mark in the prefix and one in the text the loop is still inside the text after any number of turns |
| `Exchange.EndsShorter` | benches/exchange.rs:17-33 | With escapes in the prefix each placeholder loses as many bytes as the prefix has escapes |
| `Exchange.EditingCorrectIff` | benches/exchange.rs:8-39 | Editing in place ends with the right text if and only if the prefix has no question mark or the text no placeholder; with a bare one in each it never ends |
| `Exchange.EscapedPrefix` | benches/exchange.rs:8-39 | An input on which it ends with another text |
| `Exchange.InsertPlaceholder` | benches/exchange.rs:22-31 | Character-by-character insertion puts prefix and number between what was before and after |
| `Exchange.ImplExchangeOld` | benches/exchange.rs:8-39 | The in-place version renders the same, and ends although the string grows, on every text and prefix for which `EditingCorrectIff` says it can |
| `Exchange.Agree` | benches/exchange.rs:8-39 | Both versions give the same string, on the same texts and prefixes |
| `SqliteStatements.Bind` | rbdc-sqlite/src/arguments.rs:50-92 | Up to the parameter where it stops each one gets the argument it asks for: an anonymous one the next in turn, the others the one they name. It stops at the first that asks beyond the last argument; it fails only at a parameter whose name is no number, panics only at number 0, and otherwise only if SQLite refuses a value; the count returned is that of the anonymous ones passed |
| `SqliteStatements.BindInTurn` | rbdc-sqlite/src/arguments.rs:50-92 | With anonymous parameters only, parameter i gets argument `before + i` or NULL, and the offset left is right for the next statement, also when arguments ran out |
| `SqliteStatements.StatementsListed` | rbdc-sqlite/src/statement/virtual.rs:142-193 | The statements of a text are the handles of all pieces the compiler cuts it into that have one, in order and without a gap |
| `SqliteStatements.VirtualStatement.constructor` | rbdc-sqlite/src/statement/virtual.rs:55-73 | Nothing is compiled and the tail holds all statements of the trimmed text |
| `SqliteStatements.VirtualStatement.Prepare` | rbdc-sqlite/src/statement/virtual.rs:142-193 | Cuts the tail piece by piece: the handle given is that of the first piece that has one and the new tail is what follows it; none is given exactly when no piece of the tail has one; a failure loses no statement |
| `SqliteStatements.VirtualStatement.PrepareNext` | rbdc-sqlite/src/statement/virtual.rs:75-118 | In every reachable state gives the statement after the last one, compiled only if it never was; handles followed by the tail remain the statements of the text; at the end the handles are those of all pieces of the text that have one |
| `SqliteStatements.VirtualStatement.Current` | rbdc-sqlite/src/statement/virtual.rs:120-128 | The statement at the index, or none before the first and after the last |
| `SqliteStatements.VirtualStatement.Reset` | rbdc-sqlite/src/statement/virtual.rs:130-139 | Back before the first statement with nothing lost; on success all bindings are cleared |
| `SqliteStatements.VirtualStatement.Replay` | rbdc-sqlite/src/statement/virtual.rs:75-118 | Walking a fresh or cached statement, retrying after failures, gives the statements of the text in order, one for each call that did not fail, and all of them when it ends; if compiling never fails it ends exactly if there were more calls than statements; what all of them are is stated by the pieces of the text |
| `SqliteStatements.Statements.Get` | rbdc-sqlite/src/connection/mod.rs:221-241 | A statement for this text standing before its first inner one; a cached one keeps every handle it had compiled |
| `SqliteStatements.ExecuteIter.Start` | rbdc-sqlite/src/connection/execute.rs:64-76 | Reset and bind leave the statement with the arguments its parameters ask for from this offset on, and the offset right for the next; it fails only if SQLite does or a parameter is not supported |
| `SqliteStatements.ExecuteIter.Next` | rbdc-sqlite/src/connection/execute.rs:54-103 | Statements run in order, each stepped once for every item it gives, and one starts after the last row of the other, bound as `bind` does; with anonymous parameters, the k-th counted over the whole query has argument k or NULL, and it fails only if SQLite does; the end means all statements of the text were reached |
| `SqliteStatements.ExecuteIter.Drop` | rbdc-sqlite/src/connection/execute.rs:106-110 | However far it got, the statement stands before its first inner one again and nothing compiled is lost |
| `PgArguments.PgArgumentBuffer.EncodeValue` | rbdc-pg/src/types/json.rs:12-34 | Exactly the bytes of a value are appended, JSON text after the version byte 1 and "null" for an empty one, with a patch registered at the version byte |
| `PgArguments.PgArgumentBuffer.Encode` | rbdc-pg/src/arguments.rs:115-135 | The back-filled length word, most significant byte first, frames exactly the bytes of the value, -1 for NULL |
| `PgArguments.PgArguments.Add` | rbdc-pg/src/arguments.rs:65-72 | The block and the patches stay those of the arguments added so far |
| `PgArguments.PgArguments.AddAll` | rbdc-pg/src/types/encode.rs:15-28 | All arguments are in the block, or the first that cannot be encoded ends it |
| `PgArguments.PatchesFit` | rbdc-pg/src/arguments.rs:76-100 | Every patch lies inside the block and names an argument, so no index fails |
| `PgArguments.ApplyBlock` | rbdc-pg/src/arguments.rs:76-100 | Applying all patches turns every frame into the one for its resolved type and leaves the rest of the buffer alone |
| `PgArguments.PgArguments.ApplyPatches` | rbdc-pg/src/arguments.rs:76-100 | The loop over the patches leaves the block of the resolved values |
| `PgArguments.BlockLaid` | rbdc-pg/src/arguments.rs:76-135 | Where each value stands in the resolved block, in byte values: its length, most significant byte first, or -1, and its bytes, JSON text after a version byte 1 or a space |
| `PgArguments.FramedDiffers` | rbdc-pg/src/types/json.rs:79-95 | Resolving a value changes its frame only if it is JSON for a JSON parameter, and then only its version byte, to a space |
| `PgArguments.OnlyVersionBytesChange` | rbdc-pg/src/types/json.rs:12-34 | Over a whole block only version bytes that a patch points at change, never a length word or a neighbour |
| `PgArguments.GetValue` | rbdc-pg/src/value.rs:72-90 | A framed value reads back as NULL or exactly its bytes, whatever follows |
| `PgArguments.GetByLength` | rbdc-pg/src/value.rs:72-90 | For every buffer the length word decides what is read: -1 is NULL, any other negative one and one beyond the end fail |
| `PgArguments.GetBlock` | rbdc-pg/src/value.rs:72-90 | A block reads back as one entry per argument |
| `PgArguments.BuildBlock` | rbdc-pg/src/arguments.rs:65-135 | For every argument list and resolved types, encode then patch leaves one frame per argument with its bytes for the resolved type, and reading gives one entry per argument |
| `PgMessages.NamesInjective` | rbdc-pg/src/io/buf_mut.rs:34-53 | Distinct statement ids have distinct names, and so have distinct portals |
| `PgMessages.NamesSpelled` | rbdc-pg/src/io/buf_mut.rs:34-53 | A name is "rbdc_s_" or "rbdc_p_" and the id in decimal; the unnamed portal has the empty name |
| `PgMessages.PutFormats` | rbdc-pg/src/message/bind.rs:37-61 | The loops over format codes append the layout the reader lemmas are about |
| `PgMessages.PutOids` | rbdc-pg/src/message/parse.rs:22-39 | The loop over type oids appends the layout the reader lemmas are about |
| `PgMessages.PutBody` | rbdc-pg/src/message/bind.rs:37-61 | The body closures append the fields in the order the reader takes them |
| `PgMessages.ParseLaid` | rbdc-pg/src/message/parse.rs:22-39 | The bytes of a Parse, field by field: 'P', a length that counts all but the tag, the name and the query with their NULs, the count and the oids, numbers most significant byte first |
| `PgMessages.BindLaid` | rbdc-pg/src/message/bind.rs:37-61 | The bytes of a Bind, field by field: 'B', the length, portal before statement, counts and format codes 0 for text and 1 for binary, the parameters, and the result formats |
| `PgMessages.Encode` | rbdc-pg/src/io/buf_mut.rs:16-30 | The reserved word is filled with the length of what followed; earlier bytes stay; only too many types make Parse panic |
| `PgMessages.ParseRead` | rbdc-pg/src/message/parse.rs:22-39 | Every field of a Parse comes back |
| `PgMessages.BindRead` | rbdc-pg/src/message/bind.rs:37-61 | Every field of a Bind comes back, each parameter as its own entry |
| `PgMessages.MessageRead` | rbdc-pg/src/io/buf_mut.rs:16-30 | One message is found by its length word and read with all fields, whatever follows it |
| `PgMessages.StreamRead` | rbdc-pg/src/io/buf_mut.rs:16-30 | Any messages written one after the other are recovered in order |
| `PgMessages.WriteAll` | rbdc-pg/src/message/bind.rs:37-61 | The buffer built by the encoders is such a stream |
| `PgTypes.TypeCache.constructor` | rbdc-pg/src/connection/describe.rs:146-182 | Empty caches are right for every acyclic catalog |
| `PgTypes.TypeCache.MaybeFetchTypeInfoByOid` | rbdc-pg/src/connection/describe.rs:146-182 | In every cache state the answer is that of resolving without a cache; it is then cached, and its name in the catalog leads to it; every entry added, also by a lookup that fails half-way, is right; without permission to query nothing is cached and an unknown type is only declared |
| `PgTypes.TypeCache.FetchTypeByOid` | rbdc-pg/src/connection/describe.rs:184-276 | Each shape of type resolves to itself over the resolutions of the types it refers to; recursion ends by catalog rank |
| `PgTypes.TypeCache.FetchFields` | rbdc-pg/src/connection/describe.rs:388-431 | The fields of a composite in order, each with its resolved type |
| `PgTypes.ResolveCustom` | rbdc-pg/src/connection/describe.rs:226-273 | Each combination of type and category resolves to its own kind over types of smaller rank |
| `PgTypes.ResolveByLetters` | rbdc-pg/src/connection/describe.rs:184-276 | What a type that is not built in resolves to, read off the catalog: its two letters decide the kind, in every combination; a missing range, enum or relation counts as empty, and a type without a row has no name and is simple |
| `PgTypes.TypeCache.FetchTypeIdByName` | rbdc-pg/src/connection/describe.rs:278-302 | A cached name gives the cached oid and changes nothing; otherwise the oid is what the catalog gives, or 0, and is cached; asking adds to the run exactly if the name was not cached |
| `PgTypes.CachedNames` | rbdc-pg/src/connection/describe.rs:278-302 | In every run a cached name leads to the oid the catalog gives or to a user-defined type of that name |
| `PgTypes.Realize` | rbdc-pg/src/connection/describe.rs:146-182 | Every possible event sequence is a run of the code, event by event, on a server that answers |
| `PgTypes.NameLookupIff` | rbdc-pg/src/connection/describe.rs:278-302 | In all runs a lookup by name answers what it would without a cache if and only if the name is unambiguous |
| `PgTypes.NameLookupDiffers` | rbdc-pg/src/connection/describe.rs:160-168 | For every ambiguous name two calls to a server that answers end with the other oid |
| `BufStream.BufStream.ReadRawInto` | src/io/buf_stream.rs:109-160 | On success, end of file, error or cancellation alike no byte is lost, invented or reordered, and the buffer holds no filler |
| `BufStream.BufStream.ReadRaw` | src/io/buf_stream.rs:74-83 | Success gives exactly the next `cnt` bytes; delivered, buffered and unread bytes are always the server's stream; end of file is reported only if the socket alone could not supply `cnt` |
| `BufStream.BufStream.ReadAll` | src/io/buf_stream.rs:74-83 | Each success of any series of reads has the length asked for, and together they are the stream in order; if nothing fails or is cancelled, a read succeeds if and only if the socket alone can supply it |
| `BufStream.BufferedBytesNotEnough` | src/io/buf_stream.rs:74-83 | In every state with enough bytes buffered and too few in the socket the read fails and delivers nothing |
| `BufStream.CutShort` | src/io/buf_stream.rs:74-83 | A run that reaches such a state: a read of too much meets the end, and a read of what is buffered then fails |
| `PgPass.FindNextField` | rbdc-pg/src/options/pgpass.rs:148-182 | Slicing with a lazily made buffer gives the field and rest of the character-by-character reading, and leaves the line if there is no unescaped colon |
| `PgPass.EscapeRoundTrip` | rbdc-pg/src/options/pgpass.rs:148-182 | Escaping any text and reading it as a field gives the text and exactly the rest back |
| `PgPass.SpellingRead` | rbdc-pg/src/options/pgpass.rs:148-182 | However a field is spelled with backslashes it is read as itself up to the colon, and without a colon there is no field |
| `PgPass.LineForms` | rbdc-pg/src/options/pgpass.rs:148-182 | Every line is of one of those forms |
| `PgPass.CommentMeans` | rbdc-pg/src/options/pgpass.rs:115-117 | A line is passed over if and only if it is white space, or white space and then "#" |
| `PgPass.MatchesNextField` | rbdc-pg/src/options/pgpass.rs:128-143 | Passes if and only if there is a next field and it is the value or "*" |
| `PgPass.PassOne` | rbdc-pg/src/options/pgpass.rs:128-143 | After some fields have matched, the next one alone decides whether the line still can |
| `PgPass.LoadPasswordFromLine` | rbdc-pg/src/options/pgpass.rs:104-125 | The rest of the line if and only if it is no comment and its first four fields are host, port, database and user, or "*" |
| `Text.TrimMeans` | rbdc-sqlite/src/statement/virtual.rs:56 | Trimming takes off white space in front and at the end, all of it, and nothing else |
| `Text.DigitsMean` | rbdc-pg/src/io/buf_mut.rs:34-53 | The digits of a number spell it in base ten, in ASCII and without leading zeros |
| `Text.DecimalStringMeans` | rbdc-pg/src/options/pgpass.rs:119 | The characters of a formatted number are those digits |
| `Text.Utf8LenAdds` | rbdc-sqlite/src/statement/virtual.rs:58-63 | Each code point adds its one to four bytes to the length that is checked |
| `MySqlDateTime.EncodeDate` | rbdc-mysql/src/types/date.rs:8-18 | Appends the length byte and the four date bytes |
| `MySqlDateTime.EncodeTime` | rbdc-mysql/src/types/time.rs:20-36 | Appends the length, sign and day bytes the DATETIME encoder later removes, then the time |
| `MySqlDateTime.Encode` | rbdc-mysql/src/types/datetime.rs:8-44 | All pushes and removals leave the earlier buffer intact and append a length byte of 4, 7 or 11 and exactly that many bytes; which byte is which field is stated in place |
| `MySqlDateTime.WireLayout` | rbdc-mysql/src/types/datetime.rs:8-44 | Which byte is which field, and which of the three lengths is used when |
| `MySqlDateTime.DecodeLayout` | rbdc-mysql/src/types/datetime.rs:46-73 | Which field the decoder takes each byte for |
| `MySqlDateTime.DecodeWire` | rbdc-mysql/src/types/datetime.rs:46-73 | Decoding gives back every field, the year modulo 2^16 and nanoseconds cut to microseconds |
| `MySqlDateTime.RoundTripIff` | rbdc-mysql/src/types/datetime.rs:8-73 | The wall-clock fields survive if and only if the year is in 0..65535 |

## Left out

- Sockets, TLS, the async runtime and worker threads: a stream is a sequence of bytes, packets or messages, an await is a step.
- Cancellation of the two sessions inside a half-read message, during a prepare or during a flush; streams are dropped between items.
- The contents of PostgreSQL rows, counts and errors beyond their identity.
- A server that breaks the protocol, unsolicited ReadyForQuery, and user SQL that deallocates prepared statements behind the driver.
- Type lookups nested in `prepare` and `apply_patches` of the session; `PgTypes` covers them by themselves, the session assumes that none is needed.
- PgSession.PgConnection.GetOrPrepare: parameter types and metadata are not modelled, so the id is tied to the SQL text only, as the cache key is.
- PgSession.PgConnection.Session: assumes no more commands than prepares remain before the 32-bit id wraps around.
- MySqlSession.MySqlConnection.PrepareWith: in step with the server only; out of step `Settle` says what is left unread, and nothing is promised to what then reads it.
- MySQL row, column and OK packet decoding: packets are abstract, with their first byte, column count, status flag and identity.
- StatementCache.Cache.constructor: capacity 0 panics in the source and is required away.
- Numeric.WrappedPosition: supposes fewer than 2^62 decimal digits.
- Numeric.Encode: follows release builds, without the debug assertion on digits.
- Exchange.ImplExchange: the placeholder counter is unbounded; overflow of `usize` is not modelled.
- Exchange.ImplExchangeOld: ASCII prefixes only; the in-place version counts characters where it needs bytes. It is a method on those inputs only for which it ends with the right text; `EditingCorrectIff` says what its loop does on the others.
- SqliteStatements.ExecuteIter.Next: the rule over the whole query is stated for anonymous parameters; a query that mixes them with `?NNN` and `$NNN` has that of `Bind` for each statement, and nothing is promised after a failed step.
- SqliteStatements.VirtualStatement.Prepare: `sqlite3_prepare_v3` is any deterministic function of the text that consumes at least one character.
- PgArguments.PgArguments.Add: type holes and array encoding are not modelled, and scalar encodings are opaque bytes.
- PgArguments.GetBlock: values under 2^31 bytes, beyond which the length word wraps.
- PgMessages.StreamRead: SQL without NUL and bodies under 2^31 bytes, beyond which the length word wraps.
- PgTypes.TypeCache.MaybeFetchTypeInfoByOid: the catalog is fixed and acyclic, and the built-in table is any partial map.
- PgPass.LoadPasswordFromLine: reading the file, its permissions and its line endings are not modelled.
- MySqlDateTime.DecodeWire: time zones are not modelled; the wall-clock fields are.
- `DataRow` decoding, authentication, option and URL parsing, TIMESTAMP, stand-alone TIME and DATE codecs, HSTORE, mssql and the pool are not modelled.
