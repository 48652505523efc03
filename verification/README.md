# Verified models of zlib's compressor and of ssh2-python's small state machines

This project models, in Dafny 4.11, the parts of the repository whose correctness rests on
invariants: the DEFLATE compressor of zlib 1.3.1 (`deflate.c`), its checksums (`adler32.c`,
`crc32.c`), the one-call driver `compress2`, the code-object cache of `ssh2/agent.c`, and the
git-describe parser and printer of `ssh2/_version.py`. `dafny verify dfyconfig.toml` checks the whole
project within Dafny's default limits.

## What is proved

**Lossless streaming compression.** `Sessions.Session` runs any sequence of `deflate()` calls on a
fresh stream: any slicing of input and output, any flushes, every level, strategy, window size,
memory level, wrapper and gzip header. At every moment the bytes delivered are the beginning of a
stream of the input read so far; once `deflate` has returned Z_STREAM_END they are exactly the header,
blocks that decode to the input with only the last one marked final, and the trailer with the check
value of the input. `Sessions.FinishStream` adds that it comes to that: calls with Z_FINISH and any
room at all reach Z_STREAM_END. The return codes are exact: Z_BUF_ERROR is returned precisely when
`Deflating.Refused` says so, and Z_OK means that the output space is used up or the input read. A flush
that returns with room to spare has put all input into blocks, and `Sessions.FlushDelivers` says what of
them has been delivered: after Z_SYNC_FLUSH and Z_FULL_FLUSH everything, after Z_PARTIAL_FLUSH everything
but bits of the empty block at the end, after Z_BLOCK everything but the bits beyond the last byte
boundary. Repeated calls come to that (`Sessions.FlushStream`) if each has room for more than the whole
bytes of the marker, and never (`Sessions.StarvedFlush`) if none has. After a full flush the blocks that
follow decode without the ones before it (`DecodesTo` in `Blocks.dfy`). Blocks are judged by a small LZ77
decoder (`Lz77`, `Blocks`) after sections 3.2.3 to 3.2.5 of RFC 1951, which also refuses lengths outside
3..258 and distances beyond MAX_DIST.

The proof follows the program: the rolling hash (`RollingHash`), the chains in a wrap-around `prev[]`
(`HashChains`: each entry is exactly the latest string of its hash), the sliding window and its refills
(`Window`), `longest_match` (`Matching`: exactly the best match in sight, in the terms of `Longest`; what is
made of its result is independent of bytes beyond the input), the four matchers and the stored path (`Slow`,
`Fast`, `RunLength`, `StoredBlocks`), block flushing (`Flushing`), the pending buffer and bit buffer
(`OutputSide`), the header state machine (`Headers`) and the driver (`Deflating`). The window is related to
a ghost stream `S`: window index `i` stands for `S[base + i]`, `inserted` is the set of stream positions in
the hash chains, and `written` is the set of window indices that memcpy or memset has given a value; only
`CopyIn`, `CopyDown` and `Zero` in `Memory.dfy` enlarge it, and every read of a match scan goes through
`Fetch`, which asks for an index in it.

**The parse.** What the matchers compute is proved too, not only that it decodes. `Longest` says what a search
is to find, from the input, the strings entered and the numbers of `configuration_table`, and that there is one
answer. `Parses` has the moves of deflate_slow, deflate_fast, deflate_rle and deflate_huff as rules on that, each
shown to determine the next move; the contracts of the four functions say that the moves of a call follow the
rules, fit on to one another, and that every symbol they tallied is in the blocks sent or in sym_buf.

**Formats.** `BitReaders` and `FormatReaders` read back what was written, from the format descriptions alone: bits
and bytes, stored and empty blocks, the zlib and gzip headers with every field of a gz_header, and the trailers.

**Checksums.** `Checks` holds the byte-at-a-time and bit-at-a-time definitions. `Adler32` proves the
deferred reductions, `Gf2` the ring GF(2)[x]/p(x), `Frobenius` that x^(2^32) = x (which the 32-entry
power table needs for lengths from 2^29 on), `Words` and `Braids` the algebra of braided registers,
`Crc32` the generated tables, `BraidedCrc` the portable `crc32_z`, and `CrcCombine` the combination
operators. The window's `strm->adler` is tied to these definitions by `CheckOk` in `State.dfy`.

**Protocols.** `Once` is the exactly-once initialiser, `Accessors` the reader/writer word of the cache,
both as state machines over all interleavings; `CodeCache` is the sorted array against a map.

## Where the code falls short of a simple law, and exactly when

- `adler32_z` is promised for check values. For other 32-bit starting values it still returns the
  per-byte result from two bytes on; `Adler32.Adler32Z` gives the exact condition for zero and one byte,
  and `Adler32.UnreducedStart` an input for each.
- The one-word reader/writer protocol keeps readers and a writer apart if and only if at most 2^31 + 1
  threads use it (`Accessors.ExclusiveExactly`, with the failing run in `Accessors.BeyondLimit`).
- The variant of `once` without atomics can run its initialiser twice (`Once.NotThreadSafe`), as its
  comment warns: it is safe if and only if there is one thread at most (`Once.AtMostOnceExactly`), and from a
  reachable state on if and only if the initialiser has been started once and no thread stands between
  reading the flag down and writing it (`Once.SafeExactly`); the remedy of the comment follows
  (`Once.SafeAfterFirstReturn`).
- Cutting nice_match to the lookahead is meant to make deflate deterministic (deflate.c:1386-1389). It makes
  the length `longest_match` returns independent of the bytes beyond the input (`Matching.InputDecides`); the
  position is, if and only if prev_length is below the lookahead or already the longest possible
  (`Matching.PositionExactly`, with an input for the other case in `Matching.PositionMayDiffer`). In that other
  case the waiting match is adopted whatever was found, so what `deflate_slow` decides depends on the input alone
  all the same (`Slow.DecisionIsDeterministic`).
- After Z_BLOCK the delivered bytes hold all blocks if and only if the blocks end on a byte boundary
  (`Sessions.FlushDelivers`, with a block that does not in `Sessions.BlockHoldsBack`).
- zlib.h:317-322 asks for an avail_out greater than six at the marker of a sync or full flush. A marker
  completes the flush at once if and only if avail_out exceeds five, or six with six or seven bits left over
  (`Deflating.EndFlush`); with five bytes or fewer in every call the flush is never complete, with six it always
  comes to an end.
- Printing and parsing git-describe text undo each other except for newlines, leading zeros and digits
  that are not ASCII (`GitDescribe.RoundTrip` with `GitDescribe.NewlineInTag`,
  `GitDescribe.RenderAfterParse` with `GitDescribe.LeadingZeros`).

## Model

| member | source | states |
|---|---|---|
| `Lz77.RepeatIsCopy` | zlib-1.3.1/deflate.c:1557-1567 | bytes that repeat the stream at a distance are exactly what a match symbol of that length and distance reproduces, overlap included |
| `Lz77.DecodeAppend` | zlib-1.3.1/deflate.h:351-369 | decoding tallied symbols in pieces is decoding them together |
| `RollingHash.MaskIsSizeMinusOne` | zlib-1.3.1/deflate.c:446 | hash_mask is 2^hash_bits less one |
| `RollingHash.ShiftIsCeilThird` | zlib-1.3.1/deflate.c:447 | hash_shift is hash_bits over three, rounded up |
| `RollingHash.TwoUpdatesPrime` | zlib-1.3.1/deflate.c:134-141 | after two updates the key depends only on those two bytes, whatever it held before |
| `RollingHash.Roll` | zlib-1.3.1/deflate.c:134-141 | updating a running key gives the true hash of the last three bytes |
| `RollingHash.ThirdByteForced` | zlib-1.3.1/deflate.c:1446-1453 | equal hashes and two equal leading bytes force the third byte, for hash_bits from 8 on |
| `RollingHash.HashFormula` | zlib-1.3.1/deflate.c:134-141 | the hash of three bytes: each hash_shift bits left of the next, joined by exclusive-or, under hash_mask |
| `HashChains.InsertKeeps` | zlib-1.3.1/deflate.c:144-163 | an insertion keeps every entry the latest string of its hash, although its slot in prev[] may belong to an older string |
| `HashChains.SlideKeeps` | zlib-1.3.1/deflate.c:182-209 | sliding every entry by w_size keeps that of the moved window |
| `HashChains.GrowKeeps` | zlib-1.3.1/deflate.c:299-325 | more input leaves the chains intact |
| `HashChains.LastTwoNotInserted` | zlib-1.3.1/deflate.c:2022 | the last two positions are never in the chains, so they may be left to insert later |
| `HashChains.NearIsLive` | zlib-1.3.1/deflate.c:1484-1485 | a string less than w_size behind the insertions still owns its slot in prev[] |
| `HashChains.ClearedIsEmpty` | zlib-1.3.1/deflate.c:166-175 | clearing head[] is enough: prev[] may hold anything |
| `HashChains.VisitsSound` | zlib-1.3.1/deflate.c:1392-1395 | every string visited on a chain is live and has the hash of its start, and the chain strictly decreases |
| `HashChains.VisitsComplete` | zlib-1.3.1/deflate.c:1484-1485 | a walk misses nothing: an inserted string of that hash above the limit is visited, or the walk was cut off at the chain length with only later strings seen |
| `DeflateStates.DeflateState.constructor` | zlib-1.3.1/deflate.c:379-524 | the state of a new stream: sizes from windowBits and memLevel, empty window, cleared hash heads |
| `DeflateStates.DeflateState.FreshIsOk` | zlib-1.3.1/deflate.c:673-692 | a new state meets every invariant of the engine |
| `DeflateStates.DeflateState.InsertString` | zlib-1.3.1/deflate.c:144-163 | the string at str becomes the head of its true hash, linked to the previous head, which is returned; nothing else changes and the chains stay sound |
| `DeflateStates.DeflateState.SlideHash` | zlib-1.3.1/deflate.c:187-209 | every entry of head[] and prev[] moves down by w_size or becomes NIL |
| `DeflateStates.PackMatch` | zlib-1.3.1/deflate.h:360-369 | distance and length of a legal match survive the trip through the three bytes of sym_buf |
| `DeflateStates.DeflateState.TallyLit` | zlib-1.3.1/deflate.h:353-359 | tallying the next byte of the stream carries the decoder one byte further; the buffer never passes sym_end |
| `DeflateStates.DeflateState.TallyDist` | zlib-1.3.1/deflate.h:360-369 | tallying a repeat carries the decoder to the end of the repeat |
| `DeflateStates.MatchCarries` | zlib-1.3.1/deflate.h:360-369 | blocks and symbols that decode to a prefix, with a match of a repeat, decode to the longer prefix |
| `Window.ReadBuf` | zlib-1.3.1/deflate.c:218-239 | the bytes taken are the next of the input and the check value is that of all input read |
| `Window.Slide` | zlib-1.3.1/deflate.c:273-287 | the live upper-half bytes move down, every position with them, and match_start wraps modulo 2^32 |
| `Window.InsertLeftovers` | zlib-1.3.1/deflate.c:305-325 | the key is restarted, and exactly the leftover strings that are now whole are inserted |
| `Window.ZeroTail` | zlib-1.3.1/deflate.c:332-364 | every byte a match may scan is among those written or zeroed; bytes that join them here are zero and less than 258 beyond the input |
| `Window.ZeroBeyond` | zlib-1.3.1/deflate.c:344-360 | exactly the bytes zeroed join the initialised ones, and the live bytes stay |
| `Window.FillWindow` | zlib-1.3.1/deflate.c:251-368 | the live window is the latest input, chains and key are kept, exactly the leftover strings that are now whole are entered, strstart leaves MIN_LOOKAHEAD of room, input is conserved, the loop ends |
| `Matching.CommonUnique` | zlib-1.3.1/deflate.c:1455-1469 | the common length of two window strings is determined by where they first differ |
| `Matching.ScanMatch` | zlib-1.3.1/deflate.c:1446-1469 | the unrolled comparison finds the common length, though it skips three bytes; it stays in the window and reads only initialised bytes |
| `Matching.ThreeBytesSame` | zlib-1.3.1/deflate.c:1446-1453 | two strings of one hash that agree on two bytes agree on three |
| `Matching.TryCandidate` | zlib-1.3.1/deflate.c:1441-1469 | the quick rejections lose no candidate that would be better, and read only initialised bytes |
| `Matching.PlainSearchStep` | zlib-1.3.1/deflate.c:1392-1486 | the plain search unfolds one candidate at a time |
| `Matching.WalkChain` | zlib-1.3.1/deflate.c:1348-1486 | the chain walk returns length and position of the plain search over the chain's candidates, reading only initialised bytes |
| `Matching.LongestMatch` | zlib-1.3.1/deflate.c:1348-1489 | the best match in sight: exactly its length and start, or that nothing in sight beats prev_length; a repeat within MAX_DIST |
| `Matching.SearchIsBest` | zlib-1.3.1/deflate.c:1348-1489 | the plain search from the head of the chain finds the best match in sight, in terms of the input, the strings entered and configuration_table |
| `Matching.BestMeans` | zlib-1.3.1/deflate.c:1471-1486 | which candidate the plain search returns: the longest, the first of its length, or the first that is nice enough |
| `Longest.AnswerIsUnique` | zlib-1.3.1/deflate.c:1339-1347 | there is one best match, or none: the result of longest_match is determined |
| `Longest.BetterOrNone` | zlib-1.3.1/deflate.c:1948-1962 | deflate_slow either has one match to consider or none |
| `Longest.TuningTable` | zlib-1.3.1/deflate.c:108-127 | the columns of configuration_table, and how its rows are ordered |
| `Matching.NothingLonger` | zlib-1.3.1/deflate.c:1339-1347 | a nearer string than MAX_DIST that agrees further is passed over only if the result reaches nice_length or max_chain strings of its hash lie between (a quarter from good_length on) |
| `Matching.InputDecides` | zlib-1.3.1/deflate.c:1386-1389 | bytes beyond the lookahead decide neither the length of the plain search nor, if prev_length is below the lookahead, its position |
| `Matching.SearchIsDeterministic` | zlib-1.3.1/deflate.c:1386-1389 | the same of the search at strstart, and the position also when no match can be longer |
| `Matching.PositionExactly` | zlib-1.3.1/deflate.c:1386-1389 | bytes beyond the input never decide the position, if and only if prev_length is below the lookahead or at MAX_MATCH |
| `Matching.PositionMayDiffer` | zlib-1.3.1/deflate.c:1386-1389 | an input on which the position depends on a byte beyond it |
| `Stepping.InsertCurrent` | zlib-1.3.1/deflate.c:1929-1936 | after the insertion the tables and the key are ready for the next string; the head returned is the latest earlier string of that hash, and on a live chain if within MAX_DIST |
| `Slow.DistanceSurvivesSlide` | zlib-1.3.1/deflate.c:277-287 | a distance computed in 32-bit arithmetic is unchanged by a slide, even when the match start has wrapped |
| `Slow.FillSlow` | zlib-1.3.1/deflate.c:1916-1927 | a refill keeps the deferred match although its start may wrap to (IPos)-1 |
| `Slow.FindMatch` | zlib-1.3.1/deflate.c:1948-1962 | the result of the plain search over the chain, unless it is one of the poor matches the source discards |
| `Slow.DecisionIsDeterministic` | zlib-1.3.1/deflate.c:1948-1990 | whatever lies beyond the input, the waiting match is adopted in the same cases, and otherwise the new match has the same length and start |
| `Slow.Search` | zlib-1.3.1/deflate.c:1929-1966 | below max_lazy the match found is the best one in sight unless it is discarded; otherwise there is none to consider; the earlier match is remembered, and the string is entered if it is whole |
| `Slow.Consider` | zlib-1.3.1/deflate.c:1942-1962 | a search is made unless the match at hand is max_lazy long or nothing is in sight |
| `Slow.InsertMatched` | zlib-1.3.1/deflate.c:1976-1987 | exactly the strings of the match that lie whole in the input are inserted |
| `Slow.EmitPrevious` | zlib-1.3.1/deflate.c:1967-1993 | the deferred match is tallied with the right distance and every whole string in it is inserted |
| `Slow.Step` | zlib-1.3.1/deflate.c:1929-2014 | one lazy move: a waiting match is tallied whole unless a strictly longer one is found at the next byte, the waiting byte is a literal, every whole string is entered, and a block is sent when it has lit_bufsize - 1 symbols |
| `Slow.NothingDeferred` | zlib-1.3.1/deflate.c:2016-2022 | with nothing ahead no match can be waiting |
| `Slow.DeflateSlow` | zlib-1.3.1/deflate.c:1910-2030 | over every call: the lazy parse of the input, move by move, accounted for in the blocks sent and in sym_buf; both decode to the stream up to strstart, less one deferred byte; the return value says what is left |
| `Parses.LazyMoveIsUnique` | zlib-1.3.1/deflate.c:1929-2014 | what deflate_slow does next is determined by what is in sight and where it stands |
| `Parses.AccountMoved` | zlib-1.3.1/deflate.c:1589-1604 | every symbol of every move is in the blocks sent, in order, or still in sym_buf |
| `Fast.InsertShortMatch` | zlib-1.3.1/deflate.c:1860-1871 | every string of a short match is inserted and the key stays true |
| `Fast.SkipLongMatch` | zlib-1.3.1/deflate.c:1872-1884 | a long match is skipped and the key restarted without harm to the chains |
| `Fast.EmitMatch` | zlib-1.3.1/deflate.c:1848-1884 | the symbol tallied is the match found, and strstart moves to its end |
| `Fast.Look` | zlib-1.3.1/deflate.c:1837-1847 | the best match in sight is found, or there is none |
| `Fast.Step` | zlib-1.3.1/deflate.c:1829-1893 | one greedy move: the best match, or a literal if there is none; the strings of a short match are entered, of a long one only the first; a block is sent when it has lit_bufsize - 1 symbols |
| `Fast.DeflateFast` | zlib-1.3.1/deflate.c:1811-1902 | over every call: the greedy parse of the input, move by move, accounted for in blocks and sym_buf, which decode to the stream up to strstart |
| `Parses.GreedyMoveIsUnique` | zlib-1.3.1/deflate.c:1829-1893 | what deflate_fast does next is determined by what is in sight |
| `RunLength.CountRun` | zlib-1.3.1/deflate.c:2056-2075 | the run length found is the true one, cut at 258, or 0 if below three, from initialised bytes of the window |
| `RunLength.FindRun` | zlib-1.3.1/deflate.c:2056-2075 | the whole run of the byte before strstart within the lookahead, up to 258, or that there is no run of three |
| `RunLength.StepRle` | zlib-1.3.1/deflate.c:2047-2096 | one move: the whole run as one match of distance one, or a literal if there is no run of three |
| `RunLength.StepHuff` | zlib-1.3.1/deflate.c:2113-2132 | one move: the byte as a literal |
| `RunLength.DeflateRle` | zlib-1.3.1/deflate.c:2038-2103 | over every call: the parse of the input into runs, move by move, accounted for in blocks and sym_buf, which decode to the stream up to strstart |
| `RunLength.DeflateHuff` | zlib-1.3.1/deflate.c:2109-2139 | over every call: the input as literals, accounted for in blocks and sym_buf, which decode to the stream up to strstart |
| `Parses.RunMoveIsUnique` | zlib-1.3.1/deflate.c:2047-2096 | what deflate_rle does next is determined by the input |
| `Flushing.RawIsDecoded` | zlib-1.3.1/deflate.c:1589-1598 | the raw bytes handed to _tr_flush_block are what the block's symbols decode to |
| `Flushing.SendBlock` | zlib-1.3.1/trees.c:995-1087 | whichever form is sent, the block decodes to the stream up to strstart |
| `Flushing.TrFlushBlock` | zlib-1.3.1/trees.c:995-1087 | one block more, last as asked, and the blocks decode to the stream up to strstart |
| `Flushing.FlushBlockOnly` | zlib-1.3.1/deflate.c:1589-1604 | the symbol buffer is emptied into a block, which is never too long to be stored, and what fits is delivered |
| `Flushing.FlushTail` | zlib-1.3.1/deflate.c:2023-2029 | the end of a call: after Z_FINISH the last block has been sent and the blocks decode to all input |
| `Flushing.BlockAdvances` | zlib-1.3.1/deflate.c:1589-1598 | a block with a symbol in it is not empty, so each block sent moves block_start |
| `StoredBlocks.PiecesAreBlock` | zlib-1.3.1/deflate.c:1667-1708 | the patched header, the window bytes and the input bytes are together the bits of one stored block |
| `StoredBlocks.SendHeader` | zlib-1.3.1/deflate.c:1667-1680 | LEN and NLEN patched into the dummy block are those of the data that follows |
| `StoredBlocks.CopyDirect` | zlib-1.3.1/deflate.c:1638-1709 | direct copying conserves the stream and ends; all its blocks but the last have 65535 bytes, and without a flush the last has min(4 lit_bufsize - 5, w_size) at least; it stops short only for lack of room or of data |
| `StoredBlocks.KeepHistory` | zlib-1.3.1/deflate.c:1711-1743 | the window takes in what went past it and again holds the latest input, and insert counts its strings up to w_size |
| `StoredBlocks.FillStored` | zlib-1.3.1/deflate.c:1756-1777 | after filling the window either all input has been read or w_size bytes wait to be sent; nothing is lost |
| `StoredBlocks.SendPending` | zlib-1.3.1/deflate.c:1779-1798 | one block of as much as the pending buffer holds, if and only if that is w_size bytes, all it can hold, or all that is left and has to go; last exactly at the end under Z_FINISH |
| `StoredBlocks.DeflateStored` | zlib-1.3.1/deflate.c:1627-1802 | stored payloads, unsent window bytes and unread input are the whole input; a call stops early only with the output full or, without a flush, the input read |
| `OutputSide.Output.SendBits` | zlib-1.3.1/trees.c:252-290 | bits join the stream in order, whole bytes moving to the pending buffer |
| `OutputSide.Output.Windup` | zlib-1.3.1/trees.c:181-193 | padding to a byte boundary empties the bit buffer |
| `OutputSide.Output.FlushPending` | zlib-1.3.1/deflate.c:915-933 | the pending buffer is a FIFO: the stream is the same, only more of it is delivered |
| `OutputSide.Output.StoredBlock` | zlib-1.3.1/trees.c:858-873 | the bits of a stored block: type, padding, LEN, its complement, the data, in (bi_valid + 42) / 8 bytes and the data |
| `Blocks.FrontAndData` | zlib-1.3.1/trees.c:858-873 | a stored block is its front for that length followed by the data |
| `Blocks.EncodeSnoc` | zlib-1.3.1/trees.c:995-1087 | sending one more block appends its bits at the position reached |
| `Blocks.DecodeConcat` | zlib-1.3.1/zlib.h:313-316 | blocks that decode without the ones before them decode to the same bytes after them |
| `Blocks.RestartAtEnd` | zlib-1.3.1/deflate.c:1208-1218 | once everything has been sent, decoding may start afresh at the end |
| `Bits.ByteCarriesBits` | zlib-1.3.1/trees.c:166-176 | eight buffered bits and the byte they make are the same bits |
| `BitReaders.NumberOfBytes` | zlib-1.3.1/trees.c:252-270 | bits go into bytes least significant first: bytes sent as bits carry the number their bytes do, least significant byte first |
| `BitReaders.StoredReadsBack` | zlib-1.3.1/trees.c:858-880 | a reader of section 3.2.4 of RFC 1951 finds the stored block again, whatever comes before and after it |
| `BitReaders.AlignReadsBack` | zlib-1.3.1/trees.c:886-893 | and the empty block of a partial flush: not last, fixed codes, end of block |
| `Headers.ZlibHeaderWellFormed` | zlib-1.3.1/deflate.c:996-1013 | the zlib header as a number: method 8, the window size, no dictionary, and a multiple of 31 |
| `FormatReaders.ZlibHeaderReads` | zlib-1.3.1/deflate.c:996-1013 | the two bytes of the zlib header, read by RFC 1950: CM, CINFO, FDICT, FLEVEL by level and strategy, FCHECK |
| `FormatReaders.GzipHeaderReads` | zlib-1.3.1/deflate.c:1055-1172 | a reader written from RFC 1952 recovers from the header everything deflateSetHeader was given, XFL by level and strategy, and accepts its CRC |
| `FormatReaders.PlainGzipReads` | zlib-1.3.1/deflate.c:1033-1053 | without a gz_header it finds ten bytes, all fields zero but XFL and OS |
| `Headers.HcrcUpdate` | zlib-1.3.1/deflate.c:935-943 | afterwards the header CRC covers every header byte put so far, each once |
| `Headers.PutExtra` | zlib-1.3.1/deflate.c:1082-1106 | the extra field comes out whole and in order however small the output pieces are |
| `Headers.PutString` | zlib-1.3.1/deflate.c:1109-1128 | a zero-terminated string comes out whole, resuming where the last call stopped |
| `Headers.ProgressIsPrefix` | zlib-1.3.1/deflate.c:1031-1173 | in every header state the bytes put are a prefix of the one-shot header |
| `Headers.WriteHeader` | zlib-1.3.1/deflate.c:993-1173 | compression starts with an empty pending buffer after exactly the one-shot header |
| `Deflating.ClosedIsAligned` | zlib-1.3.1/trees.c:1079-1084 | the last block ends on a byte boundary |
| `Deflating.AppendNeutral` | zlib-1.3.1/deflate.c:1203-1207 | the marker of a flush decodes to nothing and disturbs no engine |
| `Deflating.ForgetHistory` | zlib-1.3.1/deflate.c:1211-1218 | after a full flush nothing is in the chains, the window starts again, and decoding may start afresh here |
| `Deflating.WriteTrailer` | zlib-1.3.1/deflate.c:1231-1253 | the trailer is queued once and holds the check value of the whole input |
| `FormatReaders.TrailerReads` | zlib-1.3.1/deflate.c:1231-1247 | the trailer read back: Adler-32 of the input, most significant byte first; or its CRC-32 and its length modulo 2^32, least significant byte first |
| `FormatReaders.KnownCheckValues` | zlib-1.3.1/adler32.c:61-125 | known check values of the two definitions |
| `Deflating.EndStream` | zlib-1.3.1/deflate.c:1228-1254 | further Z_FINISH calls queue nothing new; Z_STREAM_END means everything was delivered |
| `Deflating.Admit` | zlib-1.3.1/deflate.c:957-989 | Z_STREAM_ERROR and Z_BUF_ERROR exactly under their conditions; pending output goes out first; last_flush is the flush asked for, or -1 when the room ran out |
| `Deflating.Compress` | zlib-1.3.1/deflate.c:1177-1190 | which compression function runs, by level and strategy, told by the moves it makes |
| `Deflating.EndFlush` | zlib-1.3.1/deflate.c:1202-1224 | the marker puts 5 bytes in the queue for a sync or full flush, 1 for a partial one, and one more if six bits were left over; what does not fit stays pending, and with room to spare the flush is complete |
| `Deflating.RunEngine` | zlib-1.3.1/deflate.c:1177-1190 | the compression function stops early only for lack of room or, without a flush, of input; as long as block_start has not moved it has put nothing out |
| `Deflating.Deflate` | zlib-1.3.1/deflate.c:946-1255 | every call keeps the driver's invariant and conserves input; Z_STREAM_ERROR and Z_BUF_ERROR exactly when due; Z_OK means the output is full or the input read, and a flush with room to spare is complete; under Z_FINISH, and in a flush with room for more than the whole bytes of its marker, less is left to do; a completed stream stays as delivered |
| `Sessions.DuplicateFlush` | zlib-1.3.1/deflate.c:961-986 | a call without new input after one that left room returns Z_BUF_ERROR and puts nothing out if and only if its flush does not exceed the last, in the order Z_NO_FLUSH, Z_BLOCK, Z_PARTIAL_FLUSH, Z_SYNC_FLUSH, Z_FULL_FLUSH |
| `Sessions.InitParameters` | zlib-1.3.1/deflate.c:408-431 | which levels, window sizes and memory levels are accepted, and what level, window size, memory level and wrapper result |
| `Sessions.CompleteIsStream` | zlib-1.3.1/deflate.c:1228-1254 | at Z_STREAM_END the bytes delivered are header, blocks of the whole input, trailer |
| `FormatReaders.StreamIsFramed` | zlib-1.3.1/deflate.c:1228-1254 | a stream begins with its header and ends with its trailer, byte for byte |
| `FormatReaders.GzipStreamReads` | zlib-1.3.1/deflate.c:1231-1254 | what a gzip reader finds in a whole stream: the fields of the header, the CRC-32 and the length of the input |
| `FormatReaders.ZlibStreamReads` | zlib-1.3.1/deflate.c:1231-1254 | what a zlib reader finds: method, window size, level, and the Adler-32 of the input |
| `Sessions.InvIsBeginning` | zlib-1.3.1/deflate.c:946-1255 | at any moment the bytes delivered begin such a stream |
| `Sessions.Session` | zlib-1.3.1/deflate.c:946-1255 | both, over every run of calls with any slicing and any flushes, and what each return code told the application |
| `Sessions.Serve` | zlib-1.3.1/zlib.h:251-258 | what the return code of one call tells the application about room and input |
| `Sessions.FinishCall` | zlib-1.3.1/zlib.h:326-332 | a call with Z_FINISH and some room completes the stream or leaves less to do |
| `Sessions.FinishStream` | zlib-1.3.1/zlib.h:326-332 | calls with Z_FINISH come to an end, with a whole stream of everything supplied |
| `Sessions.FlushDelivers` | zlib-1.3.1/zlib.h:286-316 | after a completed flush the blocks decode to all input and are delivered but for their bits beyond the last byte boundary: none after a sync or full flush, and only bits of the empty block after a partial flush |
| `Sessions.PartialDelivers` | zlib-1.3.1/zlib.h:294-300 | behind the ten bits of the empty block every data block has been delivered whole |
| `Sessions.BlockHoldsBack` | zlib-1.3.1/zlib.h:302-309 | a block of which Z_BLOCK holds two bits back |
| `Sessions.FlushCall` | zlib-1.3.1/zlib.h:317-322 | a repeated flush call returns Z_OK: complete with room to spare, or with its room filled and, if that was enough, less left to do |
| `Sessions.FlushStream` | zlib-1.3.1/zlib.h:317-322 | repeated flush calls with room for more than the whole bytes of the marker come to an end with the flush complete |
| `Sessions.StarvedFlush` | zlib-1.3.1/zlib.h:317-322 | repeated flush calls with less room each fill it and never complete |
| `Sessions.RestartsAfterFullFlush` | zlib-1.3.1/zlib.h:313-316 | at every moment the blocks after the last full flush decode without the ones before it |
| `Compressing.Compress2` | zlib-1.3.1/compress.c:22-59 | never writes more than destLen, terminates, Z_OK means dest is a zlib stream of exactly source, and Z_BUF_ERROR that all of destLen was used for the beginning of one |
| `Checks.UpdateAppend` | zlib-1.3.1/deflate.c:227-234 | the check value of the input does not depend on how it was sliced |
| `Adler32.NmaxIsLargest` | zlib-1.3.1/adler32.c:11-12 | NMAX is the largest block whose sums fit in 32 bits, both directions |
| `Adler32.Adler32Z` | zlib-1.3.1/adler32.c:61-125 | the per-byte Adler-32 for every reduced start and every length, no sum overflowing 32 bits; the exact condition for other starts |
| `Adler32.UnreducedStart` | zlib-1.3.1/adler32.c:66-93 | starting values that are no check values, with zero and with one byte, for which the code returns something else |
| `Adler32.Sum` | zlib-1.3.1/adler32.c:14-18 | unreduced 32-bit sums of up to NMAX bytes stand for the per-byte value |
| `Adler32.StartShift` | zlib-1.3.1/adler32.c:133-155 | how the starting value enters the two sums |
| `Adler32.Combine` | zlib-1.3.1/adler32.c:133-155 | the check values of two parts give that of their concatenation; a negative length gives 0xffffffff |
| `Adler32.Mod28NoDivide` | zlib-1.3.1/adler32.c:31-35 | the true remainder below 2^28 |
| `Adler32.ModNoDivide` | zlib-1.3.1/adler32.c:36-40 | the true remainder below 2^32 |
| `Adler32.Mod63NoDivide` | zlib-1.3.1/adler32.c:41-53 | the true remainder below 2^63 |
| `Gf2.ProductCommutes` | zlib-1.3.1/crc32.c:151-173 | multiplication modulo p is commutative |
| `Gf2.ProductAssociates` | zlib-1.3.1/crc32.c:151-173 | multiplication modulo p is associative |
| `Gf2.ProductDistributes` | zlib-1.3.1/crc32.c:151-173 | multiplication modulo p distributes over exclusive-or |
| `Gf2.ProductPower` | zlib-1.3.1/crc32.c:151-173 | multiplying by x^n is n shift-register steps |
| `Frobenius.SquareAdds` | zlib-1.3.1/crc32.c:325-329 | squaring is additive |
| `Frobenius.TableSquares` | zlib-1.3.1/crc32.h:9439-9446 | each entry of the shipped table is the square of the one before, and the last squares to the first |
| `Frobenius.TablePower` | zlib-1.3.1/crc32.c:175-187 | x^(2^k) is entry k modulo 32 of the table, for every k |
| `Crc32.MultModP` | zlib-1.3.1/crc32.c:151-173 | the loop with early exit is the product modulo p, for nonzero a |
| `Crc32.CrcTables.X2nModP` | zlib-1.3.1/crc32.c:175-187 | the result is x^(n 2^k) modulo p for every n and k, although the table wraps at 32 |
| `Crc32.BraidEntry` | zlib-1.3.1/crc32.c:528-540 | a braid table entry is the byte moved past the bytes that follow it |
| `Crc32.CrcTables.MakeRow` | zlib-1.3.1/crc32.c:528-540 | one row of both braid tables, the big-endian one mirrored |
| `Crc32.CrcTables.MakeCrcTable` | zlib-1.3.1/crc32.c:310-333 | all tables hold what the calculations need, for any N and W |
| `Words.ByTable` | zlib-1.3.1/crc32.c:991-1006 | eight shift-register steps are one table lookup |
| `Words.RegisterInWord` | zlib-1.3.1/crc32.c:676-681 | a register added into a word acts as the register before the word's bytes |
| `Words.SwapReverses` | zlib-1.3.1/crc32.c:113-131 | byte_swap reverses the bytes of a word |
| `Words.SwapTwice` | zlib-1.3.1/crc32.c:113-131 | byte_swap undoes itself |
| `Braids.RegisterSplits` | zlib-1.3.1/crc32.c:32-43 | the CRC register is linear: start and data contribute independently |
| `Braids.SpreadSteps` | zlib-1.3.1/crc32.c:775-835 | one block moves the sum of the N braids past its data |
| `Braids.CombinedIs` | zlib-1.3.1/crc32.c:837-857 | combining the braids word by word adds them up |
| `BraidedCrc.CrcWord` | zlib-1.3.1/crc32.c:676-681 | the register of the word's bytes |
| `BraidedCrc.CrcWordBig` | zlib-1.3.1/crc32.c:683-689 | the same with the bytes of word and register swapped |
| `BraidedCrc.BraidWord` | zlib-1.3.1/crc32.c:780-834 | one word of a little-endian braid: its register after the other N - 1 words of the block |
| `BraidedCrc.BraidWordBig` | zlib-1.3.1/crc32.c:902-956 | the same with the bytes swapped |
| `BraidedCrc.BraidedLittle` | zlib-1.3.1/crc32.c:731-858 | whole blocks through N little-endian braids give the bit-by-bit register |
| `BraidedCrc.BraidedBig` | zlib-1.3.1/crc32.c:859-981 | whole blocks through N big-endian braids give the bit-by-bit register |
| `BraidedCrc.Crc32Z` | zlib-1.3.1/crc32.c:694-1010 | the bit-by-bit CRC for every buffer, alignment, N, W and byte order; 0 for a null buffer |
| `CrcCombine.Homomorphism` | zlib-1.3.1/crc32.c:1021-1049 | with the operator of the second length, the CRCs of two parts combine to that of their concatenation |
| `CrcCombine.CombineGen` | zlib-1.3.1/crc32.c:1034-1039 | the operator is x^(8 len), and never zero |
| `CrcCombine.CombineOp` | zlib-1.3.1/crc32.c:1047-1049 | applying an operator is the combination by it |
| `CrcCombine.Combine` | zlib-1.3.1/crc32.c:1021-1026 | the CRC of the concatenation, equal to generating and applying the operator |
| `Once.StepKeepsInv` | zlib-1.3.1/crc32.c:235-246 | every step of every thread keeps the invariant: one owner at most, and one while init is unfinished |
| `Once.InitAtMostOnce` | zlib-1.3.1/crc32.c:235-246 | init starts at most once and never beside itself, in every interleaving of any number of threads |
| `Once.NoEarlyReturn` | zlib-1.3.1/crc32.c:235-246 | no call returns before init has completed |
| `Once.ReachableCallsReturn` | zlib-1.3.1/crc32.c:235-246 | from every reachable state every call can still return |
| `Once.NotThreadSafe` | zlib-1.3.1/crc32.c:257-280 | without atomics two threads can both run init: an interleaving that does |
| `Once.AtMostOnceExactly` | zlib-1.3.1/crc32.c:257-280 | without atomics init runs at most once in every interleaving if and only if there is one thread at most |
| `Once.SafeExactly` | zlib-1.3.1/crc32.c:257-280 | from a reachable state on, no second start if and only if the first has been made and no thread stands between its read and its write of the flag |
| `Once.SafeAfterFirstReturn` | zlib-1.3.1/crc32.c:206-212 | the remedy: without atomics, one call that returns before other threads start makes every later run safe |
| `CodeCache.Bisect` | ssh2/agent.c:10106-10126 | the lower bound, although the last comparison uses mid and not start |
| `CodeCache.CodeObjectCache.Find` | ssh2/agent.c:10127-10140 | what the map holds for the line |
| `CodeCache.CodeObjectCache.Insert` | ssh2/agent.c:10161-10204 | the map with the line added or replaced, unchanged for line 0 or exactly when memory was lacking; one reference held per entry |
| `CodeCache.FindAround` | ssh2/agent.c:10127-10204 | after an insertion its line gives the new object, unless the line is 0 or memory was lacking where it was needed; every other line gives what it gave before |
| `CodeCache.WithMap` | ssh2/agent.c:10177-10203 | replacing an entry or opening a gap at the lower bound keeps the order and updates the map at one line |
| `CodeCache.Replay` | ssh2/agent.c:10127-10204 | every run from the empty cache answers as a map, apart from insertions dropped for lack of memory |
| `Accessors.StepKeepsInv` | ssh2/agent.c:10141-10160 | the word is the number of accessors, less 2^31 while there is a writer, in 32-bit arithmetic |
| `Accessors.ReleaseRestores` | ssh2/agent.c:10205-10223 | the writer's release leaves the number of refused readers still to leave |
| `Accessors.BeyondLimit` | ssh2/agent.c:10141-10160 | with more than 2^31 + 1 threads a reader can enter beside the writer |
| `Accessors.ExclusiveExactly` | ssh2/agent.c:10141-10223 | no interleaving puts a reader or a second writer beside a writer, if and only if there are at most 2^31 + 1 threads |
| `GitDescribe.DecimalDigits` | ssh2/_version.py:595 | printing a distance and reading it back gives the distance |
| `GitDescribe.ScanExactly` | ssh2/_version.py:349-352 | the regular expression has at most one match and the scan from the right finds exactly it, for any table of Unicode digits |
| `GitDescribe.RoundTrip` | ssh2/_version.py:336-371 | parsing printed text after its prefix recovers tag, distance, id and dirty flag, exactly when there is no newline |
| `GitDescribe.NewlineInTag` | ssh2/_version.py:349-352 | a tag with a newline does not come back |
| `GitDescribe.RoundTripWithoutTag` | ssh2/_version.py:373-378 | without a tag the dirty flag comes back and the rest is asked of git |
| `GitDescribe.ParseExactly` | ssh2/_version.py:336-378 | what comes of every text: the groups of its match if the tag has the prefix, and which error if not |
| `GitDescribe.RenderAfterParse` | ssh2/_version.py:584-601 | printing parsed text gives it back, except exactly for leading zeros, digits that are not ASCII and a newline before the end |
| `GitDescribe.LeadingZeros` | ssh2/_version.py:368-369 | a distance with leading zeros is printed without them |

## Left out

- Deflating.Deflate: how much room completes a flush or a stream in one call is not stated, since it depends on the code lengths.
- Flushing.SendBlock: which form `_tr_flush_block` picks is left open, and Huffman coding is a parameter (`Coder`, a function of symbols and last flag); tree building, frequencies and the code bits of trees.c are not modelled.
- OutputSide.Output.PutByte: the size of pending_buf and its overlay with sym_buf are only accounted for in the header and stored paths, since the bound elsewhere depends on the code lengths.
- Sessions.Session: allocation failure, deflateSetDictionary, deflateParams, deflateTune, deflatePrime, deflateCopy, deflatePending and deflateReset between calls are not part of the runs.
- Window.ReadBuf: calls the definitions in `Checks` directly rather than `Adler32Z` and `Crc32Z`, whose contracts equate them.
- Matching.WalkChain: match_start is kept in a local variable until the walk ends.
- HashChains.Slot: `p & w_mask` is written as a conditional subtraction, equal for window indices (`SlotIsRemainder`).
- BraidedCrc.BraidWord: the registers of the N braids, separate variables selected by the preprocessor, are a sequence; within a block the braids are independent, so they are updated one after the other.
- Crc32.CrcTables.MakeRow: the shipped 256-entry tables of crc32.h are not compared entry by entry; the power table is.
- CodeCache.CodeObjectCache.Insert: count and max_count are unbounded, so the overflow of a 32-bit max_count is not modelled.
- Accessors.Step: memory ordering weaker than sequential consistency is not modelled.
- GitDescribe.Standard: the table of Unicode decimal digits is a parameter, of which only the ASCII part and the values 0 to 9 are known.
- The ARM instruction path of crc32_z, the writer of crc32.h, the FASTEST, LIT_MEM, UNALIGNED_OK and 16-bit builds of deflate, and null-pointer argument checks.
- inflate and inffixed.h; deflateBound and compressBound as size guarantees; the gz* file layer.
- The rest of ssh2/agent.c and ssh2/_version.py, versioneer.py, setup and CI scripts, docs and examples: glue and subprocess calls.
