# Sven Co-op server tracker — a Dafny model of its core

The tracker polls every Sven Co-op game server on the Steam master list and records
how many players each one has. It writes the counts to binary stat files, and a web
page reads those files back to draw graphs and rank servers. This project models
the parts of that system that decide what bytes mean, and proves properties of them:

- **StatFile** (`statfile.dfy`): the web page's stat-file reader `parseStatFile`.
  It covers:
  - the 8-byte header (version 1, magic `SVTK`);
  - the control byte, which holds a 6-bit player count plus two flags selecting an
    8-bit delta, a 16-bit delta, a 32-bit absolute time, or "unreachable";
  - the replay of records into a level;
  - the back-fill of one sample per 60 s (or per hour for averaged data) up to `now`;
  - the final pop and the check on the sample count.

  The module also has a reference writer (`EncodeStatFile`), which is the reader's
  inverse.
- **Ranking** (`ranking.dfy`): `rankCompare`, the comparator that sorts server IDs by
  the descending rank each one has in the server table.
- **A2s** (`a2s.cpp`, modelled in `a2s.dfy`): the A2S_PLAYER reply parser
  `parsePlayers`, plus the 48-bit key built from an IPv4 address and port
  (`netaddr_to_uint64` and its inverse).
- **Scheduler** (`scheduler.dfy`): the per-server query job of `a2s_query_all`.
  It covers:
  - the states not-started → wait-challenge → got-challenge → wait-players → done;
  - the shortcut of servers that answer the challenge request with the player list;
  - timeouts, bad replies and the retry limit;
  - the send pass, which visits every job and stops after 100 packets;
  - the receive pass, which routes each datagram to the job with its address key.
- **Server** (`server.dfy`): the address part of `parseServerJson`:
  - the `ip:port` split, the four dotted bytes and the port range;
  - the address member read as a C string, up to its first NUL;
  - the 63-byte truncation of the UTF-8 name and map;
  - the `getAddrString`/`getIdString` renderings, and the round trip from a
    rendering back to the address.
- **History** (`history.dfy`):
  - the header check of `loadServerHistory`;
  - the one-off converter `convertStats`, covering the 50-second spacing, the width
    flags, and the bytes it writes.
- **Util** (`util.dfy`): `splitString`, `replaceString` and `winPath`.
- **Bytes**, **Decimal** and **Wrappers** are support modules:
  - Bytes: little-endian integer layouts over `byte = 0..255`;
  - Decimal: C `atoi` and `std::to_string` on naturals;
  - Wrappers: `Option`/`Result`.

The methods named `…Loop`, `SplitString`, `ReplaceString` and `WinPath` follow the
source loops statement by statement. Each is proved equal to a recursive reference
function, and the lemmas state properties of those references.

Time, datagrams and JSON values are parameters. Integer widths are explicit:
- `uint8_t` casts use `Low8`;
- the 64-bit millisecond subtraction in the timeout test is taken modulo 2^64;
- the 32-bit subtraction `utc - lastUtcTime` is taken modulo 2^32.

## Model

| member | source | states |
|---|---|---|
| Ranking.RankCompare | docs/hltracker.js:87-93 | The result is -1, 0 or 1: -1 exactly when the first rank is larger, 1 exactly when the second is larger, and 0 exactly when they are equal. |
| Ranking.CompareServers | docs/hltracker.js:83-94 | Comparing two server IDs fails exactly when one is missing from the table; otherwise it is -1, 1 or 0 as the first server's rank is larger, smaller or equal. |
| Ranking.SortedServersDescending | docs/hltracker.js:83-94 | A list of server IDs is in the comparator's order exactly when the ranks looked up for them never increase. |
| Ranking.CompareAntisymmetric | docs/hltracker.js:83-94 | Swapping the arguments negates the result. |
| Ranking.CompareTransitive | docs/hltracker.js:83-94 | "Sorts no later than" is transitive, so the comparator is a valid sort order. |
| Ranking.SortedDescending | docs/hltracker.js:83-94 | A list in which no later server sorts before an earlier one is exactly a list whose ranks never increase. |
| StatFile.CheckHeader | docs/hltracker.js:190-208 | The header is accepted exactly when the first 8 bytes are version 1 followed by `SVTK`. A file shorter than 8 bytes is reported as truncated. |
| StatFile.DecodeControl | docs/hltracker.js:224-244 | Every byte decodes to a valid control. It is unreachable exactly when the byte is 0xC0 or above, a reachable count is the low six bits, and the width is 32-bit exactly for bytes 0x80-0xBF and 0xE0-0xFF. ControlRoundTrip and ControlCanonical relate it to the encoding. |
| StatFile.ControlRoundTrip | docs/hltracker.js:227-244 | Decoding the control byte inverts encoding for every count below 64, every width, and the unreachable flag. |
| StatFile.ControlCanonical | docs/hltracker.js:227-244 | Every byte decodes to a valid control. Re-encoding gives the byte back exactly when the byte is below 0xC0 or is one of the unreachable markers 0xC0, 0xD0 and 0xE0. Any other byte with both flags set has stray low bits or a doubled width flag. |
| StatFile.DecodeRecord | docs/hltracker.js:224-260 | A record decodes exactly when the bytes its flags announce are present, and it then advances by that size. The count is below 64, and an unreachable record has count 0. A delta record's time is not earlier than the previous time. Any other outcome is `Truncated`. |
| StatFile.DecodeRecords | docs/hltracker.js:223-260 | Every decoded record is valid. The only failure is truncation. |
| StatFile.StatFileRoundTrip | docs/hltracker.js:190-260 | Any stream of storable records, once written with the reference writer, passes the header check and decodes back to the same records. |
| StatFile.DecodeEncoded | docs/hltracker.js:223-260 | Encoded records decode back from any byte offset and starting time. |
| StatFile.Fill | docs/hltracker.js:262-274 | Filling keeps the existing samples and appends only `v`. It stops at the first sample time after `t`, and every appended sample time is at most `t`. |
| StatFile.PushUntil | docs/hltracker.js:262-274 | The back-fill loop computes `Fill` and leaves `nextRankTime` at the start plus the sample count times the interval, which is past `t`. |
| StatFile.Backfill | docs/hltracker.js:262-283 | The samples pushed while reading the records reach past the last record's time. BackfillSamples characterises each sample. |
| StatFile.BackfillSamples | docs/hltracker.js:262-283 | After the back-fill, sample k is the level in force just before the first record at or after sample time k. Every record lies before the next sample time. |
| StatFile.Resample | docs/hltracker.js:287-302 | The kept series is empty or exactly window/interval samples long. ResampleSamples, ResampleFullWindow and ResampleDiscardsFuture characterise its samples and when the count check passes. |
| StatFile.FilledLength | docs/hltracker.js:262-298 | The final catch-up keeps the back-filled samples, appends the reference sample for each later time, and stops at the first sample time after `now`. |
| StatFile.ResampleSamples | docs/hltracker.js:287-302 | The returned graph is empty or has exactly window/interval samples, and sample k is the value that the records strictly before time `now - window + k*interval` leave (-3 while no record precedes it and a later one exists). |
| StatFile.ResampleFullWindow | docs/hltracker.js:287-302 | If no record lies after `now`, a window of m intervals always yields exactly m samples. |
| StatFile.ResampleDiscardsFuture | docs/hltracker.js:262-302 | A record at least one interval after `now` overfills the sample list, so the count check rejects the graph. |
| StatFile.UnreachableLevel | docs/hltracker.js:276-283 | Right after an unreachable record, the level is -2 when that record repeats the previous record's time (a collector restart) and -1 otherwise. |
| StatFile.LastTimeAfter | docs/hltracker.js:276-283 | The replay's last time is the last record's time (0 before any record), and the replay has started exactly when there is a record. |
| StatFile.ResampleRange | docs/hltracker.js:262-302 | Every sample of a decoded file lies between -3 and 63. |
| StatFile.BackfillExample | docs/hltracker.js:262-302 | Counts 5 at time 0 and 10 at time 120, read over a 180 s window ending at 180, give the samples [-3, 5, 5]. |
| StatFile.ParseStatFile | docs/hltracker.js:187-308 | A bad header is an error, and a file under 8 bytes is `Truncated`. Success implies the header was right and that the graph is empty or exactly window/interval samples long. |
| StatFile.ParseWrittenStream | docs/hltracker.js:187-302 | Reading a written stream gives exactly the resampled graph of the records that were written. |
| StatFile.ParseAfterHeader | docs/hltracker.js:208-302 | After a good header, a truncated record body makes the parse `Truncated`. Otherwise the parse returns the resampled graph of the decoded records. |
| StatFile.ReplayRecords | docs/hltracker.js:223-285 | The record loop fails exactly as the decoder does. Otherwise it yields the back-filled samples and the final replay state. |
| StatFile.FinishSamples | docs/hltracker.js:287-302 | The final back-fill, the pop and the count check produce the resampled graph. |
| StatFile.ParseStatFileLoop | docs/hltracker.js:187-302 | The loop-by-loop reader computes exactly `ParseStatFile`, with the sample-count guarantee. |
| A2s.ReadPlayer | src/a2s.cpp:60-77 | One player entry consumes its index byte, a NUL-free name, the NUL, 4 score bytes and 4 duration bytes, and it never reads past the buffer. |
| A2s.ReadPlayerName | src/a2s.cpp:63-68 | The name read is the bytes between the index byte and the first NUL. |
| A2s.ReadPlayerStep | src/a2s.cpp:60-77 | The byte loop for one player computes `ReadPlayer`. |
| A2s.ReadPlayers | src/a2s.cpp:55-78 | Reading n players yields n well-formed players, and the end offset stays inside the buffer. |
| A2s.ParsePlayers | src/a2s.cpp:55-79 | A successful parse returns as many players as the count byte at offset 5 says. A reply shorter than 6 bytes is rejected. |
| A2s.ParsePlayersLoop | src/a2s.cpp:55-79 | The source loop computes exactly `ParsePlayers`. |
| A2s.NoMorePlayers | src/a2s.cpp:60-77 | Once one entry is unreadable, no larger player count can be read. |
| A2s.ReadEncodedPlayer | src/a2s.cpp:60-77 | A well-formed player laid out as the reply format gives is read back exactly, ending right after its duration bytes. |
| A2s.PlayersRoundTrip | src/a2s.cpp:55-79 | Parsing a reply built from any list of fewer than 256 well-formed players gives the same list. |
| A2s.NetKey | src/a2s.cpp:81-83 | The key of an IPv4 address and port is below 2^48, and its low 32 bits are the address. |
| A2s.NetAddr | src/a2s.cpp:85-91 | Decoding a key yields a 32-bit address and a 16-bit port. |
| A2s.NetAddrRoundTrip | src/a2s.cpp:81-91 | Decoding the key of an address and port gives them back. |
| A2s.NetKeyInjective | src/a2s.cpp:81-83 | Distinct address and port pairs have distinct keys. |
| A2s.NetKeyOfNetAddr | src/a2s.cpp:81-91 | Re-encoding a decoded key gives the key back exactly when the key is below 2^48. |
| Scheduler.NewJob | src/a2s.cpp:38-46 | A new job is valid, not started and not successful. |
| Scheduler.Fail | src/a2s.cpp:227-248 | A timeout adds one attempt and keeps everything else. It moves to Done on the third attempt and to the retry state otherwise. |
| Scheduler.PlayersRequest | src/a2s.cpp:216-219 | The players request is the 5-byte A2S_PLAYER prefix followed by the 4 challenge bytes. |
| Scheduler.SendStep | src/a2s.cpp:207-254 | A job sends a packet exactly in the states that call for one. A not-started job sends the challenge request, and a job with a challenge sends the players request; both then wait. A waiting job that has timed out counts a failed attempt and falls back to the state that resends its request, without sending. A finished job and a waiting job that has not timed out stay unchanged. The key, players and success flag are never touched. |
| Scheduler.RecvStep | src/a2s.cpp:282-336 | A reply only affects a waiting job. A challenge reply of 9 bytes or more moves to GotChallenge with the 4 challenge bytes and a fresh attempt count. A player list (byte 4 is `0x44`) ends the job successfully with the parsed players, in the players phase and also in the challenge phase. Any other reply counts a failed attempt and falls back to resending the request. The job succeeds exactly when a waiting job ends Done without another attempt. |
| Scheduler.Measure | src/a2s.cpp:27-28 | The progress measure is 0 exactly when the job is Done, and it is at most 16, given the 3-attempt limit. |
| Scheduler.SendStepProgress | src/a2s.cpp:207-254 | Sending keeps a job valid. It either leaves the job unchanged or lowers the measure, and every send lowers it. |
| Scheduler.RecvStepProgress | src/a2s.cpp:282-336 | Receiving keeps a job valid and either leaves it unchanged or lowers the measure. |
| Scheduler.DoneIsFinal | src/a2s.cpp:249-250 | A finished job neither sends nor changes on a reply. |
| Scheduler.ChallengeEcho | src/a2s.cpp:216-219 | After a challenge reply, the next send is the players request carrying the 4 challenge bytes from that reply. |
| Scheduler.GivesUp | src/a2s.cpp:227-248 | A job polled at timed-out instants, as many times as its measure, ends Done with its success flag unchanged. |
| Scheduler.TicksDone | src/a2s.cpp:249-250 | Later passes leave a finished job as it is. |
| Scheduler.ChallengeRetries | src/a2s.cpp:208-237 | A job in the challenge phase whose server never answers ends Done exactly when its requests and timeouts so far, plus the passes that follow, reach six; it never succeeds. |
| Scheduler.NewJobGivesUp | src/a2s.cpp:208-237 | A new job whose server never answers is Done after six timed-out passes and not after five: three challenge requests, each timing out. It never succeeds. |
| Scheduler.Running | src/a2s.cpp:199-203 | The running count is 0 exactly when every visited job is Done. |
| Scheduler.SendPass | src/a2s.cpp:196-258 | The pass stops at the first point where 100 packets have been sent, or at the end. The jobs up to that point are stepped, their packets sent in order, and the unfinished ones counted. |
| Scheduler.SendPassLoop | src/a2s.cpp:196-258 | The source loop computes exactly `SendPass`. |
| Scheduler.VisitJob | src/a2s.cpp:199-254 | Visiting one job extends the stepped jobs, the packets and the running count by that job's step. |
| Scheduler.SendPassBounded | src/a2s.cpp:256-257 | A pass sends at most 100 packets. |
| Scheduler.SendPassExit | src/a2s.cpp:346-347 | The scheduler exits (running count 0) exactly when every job is Done. |
| Scheduler.SendPassProgress | src/a2s.cpp:196-258 | A send pass keeps all jobs valid and never raises the total measure. A pass that sends anything strictly lowers it. |
| Scheduler.TimedOutStep | src/a2s.cpp:207-248 | A job that is not done, and has timed out if it is waiting, moves strictly closer to done in its send step. |
| Scheduler.SendPassTimedOut | src/a2s.cpp:196-258 | A send pass at an instant when every waiting job has timed out strictly lowers the total measure unless every job is Done, so passes that far apart end the polling loop. |
| Scheduler.JobIndex | src/a2s.cpp:270-276 | The lookup finds a job with the datagram's key, or reports that no job has it. |
| Scheduler.Deliver | src/a2s.cpp:270-336 | A datagram changes only the job with its key, as `RecvStep` describes. |
| Scheduler.Clip | src/a2s.cpp:262-266 | A datagram is held as at most its first 4096 bytes: the whole of a shorter one, exactly 4096 bytes of a longer one. |
| Scheduler.Received | src/a2s.cpp:261-268 | The loop handles the queued datagrams in order, each cut to the buffer, up to but not including the first empty one (where `recvfrom` returns 0 and the loop breaks), or all of them if none is empty. |
| Scheduler.RecvPass | src/a2s.cpp:261-341 | A receive pass keeps the job list, its order and its keys. |
| Scheduler.RecvPassStopsAtEmpty | src/a2s.cpp:266-268 | An empty datagram ends the pass: neither it nor anything queued after it changes a job. |
| Scheduler.RecvPassEmpty | src/a2s.cpp:266-268 | A job whose only datagram is empty is left unchanged, even while it waits for a reply. |
| Scheduler.RecvPassClips | src/a2s.cpp:262-280 | A datagram longer than 4096 bytes reaches its job as its first 4096 bytes. |
| Scheduler.RecvPassUnknown | src/a2s.cpp:270-276 | Datagrams from unknown addresses change nothing. |
| Scheduler.RecvPassProgress | src/a2s.cpp:261-341 | A receive pass keeps all jobs valid and never raises the total measure. |
| Server.ParseAddress | src/main.cpp:127-154 | The port is missing exactly when there is no colon. Parsing succeeds exactly when the text before the first colon splits into four byte-valued decimal parts and the port is 1..65535. The results are those parts and that port. |
| Server.ParseAddressLoop | src/main.cpp:127-154 | The source's statements compute exactly `ParseAddress`. |
| Server.ReadIpBytes | src/main.cpp:141-148 | The byte loop succeeds exactly when all four parts are in 0..255, and it then yields their values. |
| Server.IpBytes | src/main.cpp:141-148 | The four bytes are the `atoi` values of the four parts. |
| Server.CLength | src/main.cpp:117-120 | The C length is the position of the first NUL, or the whole length. |
| Server.CText | src/main.cpp:125 | The C string of a text is its longest NUL-free prefix: it stops at the first NUL or at the end. |
| Server.CTextStopsAtNul | src/main.cpp:125 | Whatever follows a NUL does not change the C string. |
| Server.Truncate | src/main.cpp:117-120 | The stored name is a NUL-free prefix of at most 63 bytes of the UTF-8 name. It is cut only at 63 bytes or at a NUL byte. |
| Server.TruncateUnique | src/main.cpp:117-120 | Those four facts determine the stored bytes: any prefix meeting them is `Truncate`'s result. |
| Server.ParseServerJson | src/main.cpp:108-157 | Missing values are reported exactly when a member is absent. Otherwise the address is read up to its first NUL, and parsing succeeds exactly when that text parses, failing with the address's own error otherwise. On success, name and map are exactly `Truncate` of the JSON bytes, the counts are kept modulo 256, the endpoint is the parsed address, and the unreachable flag and last stat time are zero. |
| Server.AddrStopsAtNul | src/main.cpp:125-131 | Appending a NUL and any text to the address member does not change the result. |
| Server.LeadingNulAddress | src/main.cpp:125-131 | An address member that starts with a NUL is an empty C string and is rejected for its missing port. |
| Server.AddrString | src/main.cpp:51-54 | The address string is the dotted IP, a `:` and the port digits, and its first `:` is right after the dotted IP. |
| Server.IdString | src/main.cpp:57-60 | The ID string is the dotted IP, a `_` and the port digits, and its first `_` is right after the dotted IP. |
| Server.AddrIdDiffer | src/main.cpp:51-60 | The address string and the ID string have the same length. They differ only at the separator, which is `:` in one and `_` in the other. |
| Server.SeparatorUnique | src/main.cpp:51-60 | The separator occurs once in each rendering, right after the dotted IP. |
| Server.AddrStringParts | src/main.cpp:51-54 | The first colon of the address string splits it into the dotted IP and the decimal port. |
| Server.IpTextRoundTrip | src/main.cpp:135-148 | Splitting a rendered dotted IP on `.` and reading its bytes gives the IP back. |
| Server.AddressRoundTrip | src/main.cpp:127-154 | Parsing the address string of any IP and port 1..65535 gives that IP and port back. |
| History.LoadServerHistory | src/main.cpp:160-195 | A missing file is fine and an unopenable one fails. A short read fails. The header is accepted exactly when the file is opened and starts with the 8-byte header. |
| History.LoadAgreesWithReader | src/main.cpp:175-192 | The loader and the web reader accept the same headers, and they reject bad ones with corresponding reasons. |
| History.Delta | src/main.cpp:238-246 | The `uint32_t` difference is the plain difference going forward and wraps modulo 2^32 going backward. |
| History.OrBit | src/main.cpp:241-249 | OR-ing a flag sets that bit, keeps the other bits, and does nothing if the bit is already set. |
| History.Convert | src/main.cpp:234-258 | Each written entry comes from a distinct, increasing sample index and keeps that sample's time and its count cast to `uint8_t`. |
| History.ConvertSpacing | src/main.cpp:234-258 | Every written entry is at least 50 s (modulo 2^32) after the previous written one. Its width matches that delta. |
| History.ConvertDropped | src/main.cpp:238-239 | Every skipped sample lies less than 50 s (modulo 2^32) after the last entry written before it. |
| History.WriteRecord | src/main.cpp:241-255 | The branches write the time bytes the width selects, then the flagged count byte. |
| History.Serialize | src/main.cpp:241-255 | The records are laid out one after another; the bytes are empty exactly when there are no records, and end with the last record's control byte. ReadConvertedRoundTrip reads them back. |
| History.ConvertStats | src/main.cpp:225-258 | The output starts with the 8-byte header, and is only the header exactly when no sample is kept. ConvertStatsLoop, ConvertSpacing and ReadConvertedRoundTrip characterise the rest. |
| History.ConvertStatsLoop | src/main.cpp:225-258 | The converter loop writes exactly the header followed by the converted entries' records. |
| History.ConvertedHeaderPasses | src/main.cpp:225-229 | The converter's output passes both the loader's header check and the web reader's. |
| History.ControlAgreesWithFormat | src/main.cpp:241-255 | For counts below 64, the converter's control byte is the reader's encoding of that count and width, and it decodes back. |
| History.WidthAgreesWithFormat | src/main.cpp:241-253 | Going forward, the converter picks the same width as the reference writer. |
| History.BackwardsIsAbsolute | src/main.cpp:238-244 | A backward step, unless it is almost 2^32, wraps to a delta above 65535 and is written as a 32-bit absolute time. |
| History.TimeBytesValue | src/main.cpp:244-251 | The time bytes hold the low 8, 16 or 32 bits of the absolute time, not the delta. |
| History.ReadConvertedRoundTrip | src/main.cpp:234-258 | The converter's layout can be read back from the end. For counts below 64, this gives each entry's count, width and low time bits. |
| History.ConverterLayoutDiffers | src/main.cpp:241-255 | For one sample (count 5 at time 100), the converter writes time-then-count, while the web reader expects count-then-time and reports `Truncated`. |
| Util.SplitString | src/util.cpp:23-39 | The result equals the reference split. It has one more piece than there are delimiters, no piece contains a delimiter, and rejoining the pieces with the delimiters gives back the input. |
| Util.SplitCount | src/util.cpp:23-39 | The number of pieces is the number of delimiter characters plus one. |
| Util.SplitClean | src/util.cpp:23-39 | No piece contains a delimiter. |
| Util.SplitRejoin | src/util.cpp:23-39 | Interleaving the pieces with the delimiters found restores the original string. |
| Util.SplitFirst | src/util.cpp:27-33 | Splitting at the first delimiter gives the text before it, followed by the split of the rest. |
| Util.FindFirstOf | src/util.cpp:27 | The search returns the first delimiter at or after the start, or reports that none exists. |
| Util.ReplaceString | src/util.cpp:41-49 | For a non-empty search string, the loop computes the reference left-to-right, non-overlapping replacement. A subject without the search string is returned unchanged. |
| Util.Find | src/util.cpp:43 | The search returns the first occurrence at or after the position, or reports that none exists. |
| Util.ReplaceFirst | src/util.cpp:43-46 | Replacing everything is the text before the first occurrence, then the replacement, then the replacement applied to the text after the occurrence. |
| Util.ReplaceAbsent | src/util.cpp:41-49 | Without an occurrence, the subject is unchanged. |
| Util.ReplaceSelf | src/util.cpp:41-49 | Replacing a string by itself changes nothing. |
| Util.WinPath | src/util.cpp:119-126 | The length is kept, each `/` becomes `\`, every other character is kept, and no `/` remains; the result is the reference conversion `WinPathOf`. |
| Util.WinPathIdempotent | src/util.cpp:119-126 | Converting twice is the same as converting once. |
| Bytes.U32Injective | docs/hltracker.js:190-192 | The four bytes of a little-endian 32-bit read are determined by its value. |
| Bytes.I32RoundTrip | src/a2s.cpp:70-71 | Loading the 4 written bytes of a signed 32-bit value as `int32_t` gives it back. |
| Decimal.Atoi | src/main.cpp:133 | Text that starts with something other than a space, a sign or a digit reads as 0. |
| Decimal.NatToString | src/main.cpp:51-54 | `to_string` of a natural is a non-empty run of digits without a leading zero. |
| Decimal.NatToStringValue | src/main.cpp:51-54 | The digits denote the number. |
| Decimal.AtoiNatToString | src/main.cpp:133 | `atoi` reads back a rendered natural followed by any non-digit. |
| Decimal.NatToStringNoSeparators | src/main.cpp:51-60 | A rendered natural contains no `.`, `:` or `_`. |

## Left out

- Sockets, `sendto`/`recvfrom`, `getEpochMillis`, `sleep`, files, HTTP and JSON
  parsing are not modelled. The clock value, received datagrams, file contents and
  JSON members are parameters (JSON members as `Option`s).
- `ipstring_to_uint64` and `netaddr_to_ipstring` are not modelled: they call
  `inet_addr`, `htons` and `inet_ntop`.
- The player `duration` is a C `float`; it is kept as its 4 raw bytes. The
  `index` byte of each entry is read and discarded, as in the source.
- A2s.ReadPlayer: the source reads the score through an `int32_t*` cast; the
  model reads it as little-endian two's complement, which is what that load does on
  the x86 targets the program builds for.
- A2s.ParsePlayers: the source can index past the end of a short or lying reply. The
  challenge-phase `0x44` shortcut accepts 5-byte replies, whose count byte is past
  the end; the players phase accepts 6-byte replies; and score and duration are read
  unchecked. The
  model returns `None` instead of modelling undefined behaviour, and
  `Scheduler.PlayersOf` then stores an empty player list.
- Scheduler.SendPass: jobs live in an `unordered_map`, whose iteration order is
  unspecified; the model visits them in the order of a sequence the caller supplies.
- Scheduler.RecvPass: keys are assumed unique (`Keyed`), as keys of the map are. The
  queued datagrams are a finite list given by the caller; the end of that list stands
  for `recvfrom` reporting that nothing is queued, and a socket error is not modelled
  separately. An oversized datagram is cut to 4096 bytes, as POSIX `recvfrom` does on
  a datagram socket; where `recvfrom` instead fails on it (Windows reports
  `WSAEMSGSIZE`), the loop would end there.
- The request and response counters and all `printf` output are left out; they do
  not affect any state.
- Decimal.Atoi: C `atoi` has undefined behaviour on overflow; the model reads
  unbounded integers.
- Server.ParseServerJson: the JSON `GetInt` values are taken as integers and stored
  modulo 256, as the `uint8_t` fields do. The JSON strings are given as their UTF-8
  bytes (name and map) or as text (the address); the JSON decoding is not modelled.
- History.LoadServerHistory: the source falls off the end of a `bool` function
  after a good header. That is undefined behaviour, and the model reports
  `HeaderOk`. The `strcmp` on the unterminated 4-byte magic is modelled as
  comparing those 4 bytes.
- History.ReadConvertedRoundTrip: requires every count to be below 64. A count of
  64 or more spills into the flag bits of the control byte and cannot be read back.
- History.ConvertStats: the converter writes each record time-first, with the
  absolute time's low bytes. The web reader expects the control byte first and
  deltas, so the two do not round-trip; `History.ConverterLayoutDiffers` exhibits
  this on one sample. `History.ReadConvertedRoundTrip` proves what the converter's
  own layout does preserve. The `larges` counter is left out.
- `writeServerStat` is an empty stub in the source, and the code that fetches the
  master list, writes live and averaged files and computes ranks is not part of
  this model.
- The web page's UI, `sventracker.js` and `sven_tracker.py` are not part of this
  model.
- StatFile.EncodeStatFile, StatFile.EncodeRecords and A2s.PlayersReply are
  reference writers with no counterpart in the source; they exist to state round
  trips of the readers.
- StatFile.ParseStatFile: the count check `length != window / interval` is
  written as `length * interval != window`. For positive integers the two agree,
  because a non-integral quotient never equals a length.
- Ranking.CompareServers: the server table maps each ID straight to a whole-number
  rank. A table entry without a `rank` field, or with a fractional one, is not
  modelled.
- Util.ReplaceString: requires a non-empty search string. With an empty one the
  source loop never ends: each pass inserts the replacement at `pos`, and `pos`
  never passes the end of the growing subject.
- StatFile.BackfillExample: a reading of the back-fill in which each sample takes
  the count recorded at its own time would give `[5, 5, 10]` here. The code as
  written yields `[-3, 5, 5]`: the sample at the window start comes before any
  record, a record at exactly a sample time only shows from the next sample on, and
  the last sample is popped. The model follows the code.
