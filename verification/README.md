# RadioHijack: a verified model

RadioHijack captures TCP packets, pairs HTTP requests with the heads of their responses, and hands
the pairs to its client. It uses the libtins packet library, whose header templates hold algorithms
of their own. This project models both and proves what they keep, what they compute and, where they
do not do what they are for, exactly when they do.

Code that changes state is a class or a method with loops, proved against a specification function;
the properties are then lemmas about that function.

| file | models |
|---|---|
| `RequestMatcher.dfy` | `_handlePDU:` as a state machine: table, re-keying, splice, completion; whole-run safety |
| `ResponseFlow.dfy` | what a response flow leaves in the table: reassembly, delivery, independence of the segmentation |
| `SniffOperation.dfy` | the same operation on mutable pairs in a mutable table, refining the state machine |
| `HttpText.dfy`, `HttpParsing.dfy` | the string operations and the two head parsers, and what they read of any text |
| `HttpRendering.dfy` | heads written out, and the round trips through the parsers |
| `Delivery.dfy` | main queue, `dataQueue` and the client's drain |
| `HelperDaemon.dfy` | all of these as objects, refining one state machine, and the way of two messages to the client |
| `PacketExchange.dfy` | the same told on captured packets: addresses, flags, numbers and payload bytes |
| `StreamTable.dfy`, `TcpStreamFollower.dfy` | the TCP session table for any stream behaviour, and the class that holds it |
| `Bytes.dfy`, `BigEndian.dfy`, `BufferArithmetic.dfy` | bitwise operations, big-endian values, in-place increment and decrement |
| `AddressRange.dfy`, `AddressPrefix.dfy` | ranges, iterators, `is_iterable`, prefix ranges |
| `HwAddressText.dfy` | printing and parsing hardware addresses |
| `Rc4.dfy`, `Modulo.dfy` | RC4 key schedule and generator |
| `ClassData.dfy` | the DHCPv6 class-data list codec |
| `Endian.dfy`, `PduOption.dfy` | byte order and the vector converters |
| `PduChain.dfy` | the PDU chain on the heap |

## What the proofs found

The model follows the code where the code and its purpose part.

- The splice takes the truth value of a comparison for a length. It overwrites stored bytes as
  intended only when it appends, or when one byte replaces a byte before the last
  (`SpliceOverwritesIff`); a segment received twice is kept twice (`RetransmissionDuplicates`).
- A gap, a sequence number that passes 2^32, and a response whose acknowledgement number is the
  request's own key raise an NSRangeException that nothing catches (`SpliceRaisesIff`,
  `WrappedSequenceRaises`, `SameAcknowledgementRaises`).
- The table's keys are TCP numbers without addresses. A request of any other connection under the
  flow's number throws its pair out (`ForeignRequestDisplaces`), and a segment of any other host is
  spliced in (`OtherHostAppends`). A flow is reassembled at every point exactly when no segment
  breaks the guards that `Spares` lists (`SparesIff`, `ReassemblyIff`).
- The request parser reads past the header, unlike the response parser (`RequestReadsBody`): one line
  in the body renames the host, or makes a request of a head that is none (`BodyLineOverridesHost`,
  `HostOnlyInBody`). The body is harmless exactly in the cases of `RequestIgnoresBodyIff`.
- The class-data decoder's loop test is strict, so an empty last item is refused, and sizes are cut
  to 16 bits (`RoundTripIff`, `EmptyLastItemIsMalformed`).
- `is_iterable` ignores its third overflow, so it is wrong exactly for ranges that start at the
  all-ones value minus two (`IterableMeansFourIff`); among aligned prefix ranges that is one /48
  (`PrefixIterableIff`).
- The session table files a stream under the swapped addresses, so the "client" of a key is the
  receiver of the opening SYN (`RunOpenedBy`).
- After 2^64 streams the session table hands out the identifier of a stream that may still be open
  (`IdentifierReused`).
- The const overload of `find_pdu` drops its argument, so its answer is right for every chain exactly
  when it is asked for its class's own flag (`FindPduConst`, `FindConstAgreesIff`).

## Model

| member | source | states |
|---|---|---|
| `RequestMatcher.SpliceRaisesIff` | HelperTool/RHSniffOperation.mm:275-278 | the replacement raises exactly when the payload starts past the end of the stored data |
| `RequestMatcher.SpliceOverwritesIff` | HelperTool/RHSniffOperation.mm:275-278 | it overwrites as intended if and only if it appends, or replaces one byte by one before the last |
| `RequestMatcher.SpliceInserts` | HelperTool/RHSniffOperation.mm:275-278 | for every offset within the stored data the payload is inserted whole, and one stored byte goes if more are stored from there than come in |
| `RequestMatcher.RetransmissionDuplicates` | HelperTool/RHSniffOperation.mm:275-278 | a segment of two or more bytes received again over itself is kept twice |
| `RequestMatcher.HeaderFinishedIff` | HelperTool/RHSniffOperation.mm:281-282 | the header counts as finished if and only if the bytes 13, 10, 13, 10 stand somewhere in a row |
| `RequestMatcher.PacketEffects` | HelperTool/RHSniffOperation.mm:212-301 | on packets: sent data that is a request is filed under the acknowledgement number; received data reaches the pair under the acknowledgement number, else the one under the sequence number; SYN, SYN+ACK, FIN, empty, foreign and non-TCP packets change nothing |
| `RequestMatcher.RekeyKeeps` | HelperTool/RHSniffOperation.mm:254-269 | re-keying displaces nobody: the same pairs stay pending, each under one key |
| `RequestMatcher.FileKeeps` | HelperTool/RHSniffOperation.mm:237-245 | filing a request keeps the account of pending, completed and displaced requests, also when the key is taken |
| `RequestMatcher.CompleteKeeps` | HelperTool/RHSniffOperation.mm:286-297 | completion moves one pair from pending to completed and touches no other |
| `RequestMatcher.StepKeeps` | HelperTool/RHSniffOperation.mm:193-307 | every segment keeps the account, also one that raises |
| `RequestMatcher.RunKeeps` | HelperTool/RHSniffOperation.mm:193-307 | at every reachable state each request is pending, completed or displaced by a later filing, exactly one of these and once, and keeps its own request |
| `RequestMatcher.RunDisplaces` | HelperTool/RHSniffOperation.mm:237-245 | over every run, a pair is displaced if and only if a parsed request was filed under the key where that pair stood at that moment |
| `RequestMatcher.RunFiles` | HelperTool/RHSniffOperation.mm:235-246 | the filed requests are the parsed requests of the trace up to the first exception, in order, each under its acknowledgement number |
| `RequestMatcher.BodyFilesRequest` | HelperTool/RHSniffOperation.mm:235-246 | a payload whose head names no host is ignored, and is filed once a line of its body names one |
| `RequestMatcher.RunWaits` | HelperTool/RHSniffOperation.mm:239-269 | a pair that has received nothing waits under the acknowledgement number it was filed with |
| `ResponseFlow.AppendStep` | HelperTool/RHSniffOperation.mm:248-297 | the flow's next segment is appended to the stored data; it completes the pair exactly when that finishes the header |
| `ResponseFlow.SparesIff` | HelperTool/RHSniffOperation.mm:235-301 | a segment leaves the flow's pair as it is if and only if it is filed under neither of its keys, or its response stays away from them, or puts back a stored byte |
| `ResponseFlow.SpliceKeepsIff` | HelperTool/RHSniffOperation.mm:275-278 | the splice puts back what is stored exactly for one equal byte before the last |
| `ResponseFlow.ForeignFlow` | HelperTool/RHSniffOperation.mm:235-301 | traffic that uses neither number of the flow meets the guards, whatever is pending |
| `ResponseFlow.ForeignRequestDisplaces` | HelperTool/RHSniffOperation.mm:237-245 | any request filed under the number where the pair stands displaces it |
| `ResponseFlow.OtherHostAppends` | HelperTool/RHSniffOperation.mm:213-279 | a packet from any other host with the flow's numbers is appended to its data |
| `ResponseFlow.ReassemblyIff` | HelperTool/RHSniffOperation.mm:235-301 | in every run that does not raise, the pair holds the in-order payloads at each unfinished point if and only if each segment continues the flow or meets the guards |
| `ResponseFlow.Reassembly` | HelperTool/RHSniffOperation.mm:248-297 | amid any traffic that meets the guards the data is the concatenation of the payloads after every segment, and the pair is delivered once, with the response parsed at the first segment where that contains CRLFCRLF |
| `ResponseFlow.OwnSegmentsNeverRaise` | HelperTool/RHSniffOperation.mm:275-278 | an in-order segment of an unfinished flow never raises |
| `ResponseFlow.UninterruptedFlowRuns` | HelperTool/RHSniffOperation.mm:248-297 | a gap-free in-order flow up to its finishing segment runs through |
| `ResponseFlow.WrappedSequenceRaises` | HelperTool/RHSniffOperation.mm:250-278 | the in-order segment raises if and only if the flow has passed sequence number 2^32 |
| `ResponseFlow.SameAcknowledgementRaises` | HelperTool/RHSniffOperation.mm:254-278 | a first response under the request's own key is not re-keyed and raises unless the key is zero |
| `ResponseFlow.SegmentationIndependence` | HelperTool/RHSniffOperation.mm:281-288 | the delivered response is the one parsed from the whole stream, however it is cut into segments |
| `ResponseFlow.EndToEnd` | HelperTool/RHSniffOperation.mm:139-297 | a rendered response with any body, sent in any segmentation, is delivered once with its status, version and headers, beside its own request |
| `ResponseFlow.WholeExchange` | HelperTool/RHSniffOperation.mm:193-307 | from the start of the capture and after any traffic, a parsed request and its response give one delivery of just this pair |
| `SniffOperation.Operation.HandlePdu` | HelperTool/RHSniffOperation.mm:193-307 | the class with shared mutable pairs does exactly one step of the state machine, dispatches the new completions if a handler is set, and has on every packet the effect that its addresses, flags, numbers and payload call for |
| `SniffOperation.Operation.FileRequest` | HelperTool/RHSniffOperation.mm:235-246 | the request branch is the filing step |
| `SniffOperation.Operation.HandleResponse` | HelperTool/RHSniffOperation.mm:248-301 | the response branch is the server-data step |
| `SniffOperation.Operation.RekeyPair` | HelperTool/RHSniffOperation.mm:264-268 | the object moves to its new key and stays the same object |
| `SniffOperation.Operation.AbsorbPayload` | HelperTool/RHSniffOperation.mm:271-298 | splice, header test on the bytes, delivery and removal are the absorbing step |
| `SniffOperation.Operation.SniffLoop` | HelperTool/RHSniffOperation.mm:309-333 | the capture loop is the run of the state machine on the observed packets, up to the first exception, and all its new completions are dispatched in order |
| `HttpText.IntegerValueDecimal` | HelperTool/RHSniffOperation.mm:168-168 | `integerValue` reads back every NSInteger in decimal and saturates outside |
| `HttpText.SplitAt` | HelperTool/RHSniffOperation.mm:142-142 | splitting at a character set cuts at every separator |
| `HttpText.SplitFree` | HelperTool/RHSniffOperation.mm:142-142 | and a text without separators is its own only component |
| `HttpText.SeparatorCodes` | HelperTool/RHSniffOperation.mm:142-179 | the characters of the two character sets, by code |
| `HttpText.DecodeAsciiBytes` | HelperTool/RHSniffOperation.mm:141-141 | decoding keeps every byte as one character of its code, and gives an ASCII text back from its bytes |
| `HttpText.TrimCuts` | HelperTool/RHSniffOperation.mm:179-179 | for every text, trimming cuts off all white space at both ends and nothing else |
| `HttpText.TrimStrips` | HelperTool/RHSniffOperation.mm:179-179 | so it undoes putting any white space round a text without white space at its ends |
| `HttpText.IntegerValueOf` | HelperTool/RHSniffOperation.mm:168-168 | for every text: an optional sign, the digits up to the first other character, saturation at both ends, zero without digits |
| `HttpParsing.ParseResponse` | HelperTool/RHSniffOperation.mm:139-189 | the response parser's loop computes the scan of the lines |
| `HttpParsing.ResponseIgnoresBody` | HelperTool/RHSniffOperation.mm:139-188 | whatever follows the first CRLFCRLF cannot change the parsed response |
| `HttpParsing.ResponseIsItsHead` | HelperTool/RHSniffOperation.mm:149-184 | for every text the loop reads the non-empty lines before two empty lines in a row: the first as status line, all others with a colon as headers |
| `HttpParsing.HeaderMapLookup` | HelperTool/RHSniffOperation.mm:178-181 | the dictionary holds for each name the last value given to it |
| `HttpParsing.HeaderLineRead` | HelperTool/RHSniffOperation.mm:171-181 | a line is a header if and only if it has a colon; it is cut at the first one and the value loses the white space at its ends only |
| `HttpParsing.StatusLineWords` | HelperTool/RHSniffOperation.mm:165-169 | the first two words are version and status, whether or not more follow; one word is ignored |
| `HttpParsing.OneWordResponse` | HelperTool/RHSniffOperation.mm:144-188 | a text of one word or none gives status 0, no version and no headers |
| `HttpParsing.BareLineFeeds` | HelperTool/RHSniffOperation.mm:152-161 | two empty lines ended by line feeds alone end the head as well; one does not |
| `HttpRendering.ResponseRoundTrip` | HelperTool/RHSniffOperation.mm:141-184 | a written head, followed by any body, parses to its status, version and headers |
| `HttpRendering.ResponseReadBack` | HelperTool/RHSniffOperation.mm:141-184 | with distinct names and values without white space at their ends, the headers are read back as written |
| `HttpRendering.ResponseLaterHeader` | HelperTool/RHSniffOperation.mm:178-181 | one more header line overrides the earlier ones of its name, and changes nothing else |
| `HttpRendering.HeaderMapExact` | HelperTool/RHSniffOperation.mm:178-181 | with distinct names the dictionary is exactly the list |
| `HttpParsing.ParseRequest` | HelperTool/RHSniffOperation.mm:82-137 | the request parser's loop computes the scan of all lines; nil without host or path |
| `HttpParsing.RequestIsItsLines` | HelperTool/RHSniffOperation.mm:92-127 | for every text the loop takes the path from the first non-empty line, and host and headers from all later lines |
| `HttpRendering.RequestRoundTrip` | HelperTool/RHSniffOperation.mm:84-134 | a written request is recognised if and only if a header names the host, and its host, path and headers are read back |
| `HttpRendering.RequestReadBack` | HelperTool/RHSniffOperation.mm:84-134 | with distinct names and values without white space at their ends, the request is read back as written, its host from the last header that spells "host" in any case |
| `HttpRendering.RequestWithoutHost` | HelperTool/RHSniffOperation.mm:117-131 | and it is no request if no header does |
| `HttpRendering.RequestLaterHeader` | HelperTool/RHSniffOperation.mm:114-131 | one more header line overrides the earlier ones of its name, and the host if it spells "host" |
| `HttpParsing.NamesHostIff` | HelperTool/RHSniffOperation.mm:117-117 | the names taken for "host" are its sixteen spellings |
| `HttpParsing.RequestReadsBody` | HelperTool/RHSniffOperation.mm:93-123 | for every head and body: header lines in the body count like those of the head, and behind blank lines the body is the request |
| `HttpParsing.RequestIgnoresBodyIff` | HelperTool/RHSniffOperation.mm:93-123 | for every head and body the result is that of the head alone if and only if the body repeats the head's headers, or names no host where the head has a request line only, or the head has no such line, or the head is blank and the body no request |
| `HttpParsing.BodyLineOverridesHost` | HelperTool/RHSniffOperation.mm:117-120 | one header line in the body renames the host of any request, and makes a request of any head with a request line |
| `HttpRendering.HostOnlyInBody` | HelperTool/RHSniffOperation.mm:84-134 | a bare request line is no request, and with a host line in its body is one |
| `Delivery.HelperTool.DidReceive` | HelperTool/HelperTool.m:136-144 | what the handler received is what was handed over followed by what is queued, and grows by the call |
| `Delivery.HelperTool.GetQueuedHttpData` | HelperTool/HelperTool.m:168-179 | an authorized drain completes what was handed over to all that was received; a refused one hands over nothing |
| `Delivery.SystemRunConserves` | HelperTool/RHSniffOperation.mm:290-296 | over every run, what was replied, queued and dispatched is, in order, what was completed |
| `Delivery.AtMostOnceInOrder` | HelperTool/HelperTool.m:136-179 | the client gets each filed request at most once, in completion order, with the request it was filed with |
| `Delivery.DrainDelivers` | HelperTool/HelperTool.m:168-179 | running the waiting blocks and draining hands over everything completed |
| `HelperDaemon.Daemon.Perform` | HelperTool/HelperTool.m:136-179 | one packet, block or client call on the objects is one event of the state machine |
| `HelperDaemon.Daemon.PerformAll` | HelperTool/HelperTool.m:126-179 | a whole run on the objects is a run of the state machine, and replies, queue and waiting calls together are the completions in order |
| `HelperDaemon.ExchangeReachesClient` | HelperTool/RHSniffOperation.mm:193-307 | a written request and its written response, in any segmentation, reach the client once at the next drain and are read back header for header |
| `HelperDaemon.MatcherRuns` | HelperTool/RHSniffOperation.mm:193-307 | the whole stops exactly when the matcher raises on the sniffed segments |
| `PacketExchange.PacketsReachClient` | HelperTool/RHSniffOperation.mm:193-307 | for every run over captured packets, a sent packet with a written request and the received packets that count up from its acknowledgement number with the written response give the client, once, this request with this response as written |
| `PacketExchange.ExchangeRuns` | HelperTool/RHSniffOperation.mm:193-307 | after any traffic, a request followed by nothing but its response does not stop the capture |
| `PacketExchange.UnusedIsFree` | HelperTool/RHSniffOperation.mm:239-269 | a number that no data packet carried as its acknowledgement is no key of the table |
| `StreamTable.RunOneEnd` | HelperTool/libtins/include/tcp_stream.h:345-364 | no 4-tuple and its distinct mirror are both keys |
| `StreamTable.RunUnfinished` | HelperTool/libtins/include/tcp_stream.h:365-371 | a finished stream in the table was opened by the last packet of its connection, so it has never been updated |
| `StreamTable.RunOpenedBy` | HelperTool/libtins/include/tcp_stream.h:345-361 | every key is the mirror of the SYN that opened its stream, so its client is the SYN's receiver |
| `StreamTable.RunCallsOpened` | HelperTool/libtins/include/tcp_stream.h:354-371 | every functor call is about a stream that was opened so |
| `StreamTable.SameConnectionIff` | HelperTool/libtins/include/tcp_stream.h:345-353 | a packet finds a stream under its own 4-tuple or the mirror exactly when both have the same two end points |
| `StreamTable.OpenConnection` | HelperTool/libtins/include/tcp_stream.h:365-371 | a packet of an open connection: all four cases of changed and finished, with the calls made and the stream left |
| `StreamTable.NewConnection` | HelperTool/libtins/include/tcp_stream.h:354-364 | a packet of no open connection opens one if it is a SYN without ACK, and changes nothing otherwise |
| `StreamTable.RunLifecycle` | HelperTool/libtins/include/tcp_stream.h:354-371 | over every run the identifiers are the last 64 bits of identifiers that are distinct, each with at most one end call and no call after it |
| `StreamTable.LifecycleUntilWrap` | HelperTool/libtins/include/tcp_stream.h:354-371 | so up to 2^64 streams this holds of the identifiers themselves |
| `StreamTable.IdentifierReused` | HelperTool/libtins/include/tcp_stream.h:354-358 | with one more stream, two that are open have the same identifier |
| `StreamTable.NonInterference` | HelperTool/libtins/include/tcp_stream.h:341-373 | for every trace and every stream behaviour, a connection's stream and calls are those of a one-stream machine on its own packets |
| `StreamTable.UpdateEvents` | HelperTool/libtins/include/tcp_stream.h:365-371 | the data call comes before the end call, and only the updated connection sees them |
| `TcpStreamFollower.Follower.Callback` | HelperTool/libtins/include/tcp_stream.h:341-373 | one call does one step; a PDU without IP or TCP changes nothing and raises |
| `TcpStreamFollower.Follower.FollowRange` | HelperTool/libtins/include/tcp_stream.h:318-327 | the range loop is the run on the packets before the first PDU that raises |
| `TcpStreamFollower.Follower.SniffLoop` | HelperTool/libtins/include/sniffer.h:398-410 | the sniffing loop skips such PDUs, runs on all others, and stops after `max_packets` of either kind |
| `TcpStreamFollower.SniffedLimit` | HelperTool/libtins/include/sniffer.h:407-408 | the first `max_packets` PDUs are taken, all of them when they are fewer or the limit is zero |
| `TcpStreamFollower.PresentSkips` | HelperTool/libtins/include/sniffer.h:401-406 | PDUs without layers leave no trace in what the sniffing loop feeds on |
| `TcpStreamFollower.BeforeFirstNoneStops` | HelperTool/libtins/include/tcp_stream.h:322-326 | the range loop feeds on exactly the packets before the first PDU without layers |
| `TcpStreamFollower.Follower.FollowSniffer` | HelperTool/libtins/include/tcp_stream.h:311-316 | following a sniffer is that loop without a limit |
| `BufferArithmetic.IncrementBuffer` | HelperTool/libtins/include/internals.h:121-133 | plus one modulo 256^n on the big-endian value, true exactly on wrap-around |
| `BufferArithmetic.DecrementBuffer` | HelperTool/libtins/include/internals.h:135-147 | minus one modulo 256^n, true exactly on wrap-around |
| `BufferArithmetic.CarryOver` | HelperTool/libtins/include/internals.h:121-147 | adding one turns a byte followed by 0xff bytes into its successor followed by zeros |
| `BufferArithmetic.IncrementThenDecrement` | HelperTool/libtins/include/internals.h:121-147 | decrement undoes increment on every address |
| `BufferArithmetic.DecrementThenIncrement` | HelperTool/libtins/include/internals.h:121-147 | increment undoes decrement on every address |
| `BufferArithmetic.LastAddressFromMask` | HelperTool/libtins/include/internals.h:164-171 | every byte is or-ed with the complement of its mask byte |
| `BufferArithmetic.OrNotAt` | HelperTool/libtins/include/internals.h:164-171 | bit by bit: set exactly if set in the address or clear in the mask |
| `AddressRange.LessIsNumeric` | HelperTool/libtins/include/hw_address.h:229-231 | lexicographic order is numeric order |
| `AddressRange.MakeRangeIff` | HelperTool/libtins/include/address_range.h:201-206 | the constructor raises if and only if the last address is smaller than the first |
| `AddressRange.ContainsIsNumeric` | HelperTool/libtins/include/address_range.h:227-229 | containment is first <= x <= last |
| `AddressRange.Iterator.Advance` | HelperTool/libtins/include/address_range.h:108-111 | the iterator moves to the next value and flags a wrap-around |
| `AddressRange.MeetsEndIff` | HelperTool/libtins/include/address_range.h:92-94 | an iteration meets the end iterator at its last step and at no other |
| `AddressRange.Iterate` | HelperTool/libtins/include/address_range.h:235-251 | iterating from begin to end terminates and visits exactly the listed addresses, for every constructible range |
| `AddressRange.PlainRangeExact` | HelperTool/libtins/include/address_range.h:185-251 | a plain range is visited from first to last, each contained address once, also when it ends at all-ones |
| `AddressRange.HostRangeExact` | HelperTool/libtins/include/address_range.h:185-251 | a hosts-only range with first < last is visited from first + 1 to last - 1 |
| `AddressRange.SingleHostRangeVisitsTheRest` | HelperTool/libtins/include/address_range.h:235-263 | a hosts-only range of one address is iterated over every other address, once |
| `AddressRange.IsIterable` | HelperTool/libtins/include/address_range.h:267-280 | the answer of the three-step loop, the ignored third overflow included |
| `AddressRange.IterableLaw` | HelperTool/libtins/include/address_range.h:267-280 | a plain range is always iterable and iteration then visits at least one address, each contained; a hosts-only range is iterable if and only if it holds at least four addresses or starts at the all-ones value minus two |
| `AddressRange.IterableMeansFourIff` | HelperTool/libtins/include/address_range.h:267-280 | it means at least four addresses for every last address if and only if first is not the all-ones value minus two |
| `AddressRange.IterableHostCount` | HelperTool/libtins/include/address_range.h:253-280 | and then iteration yields last - first - 1 hosts, at least two |
| `AddressPrefix.PrefixRange` | HelperTool/libtins/include/address_range.h:301-314 | above 48 an error; else for every base a valid range that ends at the last address with the same top bits, and a negative length is none |
| `AddressPrefix.FromMask` | HelperTool/libtins/include/address_range.h:214-220 | the range from the address to its masked last address, hosts only |
| `AddressPrefix.BuildMask` | HelperTool/libtins/include/address_range.h:305-312 | the loop builds the mask whose first `p` bits are ones |
| `AddressPrefix.MaskValue` | HelperTool/libtins/include/address_range.h:305-312 | as a number the mask is 2^48 - 2^(48-p) |
| `AddressPrefix.LastOfBlock` | HelperTool/libtins/include/internals.h:164-171 | the masked address keeps the top bits and has ones below, so it is no smaller than the base |
| `AddressPrefix.PrefixMembers` | HelperTool/libtins/include/address_range.h:227-314 | membership is being no smaller than the base and sharing its top bits |
| `AddressPrefix.AlignedPrefixMembers` | HelperTool/libtins/include/address_range.h:227-314 | for a base without host bits membership is sharing the top bits, and there are 2^(48-p) members |
| `AddressPrefix.PrefixIterableIff` | HelperTool/libtins/include/address_range.h:267-314 | aligned prefix ranges are iterable exactly up to /46, save one /48, and then all but two addresses are visited |
| `HwAddressText.Convert` | HelperTool/libtins/include/hw_address.h:335-371 | the nested parsing loops compute the parse of the text |
| `HwAddressText.ParseWritesAll` | HelperTool/libtins/include/hw_address.h:343-370 | every success writes exactly n bytes |
| `HwAddressText.ShapeParses` | HelperTool/libtins/include/hw_address.h:343-370 | every text of colon-ended groups, with a full last group or room used up, parses to its groups' values and zeros |
| `HwAddressText.AcceptsIff` | HelperTool/libtins/include/hw_address.h:343-370 | and no other text is accepted |
| `HwAddressText.InvalidSeparatorIff` | HelperTool/libtins/include/hw_address.h:358-365 | the separator exception is raised exactly when two digits are followed by a character other than a colon while there is room |
| `HwAddressText.HexIff` | HelperTool/libtins/include/hw_address.h:347-352 | the digits and their values |
| `HwAddressText.PrintedAt` | HelperTool/libtins/include/hw_address.h:290-330 | an address is printed as two lower-case digits for each byte, with colons between |
| `HwAddressText.PrintThenParse` | HelperTool/libtins/include/hw_address.h:144-371 | parsing a printed address of any size gives what the converting constructor gives; the identity for equal sizes |
| `HwAddressText.ParseIgnoresCase` | HelperTool/libtins/include/hw_address.h:347-352 | letter case makes no difference on any text, errors included |
| `Rc4.Key.constructor` | HelperTool/libtins/include/crypto.h:388-400 | the schedule with a wrapping key iterator is the schedule on key bytes taken modulo the length |
| `Rc4.SchedulePermutes` | HelperTool/libtins/include/crypto.h:390-399 | the table is a permutation after every round |
| `Rc4.FirstRound` | HelperTool/libtins/include/crypto.h:390-400 | the first round exchanges entry 0 with entry key[0] |
| `Rc4.RoundUnround` | HelperTool/libtins/include/crypto.h:394-399 | every round can be taken back with its key byte |
| `Rc4.FirstDifferenceShows` | HelperTool/libtins/include/crypto.h:394-399 | two keys that differ first in the byte of round k differ in j after that round |
| `Rc4.RepeatedKeySchedules` | HelperTool/libtins/include/crypto.h:393-399 | a key and its repetitions schedule the same table |
| `Rc4.LongKeySchedules` | HelperTool/libtins/include/crypto.h:394-399 | key bytes after the first 256 do not matter |
| `Rc4.StepUnstep` | HelperTool/libtins/include/crypto.h:406-408 | a generator step can be taken back |
| `Rc4.UnstepStep` | HelperTool/libtins/include/crypto.h:406-408 | and every generator state is reached by a step |
| `Rc4.StepsInjective` | HelperTool/libtins/include/crypto.h:405-410 | the n-step map on (i, j, table) is injective for every n |
| `Rc4.StepsPermute` | HelperTool/libtins/include/crypto.h:405-410 | every generator state keeps the permutation |
| `Rc4.FirstByte` | HelperTool/libtins/include/crypto.h:405-410 | the first output byte, read off any starting table |
| `Rc4.SecondByteIsZero` | HelperTool/libtins/include/crypto.h:405-410 | for every table with 0 in entry 2 and not 2 in entry 1 the second output byte is 0 |
| `Rc4.NeverFinney` | HelperTool/libtins/include/crypto.h:404-410 | no run from any table ever reaches a state with j = i + 1 and table[j] = 1 |
| `Rc4.IdleKeyEncrypts` | HelperTool/libtins/include/crypto.h:388-411 | from key to output: the key 0, 0, 255, ..., 2 schedules the identity, and zeros encrypt to 2, 5, 7, 13 |
| `Rc4.Rc4` | HelperTool/libtins/include/crypto.h:402-411 | the output is the data xor-ed with the keystream, and the key is left in the generator's last table |
| `Rc4.CipherTwice` | HelperTool/libtins/include/crypto.h:402-411 | the cipher undoes itself on every table and data |
| `Rc4.EncryptThenDecrypt` | HelperTool/libtins/include/crypto.h:388-411 | two runs with two freshly scheduled keys give the data back and leave both keys in the same table |
| `ClassData.ClassOptionDataToOption` | HelperTool/libtins/include/dhcpv6.h:884-898 | the buffer grows by the encoded size and holds the encoding from the start index on |
| `ClassData.ItemOnTheWire` | HelperTool/libtins/include/dhcpv6.h:890-893 | an item is its size in network order, then its bytes |
| `ClassData.EncodedAt` | HelperTool/libtins/include/dhcpv6.h:887-894 | every byte of the buffer after the encoder, wherever it started |
| `ClassData.EncodeAtEndAppends` | HelperTool/libtins/include/dhcpv6.h:884-898 | started at the buffer's end it keeps all earlier bytes and appends |
| `ClassData.OptionToClassOptionData` | HelperTool/libtins/include/dhcpv6.h:900-921 | the decoder's loop computes the decoding, both errors included |
| `ClassData.DecodeRaisesIff` | HelperTool/libtins/include/dhcpv6.h:906-919 | option_not_found exactly for items and a size larger than the non-empty rest; malformed_option exactly for items and one or two bytes more |
| `ClassData.RoundTripIff` | HelperTool/libtins/include/dhcpv6.h:884-921 | decoding inverts encoding if and only if all sizes fit 16 bits and the last item, if any, is not empty |
| `ClassData.ReencodeIdentity` | HelperTool/libtins/include/dhcpv6.h:884-921 | re-encoding any decoded buffer gives the identical bytes |
| `ClassData.EmptyLastItemIsMalformed` | HelperTool/libtins/include/dhcpv6.h:906-919 | an encoded list with an empty last item is always refused as malformed |
| `Endian.Reversal16` | HelperTool/libtins/include/endianness.h:73-75 | the 16-bit change is byte reversal |
| `Endian.Reversal32` | HelperTool/libtins/include/endianness.h:82-85 | the 32-bit change is byte reversal |
| `Endian.Reversal64` | HelperTool/libtins/include/endianness.h:92-95 | the 64-bit change is byte reversal |
| `Endian.LowestFirst16` | HelperTool/libtins/include/endianness.h:64-75 | a 16-bit word in memory, lowest byte first, as a number |
| `Endian.LowestFirst32` | HelperTool/libtins/include/endianness.h:76-85 | so for 32 bits |
| `Endian.LowestFirst64` | HelperTool/libtins/include/endianness.h:86-95 | so for 64 bits |
| `Endian.ChangeEndianTwice` | HelperTool/libtins/include/endianness.h:64-95 | changing endianness twice changes nothing, at each width |
| `PduOption.WordsLawful` | HelperTool/libtins/include/endianness.h:64-147 | all four integer types: bytes and value determine each other and the change reverses the bytes |
| `PduOption.ElementRoundTrip` | HelperTool/libtins/include/pdu_option.h:177-180 | one element read in the PDU's order undoes writing it, on either machine |
| `PduOption.ReadValue16` | HelperTool/libtins/include/pdu_option.h:177-180 | a little-endian PDU has the lowest byte first, a big-endian one the highest, on either machine |
| `PduOption.ReadValue32` | HelperTool/libtins/include/pdu_option.h:177-180 | so for 32 bits |
| `PduOption.ReadValue64` | HelperTool/libtins/include/pdu_option.h:177-180 | so for 64 bits |
| `PduOption.ElementCodecInverse` | HelperTool/libtins/include/pdu_option.h:165-184 | reading and writing an integer of any lawful width are inverse |
| `PduOption.PairCodecInverse` | HelperTool/libtins/include/pdu_option.h:201-213 | so are reading and writing a pair of any two widths |
| `PduOption.PairLayout` | HelperTool/libtins/include/pdu_option.h:202-206 | the first element of a pair is read from the first bytes |
| `PduOption.ConvertAll` | HelperTool/libtins/include/pdu_option.h:165-218 | the loop fails exactly on a partial value, else reads all chunks in order |
| `PduOption.ReadAllAt` | HelperTool/libtins/include/pdu_option.h:175-181 | value k is read from the k-th chunk |
| `PduOption.ConvertVector` | HelperTool/libtins/include/pdu_option.h:165-184 | the integer vector converter fails exactly on a partial element, else reads all chunks in order |
| `PduOption.ConvertPairs` | HelperTool/libtins/include/pdu_option.h:186-218 | so does the pair vector converter |
| `PduOption.ConvertWritten` | HelperTool/libtins/include/pdu_option.h:165-218 | converting inverts writing the elements one after another |
| `PduOption.WriteConverted` | HelperTool/libtins/include/pdu_option.h:165-218 | writing inverts every successful conversion |
| `PduOption.ConvertsIff` | HelperTool/libtins/include/pdu_option.h:169-196 | conversion succeeds exactly on what writing produces |
| `PduChain.ChainAcyclic` | HelperTool/libtins/include/pdu.h:424-452 | a chain has no cycle |
| `PduChain.SingleOwner` | HelperTool/libtins/include/pdu.h:214-222 | every PDU of a chain has at most one owner in it |
| `PduChain.FindPdu` | HelperTool/libtins/include/pdu.h:253-262 | the first PDU of the chain that matches, or null |
| `PduChain.RfindPdu` | HelperTool/libtins/include/pdu.h:283-289 | the exception if and only if no PDU of the chain matches |
| `PduChain.FindPduConst` | HelperTool/libtins/include/pdu.h:269-272 | the const overload searches for the class's own flag, whatever it is passed |
| `PduChain.FindConstAgreesIff` | HelperTool/libtins/include/pdu.h:269-272 | it answers what it was asked on every chain if and only if the two flags are equal |
| `PduChain.FirstMatchConcat` | HelperTool/libtins/include/pdu.h:253-262 | a search on a concatenation prefers the left part |
| `PduChain.Clone` | HelperTool/libtins/include/pdu.h:301-309 | new PDUs all the way down, with the same layers |
| `PduChain.Append` | HelperTool/libtins/include/pdu.h:445-452 | the left chain is followed by a fresh copy of the right one; the right one keeps its chain unless the two share their end |
| `PduChain.AppendSelf` | HelperTool/libtins/include/pdu.h:445-452 | appending a chain to itself doubles it |
| `PduChain.Concat` | HelperTool/libtins/include/pdu.h:459-463 | the value operator builds a fresh chain and leaves both operands alone |
| `PduChain.FindAfterAppend` | HelperTool/libtins/include/pdu.h:253-452 | a search after appending finds the left match, else the copy of the first right match |

## Left out

- Several sniff operations sharing the static `me` pointer, cancellation, NSOperation scheduling and XPC threads: one operation with atomic steps and a FIFO main queue is modelled.
- Packet capture and dissection: a packet arrives with its addresses, flags, numbers and payload; the UTF-8 decoding of a request payload is an input.
- Bytes above 127 in a response keep their code when decoded as ASCII; the case-insensitive comparison with "host" folds ASCII letters only; the character sets are the listed members.
- NSURL and NSHTTPURLResponse construction: the parsers stop at the status, version, host, path and header dictionary; archiving of the pairs for the client is the identity.
- The `ackSeq` property of a pair, which the source never sets, and the response's URL.
- `TCPStream::update`, creation and `is_finished` (bodies not in the repository): any functions, and a data functor that may change the stream in any deterministic way.
- IPv4 and IPv6 increment, decrement and masks (bodies not in the repository): ranges are those of hardware addresses of any size.
- AddressPrefix.PrefixRange: does not model prefix lengths of -24 and less, for which the source shifts an `int` by its own width or more, which C++ leaves undefined.
- BufferArithmetic.IncrementBuffer: uses an index that may be -1 where the source compares a pointer that stepped before its array.
- HwAddressText.Convert: does not model texts of 2^32 characters and more, which overflow the source's index.
- Rc4.Key.constructor: requires a non-empty key, as the source dereferences its start.
- ClassData.ClassOptionDataToOption: requires a start index within the buffer, as the source writes there unchecked.
- PduChain.Clone: the virtual method's documented contract on one class of PDU that carries its flags and header.
- Serialization, checksums, reassembly, WEP and WPA2, DNS and the getter and setter headers: easy members, or bodies that are not in the repository.
- The radio URL finder, authorization, tool installation and the user interface.
