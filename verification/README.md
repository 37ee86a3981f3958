# Verification of gst-playd

gst-playd is a daemon that plays media through GStreamer and is driven by short text requests. This project models its
three involved parts in Dafny and proves properties of them; `dafny verify dfyconfig.toml` checks everything.

**The base64 codec (`src/uuencode.c`).** `Base64.dfy` defines the encoding of section 4 of RFC 4648 by 24-bit groups,
and the decoder as a machine that reads one character at a time. `Decoding.dfy` and `Codec.dfy` prove what holds of
them on cut, joined and interleaved texts, and that they are inverse to each other; `StdTable.dfy` says what the other
table loses. `Uuencode.dfy` holds the C loops over buffers (shifts and masks are in `Bits.dfy`) and proves them
against these definitions. `Streaming.dfy` says what reading through a 64-character buffer amounts to, and
`ReadBase64.dfy` holds the loop itself, over stream objects.

**The text protocol.** `Regex.dfy` is a backtracking matcher for rows of greedy repetitions, which is all that the
four regular expressions of daemon and client use. `Requests.dfy` splits requests, `Replies.dfy` is the Ruby client's
side, `Numbers.dfy` prints and reads numbers. `Printer.dfy` is the two-pass table printer, `Tags.dfy` the tag renderer
and the TAGS request, and `TagsEndToEnd.dfy` follows tags from the bus messages to the client's dictionary.

**The state machines.** `Playback.dfy` is the table of playing sources with the part of the GStreamer graph that it
owns, `Registry.dfy` the plugin registry and dispatch. Both give the state as a value with what each operation does to
it, prove what every run keeps, and prove the class methods against that. `EndToEnd.dfy` follows PLAY and STOP from the
client through the dispatcher to the table and back, and `StartOrder.dfy` tells from the requests of a run which sources
are live.

Bytes are integers from 0 to 255, and text is made of Dafny characters, which also stand for the bytes of a stream.
What comes from outside is a parameter: the bytes of a stream, the bus messages, the order in which glib visits a hash
table, what the allocator, the clock and GStreamer hand out for a new source, and the hash that ids are made of.

## What was found

- `read_base64` does not return from every stream. If a refill leaves 1 to 3 sextets, no `=`, and otherwise characters
  outside the table in a full buffer, the loop goes round for ever. `Streaming.ReturnsIffNoRefillStalls` gives the exact
  condition refill by refill. On the text alone, `Streaming.ReadReturns` and `Streaming.ReadIsCaught` decide every case
  but one, that of such a text which begins with a character outside the table, and `Streaming.ReturnsIffNoStall` is
  exact where no such character stands between groups.
- The `====` line is recognised only after text that is fully decoded. Behind an open group its pads are read as data,
  and the function goes on behind it (`Streaming.UuStop`).
- A comment in `decode_base64` says that the tail of `==` is decoded with a count of 1. The count is 0 there: the first
  pad ends the group and the second ends an empty one (`Codec.RunTwoPads`).
- The README of the daemon shows a bare `STOP` as a request. The request expression gives the last letter of a bare
  command to the parameter, so the daemon rejects every prefix that is sent alone (`EndToEnd.BarePrefixIsRejected`).
- A request parameter with a line break in it is rejected, and one at its end is lost; for the expression, carriage
  return, vertical tab, form feed and three Unicode characters are line breaks too (`Requests.ParseIsCut`).
- Tags do not reach the client, in any order, if one of them or a value holds a newline or a value ends in a carriage
  return (`TagsEndToEnd.TagsReachTheClient`).
- A tag value that is a 64-bit number is printed with "64" behind its digits, because the format is `%lu64`
  (`TagsEndToEnd.WideNumberIsOther`).
- When ids collide, a STOP takes the latest live source with the id. Which source that is can be told from the requests
  alone, as with brackets (`StartOrder.StopOverRun`).
- With the traditional table the pad is the zero digit, so that encoding does not keep the length of its source
  (`StdTable.StdEncodesZeroFilled`).

## Model

| member | source | states |
|---|---|---|
| Codec.TableIsRfc | src/uuencode.c:20-31 | the literal table is Table 1 of RFC 4648, character by character, with the pad last |
| Uuencode.LengthOverflows | src/uuencode.c:45-48 | the encoded length fits a 32-bit int exactly for sources up to 1610612733 bytes |
| Uuencode.OffsetsAreDigits | src/uuencode.c:72-75 | the shifts and masks of the encoder give the four 6-bit digits of the 24-bit group |
| Uuencode.PadBackward | src/uuencode.c:80-84 | walking back puts the pad over as many characters as the length is below zero, and over no others |
| Uuencode.Uuencode | src/uuencode.c:56-85 | groups forward and padding backward leave exactly the section 4 encoding and one NUL in the buffer, change nothing else, and overflow no int |
| Codec.EncodeConcat | src/uuencode.c:61-77 | encoding splits at every multiple of three bytes, for any table |
| Codec.EncodingIsCanonical | src/uuencode.c:56-85 | every encoding is in the canonical form of sections 3.5 and 4 of RFC 4648 |
| StdTable.StdEncodesZeroFilled | src/uuencode.c:33-43 | with the traditional table two sources have the same text if and only if they are equal when zero-filled to whole groups |
| StdTable.StdTableIs | src/uuencode.c:33-43 | the traditional table holds the character 32 above each value, and the back quote for zero and for the pad; subtracting a blank, modulo 64, gives every value back |
| Uuencode.StrchrIsIndex | src/uuencode.c:130-135 | the search in the literal table finds the value of Table 1, 64 for the pad, and nothing for other characters |
| Uuencode.JoinedAreBytes | src/uuencode.c:153-158 | the shifts and ors of the decoder, cut to a char, give the three bytes of the 24-bit group |
| Uuencode.WriteGroup | src/uuencode.c:153-158 | a group of n sextets stores n - 1 bytes, which do not depend on unset sextets |
| Uuencode.DecodeBase64 | src/uuencode.c:94-167 | the nested loops write exactly the bytes of the character machine, advance the output past them, and return the start of its undecoded tail |
| Decoding.UndecodedTail | src/uuencode.c:117-128 | the tail ends the text, and unless empty it is one open group of 1 to 3 sextets and no pad |
| Decoding.Resumption | src/uuencode.c:99-167 | decoding may stop anywhere and go on from the returned tail: same bytes, and a tail is left in both cases or in neither |
| Decoding.ResumptionTail | src/uuencode.c:117-128 | the two tails differ at most by the junk that the stop dropped because no sextet was open |
| Decoding.JunkInvariance | src/uuencode.c:115-132 | characters outside the table may stand anywhere without changing the bytes, the open sextets, or whether a tail is left |
| Decoding.JunkInserted | src/uuencode.c:115-132 | putting them in at any place changes neither the bytes nor whether a tail is left |
| Decoding.RateBound | src/uuencode.c:99-167 | four characters or more are used for every three bytes written |
| Codec.RunTwoPads | src/uuencode.c:144-162 | with two pads the first ends the group, and the second is eaten as an empty group |
| Codec.RunEncoding | src/uuencode.c:99-163 | at any point between groups, with any table equal to Table 1, an encoding adds exactly its bytes and leaves no group open |
| Codec.RoundTrip | src/uuencode.c:56-167 | decoding an encoding gives the bytes back and leaves no tail, for every byte string |
| Codec.ConcatenatedEncodings | src/uuencode.c:99-163 | encodings joined with their padding in the middle decode to the joined bytes |
| Codec.CanonicalInverse | src/uuencode.c:56-167 | encoding what a text decodes to gives the text back if and only if it is canonical |
| Codec.CodecIsBijection | src/uuencode.c:56-167 | byte strings and canonical texts correspond one to one |
| Streaming.FlagsTakenApart | src/uuencode.c:176-178 | exit character and stop flag are recovered from flags made of them, -1 for EOF and -128 for none included |
| Streaming.EofIsNoExitChar | src/uuencode.c:176-204 | EOF passed as exit character reads exactly as no exit character does |
| Streaming.RefillTakesBody | src/uuencode.c:193-213 | a refill takes the next characters above ' ' and leaves the others to later ones; at the terminator it has taken the last |
| Streaming.StreamingFromCarry | src/uuencode.c:192-235 | from any carried text, streaming writes and returns what one decoding of that text and the rest of the body gives |
| Streaming.StreamingIsOneShot | src/uuencode.c:192-235 | whenever the function returns it has written what one decoding of all characters above ' ' before the terminator gives, stands behind the terminator, and returns 1 exactly if nothing is left undecoded |
| Streaming.StreamedRoundTrip | src/uuencode.c:192-235 | an encoding with blanks anywhere in it is read back from a stream as its bytes, with result 1 |
| Streaming.StreamedLines | src/uuencode.c:192-235 | in particular one cut into lines anywhere, up to the end of the stream |
| Streaming.StallIsFixedPoint | src/uuencode.c:219-234 | the tail fills the buffer exactly for a full buffer of 1 to 3 sextets and no pad, and then decoding gives nothing and the same text |
| Streaming.StalledPass | src/uuencode.c:192-235 | from such a buffer a pass of the loop reads nothing, writes nothing and carries the same text over |
| Streaming.ReturnsIffNoRefillStalls | src/uuencode.c:192-235 | the function returns if and only if no refill is such a text |
| Streaming.ReadReturns | src/uuencode.c:192-235 | it returns if no 64 characters of the body that stand where no sextet is open are such a text |
| Streaming.ReadIsCaught | src/uuencode.c:192-235 | it is caught if 64 such characters are such a text and begin with a sextet, wherever refills and blanks fall, unless it stops on a "====" line before |
| Streaming.ReturnsIffNoStall | src/uuencode.c:192-235 | for a body with no character outside the table between groups, the text alone decides: it returns if and only if no 64 characters that stand where no sextet is open are such a text |
| Streaming.TableTextReturns | src/uuencode.c:192-235 | it returns if every character above ' ' is in the table |
| Streaming.ShortTail | src/uuencode.c:232-234 | text of the table alone leaves a tail of at most three sextets |
| Streaming.FullBufferReturns | src/uuencode.c:192-235 | for a text that fills the buffer exactly, stalling is the only way not to return |
| Streaming.ReadText | src/uuencode.c:192-235 | any text up to a blank, no refill of which stalls or is the line, is written as one decoding gives it, the sextets that decoding leaves are carried, and the next refill starts right behind the blank |
| Streaming.ReadEndsInText | src/uuencode.c:205-217 | if a refill inside the text stalls or is the line, the function is caught or returns 1 without reading past the blank |
| Streaming.UuStop | src/uuencode.c:205-235 | a "====" line behind such a text and a blank: if one decoding uses the text up, the function returns 1 with exactly its bytes and reads no further; if not, the pads end the open group, and it goes on behind the line, or returns 1 there if the line ends at the exit character or the end of the stream |
| Streaming.NoLineRefill | src/uuencode.c:193-217 | no refill is the line in a text without four pads in a row |
| Streaming.TableTextPasses | src/uuencode.c:192-235 | in text of the table, being the line is all that can keep a refill from being read as data |
| Streaming.UuFile | src/uuencode.c:192-235 | an encoding cut into lines anywhere and followed by a line "====" is written as exactly its source, with result 1, and what follows that line is left unread |
| ReadBase64.Refill | src/uuencode.c:193-213 | the inner loop stores, takes and stops as the refill of the specification, and ends the buffer with a NUL |
| ReadBase64.Flush | src/uuencode.c:219-222 | decodes the buffer within the 50-byte output buffer and appends the bytes to the output |
| ReadBase64.CarryOver | src/uuencode.c:232-234 | the tail is moved to the front of the buffer |
| ReadBase64.OnePass | src/uuencode.c:192-235 | the loop body returns what the specification says, or carries over a text from which the loop goes on as before, having taken a character or being caught |
| ReadBase64.ReadBase64 | src/uuencode.c:174-236 | on every stream: when it returns, result, bytes written and characters used are those of the specification; as many passes as the stream has characters, and one more, leave it running only if the specification is caught, with all its bytes written |
| Regex.MatchIsGreatest | src/parser.c:104-110 | greedy backtracking matches exactly when the items fit, and then takes the lexicographically greatest fit |
| Regex.Match3IsGreatest | src/parser.c:104-110 | the same for the three items that each of the four expressions has |
| Requests.ParseIsCut | src/parser.c:104-126 | on every message: one line break at the end is ignored, any other line break (CR, VT, FF and the Unicode ones included) makes it invalid, and otherwise the match cuts as a closed form on the leading capitals does |
| Requests.FormatParses | extras/gst-playd-client.rb:29-41 | a formatted request is split back into its two parts if and only if the parameter is not empty and holds no line break |
| Requests.EmptyParamIsSpace | src/parser.c:104-126 | an empty parameter comes back as the space before it |
| Requests.BareCommandIsCut | src/parser.c:104-126 | a message of capitals alone gives its last letter to the parameter, and is invalid if it has only one |
| Numbers.ValueOfDecimal | src/operations/play.c:323 | printed numbers consist of digits and stand for the number |
| Numbers.DecimalOfValue | src/operations/play.c:323 | and they are the only digits that do without a zero in front |
| Numbers.AtollReads | src/operations/play.c:330 | on any text: blanks before a number and anything but a digit behind it are ignored, the sign counts, the value is clamped to 64 bits, and without digits it is 0 |
| Numbers.AtollOfDecimal | src/operations/play.c:330 | every printed 32-bit id is read back as itself |
| Playback.StopIdReads | src/operations/play.c:330 | an id in a STOP counts modulo 2^32, a negative one as its complement |
| Replies.FormattedReply | extras/gst-playd-client.rb:46-52 | after capitals and a space the first line is the text; it is the result if the capitals are OK, and thrown if not |
| Replies.BareReply | extras/gst-playd-client.rb:46-52 | the reply to TAGS is accepted on its first line |
| Replies.OtherLine | extras/gst-playd-client.rb:46-52 | a line that does not begin with a capital is passed over, and nothing matches if all lines are such |
| Replies.ChompTakesOneBreak | extras/gst-playd-client.rb:63 | one line break at the end of a value is taken off, of any of three kinds, and nothing else |
| Replies.PairsMakeDict | extras/gst-playd-client.rb:57-65 | there is a dictionary if and only if the lines come in pairs and each pair begins with a key |
| Replies.KeyTagIff | extras/gst-playd-client.rb:57-60 | a line is a key of a tag if and only if it is the tag, an underscore, and one digit or more |
| Replies.LabelDropped | extras/gst-playd-client.rb:34-37 | what is left of a reply is what stands after the last ": " |
| Replies.LinesOfText | extras/gst-playd-client.rb:58 | a text without newline is the first of the lines |
| Replies.FoldTags | extras/gst-playd-client.rb:54-66 | the loop over pairs of lines builds the dictionary of the fold, and fails where the client raises |
| Replies.KeyTagOfKey | extras/gst-playd-client.rb:57-60 | the last underscore of a key ends the tag, whatever the tag itself holds |
| Replies.KeyInjective | src/gst-util.c:63 | keys of different tags or indices differ, even for tags ending in an underscore and a number |
| Printer.PrintedSize | src/utility.c:86-97 | the first k entries print to the sum of their measured sizes |
| Printer.CreateMessage | src/utility.c:92-97 | writes one entry and a NUL at the pointer and moves the pointer by the size of the entry |
| Printer.Measure | src/utility.c:102-104 | the first pass measures exactly what is printed |
| Printer.Write | src/utility.c:108-109 | the second pass writes the whole text inside the buffer and NULs behind it |
| Printer.HashTableAsString | src/utility.c:99-112 | the result is the printed table followed by exactly four NULs |
| Tags.RenderBuffer | src/gst-util.c:47-52 | a buffer is rendered to its encoding in a block of exactly its length and a NUL |
| Tags.TagToHashTable | src/gst-util.c:28-65 | inserts each value of a tag under the tag, an underscore and its index: strings as they are, numbers in decimal (64-bit ones with "64" behind), truth values as words, buffers encoded; other keys keep what they had |
| Tags.TagsToHashTable | src/gst-util.c:67-70 | inserts every entry of a tag list in order |
| Tags.AllListsCollected | src/operations/play.c:276-299 | from TAG messages with any lists, up to the first other message, exactly the lists are collected, one after the other |
| Tags.ReplyToLists | src/operations/play.c:282-308 | the reply is then OK with the table of all the lists together, unless the next message is an error and no list holds a value; in that case it is FAIL with the text of the error |
| Tags.TagsParse | src/operations/play.c:254-311 | the collecting loop and its end compute that reply |
| TagsEndToEnd.TableHoldsLatest | src/operations/play.c:276-299 | merging leaves at each key the latest value for that tag and index |
| TagsEndToEnd.TableKeys | src/operations/play.c:276-299 | and there are no other keys |
| TagsEndToEnd.LatestByPosition | src/operations/play.c:276-299 | the latest value is that of the last entry of the last list that gives one for the tag and index, and there is none only if no entry does |
| TagsEndToEnd.PairsOfPrinted | extras/gst-playd-client.rb:57-65 | a printed table without newlines in keys and values is parsed back pair by pair, each value as chomp leaves it |
| TagsEndToEnd.TableComesBack | extras/gst-playd-client.rb:54-66 | for every table with keys of the form that the daemon makes, printed in any order: the client has exactly its values by tag, in that order, if no key or value holds a newline and no value ends in a carriage return; otherwise it does not have them in any order |
| TagsEndToEnd.GatheredIsLatest | src/operations/play.c:276-299 | the merged table holds exactly, for every tag with a value, the latest value of each index once: strings unchanged, numbers and truth values as printed, and buffers as text that decodes to their bytes |
| TagsEndToEnd.TagsReachTheClient | extras/gst-playd-client.rb:54-66 | for all messages and every order of the table, the client's dictionary is these values if and only if no tag and no string among them holds a newline and no such string ends in a carriage return |
| TagsEndToEnd.TagsRequest | src/operations/play.c:254-311 | a whole TAGS request from the lists on the bus to the dictionary or the exception in the client |
| TagsEndToEnd.RenderedIsClean | src/gst-util.c:37-56 | rendered buffers, numbers and truth values never hold a newline or end in a carriage return, so only tags and strings can be lost |
| TagsEndToEnd.WideNumberIsOther | src/gst-util.c:41-42 | a 64-bit number is printed as another number, 100 times it and 64 |
| TagsEndToEnd.FailReachesTheClient | src/operations/play.c:282-287 | an error reply is thrown in the client with the first line of its text |
| TagsEndToEnd.SingleValueComesBack | extras/gst-playd-client.rb:54-66 | in particular, a single value comes back if and only if it holds no newline and does not end in a carriage return |
| Playback.FirstIndex | src/operations/play.c:131-145 | the search stops at the most recently started source with the hash |
| Playback.NoneHasHash | src/operations/play.c:131-145 | it fails if and only if no live source has the hash |
| Playback.PlayStarts | src/operations/play.c:65-94 | PLAY puts a source with the uri of the request and exactly the elements, pad, address and time handed out in front of the list, and adds these to the graph |
| Playback.PlayKeepsInv | src/operations/play.c:65-94 | PLAY keeps addresses and elements apart, the bin and the request pads exactly those of the live sources, and the books balanced |
| Playback.ReleaseKeepsInv | src/operations/play.c:96-121 | releasing any live source keeps all this: it gives back its own pad and elements only |
| Playback.StopIsRelease | src/operations/play.c:326-341 | a successful STOP releases exactly the source that the search finds |
| Playback.StopKeepsInv | src/operations/play.c:326-341 | STOP keeps the invariant whether it succeeds or not |
| Playback.FreeReleasesAll | src/operations/play.c:222-237 | the final free leaves the fixed elements, no request pad, and every started source released |
| Playback.Conservation | src/operations/play.c:222-341 | over every run of PLAY and STOP: list length is PLAYs minus successful STOPs without duplicates, one pad and two elements per source, and after the free each source has been released exactly once |
| Playback.PlaybackContext.SourceNewAndLink | src/operations/play.c:65-94 | adds two elements and one linked request pad |
| Playback.PlaybackContext.SourceFreeAndUnlink | src/operations/play.c:96-121 | gives back the pad that the converter was linked to, and removes the two elements |
| Playback.PlaybackContext.SourceItemFromId | src/operations/play.c:131-145 | the loop finds the first source with the hash |
| Playback.PlaybackContext.OpPlayParse | src/operations/play.c:313-324 | prepends a source with the uri of the request and replies OK with its hash |
| Playback.PlaybackContext.OpStopParse | src/operations/play.c:326-341 | removes and releases the source found and replies OK with the id, or replies FAIL and changes nothing |
| Playback.PlaybackContext.OpPlaybackFree | src/operations/play.c:222-237 | releases every source in list order |
| Registry.LastListingWins | src/parser.c:63-97 | a prefix belongs to the last accepted plugin that lists it, and otherwise to no one |
| Registry.ContextsFreedOnce | src/parser.c:55-97 | every context made is freed exactly once: refused ones at once, the others in reverse order of registration |
| Registry.RefusedChangeNothing | src/parser.c:72-77 | table and list are those of registering the accepted plugins alone |
| Registry.ParseCtx.RegisterPlugin | src/parser.c:63-97 | the loop registers every message of an accepted plugin, and frees the context of a refused one |
| Registry.DispatchReachesLast | src/parser.c:99-137 | a message calls a handler with a parameter if and only if, without one line break at its end, it holds no other, is cut into a prefix and this parameter, and the last accepted plugin that lists the prefix lists it with this handler |
| Registry.ParseCtx.ParseFree | src/parser.c:55-61 | frees the contexts in list order and empties table and list |
| EndToEnd.DaemonRoutes | src/parser.c:63-97 | the daemon's table holds the seven prefixes of its three plugins with their handlers and contexts, or the first three if the playback plugin is refused, and no others |
| EndToEnd.RequestArrives | src/parser.c:99-137 | a formatted request with any registered prefix reaches its handler with its parameter |
| EndToEnd.RequestsArrive | src/parser.c:99-137 | each of the seven prefixes as written, a blank and any non-empty parameter without line breaks call the handler of that prefix with the parameter, or are rejected if the playback plugin was |
| EndToEnd.ClientIdIsDecimal | extras/gst-playd-client.rb:34-37 | the client extracts the printed id from the reply to PLAY |
| EndToEnd.IdSurvives | src/operations/play.c:323-330 | that id, sent in a STOP, reaches the STOP handler and is read as the hash of the source |
| EndToEnd.StopHitsIntended | src/operations/play.c:326-341 | in any state, the STOP for a live source stops this source if and only if none before it in the list has the same hash |
| EndToEnd.StopOfGoneSource | src/operations/play.c:333-335 | the STOP fails, changing nothing, if and only if no live source has the hash |
| EndToEnd.PlayReplyRead | src/operations/play.c:323 | the reply to PLAY and the text that the client takes from it |
| EndToEnd.StopReplyRead | src/operations/play.c:333-340 | the client gets "player id: " and the id from a STOP if a live source has it, and the exception "id is invalid" if none has |
| EndToEnd.PlayThenStopRestores | src/operations/play.c:313-341 | PLAY directly followed by its STOP restores list and graph, and the client gets the id back |
| EndToEnd.BareCommandDispatch | src/parser.c:104-124 | with any table, a message of capitals alone calls the handler of the message without its last letter, if that is registered, and is rejected otherwise |
| EndToEnd.BarePrefixIsRejected | src/parser.c:104-124 | every prefix that the daemon registers is rejected when sent alone |
| EndToEnd.BareStopIsRejected | src/parser.c:104-124 | so a bare STOP is |
| StartOrder.ListIsInStartOrder | src/operations/play.c:313-341 | after every run of PLAY and STOP the list holds the sources started and not stopped, the latest first, where each STOP stops the latest one with its hash |
| StartOrder.LiveSourcesPlay | src/operations/play.c:313-341 | the k-th source of the list plays the uri of the PLAY that is the k-th live start, with what was handed out to it |
| StartOrder.LiveIffSurvives | src/operations/play.c:313-341 | a start is live after a run if and only if at no time since had more STOPs with its id come than PLAYs with its hash; the excess is then the number of later live ones with that hash |
| StartOrder.StopOverRun | src/operations/play.c:326-341 | after any run, the STOP for an earlier PLAY that is live stops that PLAY's source if and only if PLAYs with its hash and STOPs with its id have come in equal numbers since |

## Left out

- ReadBase64.ReadBase64: takes a bound on the passes of the outer loop, which the function does not have, because on some streams that loop does not end.
- Streaming.ReadIsCaught: needs a window that begins with a sextet, because a refill may drop a character outside the table that stands before it; Streaming.ReturnsIffNoRefillStalls is the exact condition.
- Tags.TagsParse: needs a message that is not TAG among those that come, since the daemon waits for one, and a printed table below 2^31 characters.
- Tags.Render: floating-point numbers, dates and values of unknown kinds are given in the text that they are rendered to, and `unsigned long` is taken to have 64 bits.
- Playback.IsFresh: the allocator and GStreamer hand out nothing that is in use.
- Playback.Hash: the printed text that is hashed, its 2048-byte buffer and the hash function are one unknown function from sources to 32-bit ids.
- The FAIL reply of PLAY, which no path of the code reaches, and aborts by `g_error`.
- Element states, the link from decoder to converter made by the pad-added callback, bus callbacks and graph dumps.
- Sockets, the main loop, signals and options, and the handlers for PING, PUBSUB, QUIT and DUMPGRAPH beyond their dispatch.
- Read and write errors of streams: a stream is a finite text with an end, and every write succeeds.
- Releasing C memory, except for the release of sources and plugin contexts.
