# Verified models of the firmware's data handling

The firmware talks HTTP, WebSocket and JSON on a microcontroller. This project models, in Dafny, the parts that only
work on data, and proves what they promise:

* the HTTP/1.x parsers and the in-place decoder for chunked bodies (`http_parser.c`): `Chunked.dfy`
  and `Http*.dfy`, where `ChunkedCoding.dfy`, `HttpRendering.dfy` and `HttpMessages.dfy` say which texts are accepted,
  `HttpAnswers.dfy` and `HttpResponseAnswers.dfy` what the other two answers mean, and `HttpBlankLine.dfy` what the
  pre-check looks for;
* the JSON library (`cjson.c`): strings in `JsonString.dfy`, `JsonLiterals.dfy` and `JsonUnicode.dfy`, trees and their text in
  `JsonTree.dfy`, the parser in `JsonGrammar.dfy` and `JsonParser.dfy`, the texts that it accepts in `JsonTokens.dfy`,
  `JsonNumbers.dfy`, `JsonSpelling.dfy` and `JsonDocuments.dfy`, the round trip in `JsonRoundTrip.dfy`, the
  growing output buffer in `JsonPrinter.dfy`, the minifier in `JsonMinify.dfy`, `JsonMinifyParts.dfy` and `JsonMinifyText.dfy`, the child
  list in `JsonChildList.dfy`, and the tree in memory that parser and printer share in `JsonNodes.dfy`;
* the WebSocket client (`ws_client.c`): assembly of frames and messages in `WsReceive.dfy` (values) and
  `WsClient.dfy` (the chain of frames), the encoder in `WsSend.dfy`;
* the image checksum of the boot loader (`bootloader_common.c`): `Crc32.dfy`, `Crc32Polynomial.dfy`;
* the URL splitter (`url_parser.c`): `Url.dfy`, and `UrlText.dfy` with the URLs that are accepted;
* the send queue of the TCP client (`tcp_client.c`, `lists.c`): `TcpClient.dfy`, `Lists.dfy`.

Statements about texts name their characters: renderings, spellings and field sets are written out and share no
constant and no test of characters with the parsers.

What the C code does step by step is a method with loops over arrays or linked nodes, proved equal to a specification
function; what the code is for is proved about these functions as lemmas. `size_t` has 32 bits, as on the target.

`dafny verify dfyconfig.toml` checks everything.

## What the proofs show about the code

* The sum in `dispatch_message` counts the last frame of a fragmented message twice and leaves out the first one.
  What it allocates is enough exactly when the first payload is at most one byte longer than the last one
  (`WsReassembly.DispatchFits`; `WsReassembly.OverrunHappens` gives eight bytes that overrun it); reassembly is proved for all messages
  for which this holds, and up to the first one for which it does not (`WsReassembly.RunDelivers`).
* `cJSON_PrintPreallocated` needs one byte beyond the terminator, not five (`JsonPrinter.PrintPreallocated`).
* `parse_string` always has a byte to spare beyond the terminator (`JsonString.OutputFits`).
* `add_item_to_array` on a list that is not empty leaves the `next` of the item as it was, so the item must come in
  with a null `next` (`JsonChildList.AddItemToArray`, with a case in `JsonChildList.AppendKeepsOldLink`). Adding or
  inserting an item that is already in the list leaves links that are no child list of any nodes.
* An answer of -2 of `phr_parse_request` or `phr_parse_response` does not always mean that more text can help: an empty
  method, a wrong version or status and text without a space behind the status are looked at late
  (`HttpAnswers.RequestAnswersMean`, `HttpResponseAnswers.ResponseAnswersMean`).
* `cJSON_Minify` takes out a slash that begins no comment (`JsonMinifyParts.MinifiedIsKept`).
* `cJSON_Minify` takes the quote behind an escaped backslash for an escaped quote (`JsonMinifyText.MinifyUnformats`).
* `phr_parse_headers` misses an empty block that arrives in pieces (`HttpTheorems.HeadersShortcutExact`, with the case
  in `HttpTheorems.HeadersShortcutMissesEmptyBlock`).
* The shortcuts of `phr_parse_request` and `phr_parse_response` never change a success, but they can say -1 where the
  full parse says -2, and -2 where it says -1 (`HttpTheorems.RequestRefusedEarly`, `HttpTheorems.RequestRefusedLate`,
  `HttpTheorems.ResponseAnswersDiffer`). `HttpTheorems.RequestShortcutExact` and `HttpTheorems.ResponseShortcutExact` say
  exactly when the answers are the same.
* `url_parse` keeps field lengths in 16 bits, so fields of 65536 bytes and more are cut (`UrlSplitter.Lossless`,
  with a case in `UrlSplitter.LongHostIsCut`).
* A frame above 65535 bytes does not reach the TCP queue whole (`WsSend.WholeFrameIsQueued`, with a case in
  `WsSend.LongFrameIsLost`).
* The byte order mark is not seen in a buffer of four bytes or less, so a mark and one digit are refused when no
  terminator follows (`JsonDocuments.PrefixesAreSpellings`, `JsonDocuments.MarkNotSeen`).
* The checksum misses exactly those changes of an image whose bit stream is a multiple of the generator
  (`Crc32Polynomial.SameChecksum`).
* The chunked decoder takes more than section 4.1 of RFC 7230 allows: a bare LF behind the size line, and none or
  several CR before the LF behind the data (`ChunkedCoding.DecodedAreCodings` has the whole list).

## Model

| member | source | states |
|---|---|---|
| ChunkedDecoder.PhrChunkedDecoder.Decode | firmware/net/http_parser.c:578-708 | The call equals the byte automaton run over its input: decoded bytes in front, the undecoded tail unchanged right after them, nothing beyond the input touched, the fields those of the automaton, and -2 only when every byte was consumed. |
| ChunkedDecoder.PhrChunkedDecoder.Part | firmware/net/http_parser.c:585-695 | One turn of the switch moves the run along: what was decoded so far and what the automaton still makes of the rest are together the whole run. |
| ChunkedDecoder.PhrChunkedDecoder.ReadSize | firmware/net/http_parser.c:587-611 | The size loop is the automaton on the digits, with the error for too many digits or none. |
| ChunkedDecoder.PhrChunkedDecoder.SkipExt | firmware/net/http_parser.c:613-635 | The extension loop runs to the line end; a size of zero leads to the end or to the trailers. |
| ChunkedDecoder.PhrChunkedDecoder.CopyData | firmware/net/http_parser.c:637-655 | Payload is moved down, as much as the chunk and the input hold. |
| ChunkedDecoder.MoveDown | firmware/net/http_parser.c:642-652 | Moving bytes down in the same buffer keeps what is before and behind. |
| ChunkedAutomaton.SizeNeverWraps | firmware/net/http_parser.c:602-608 | The running size stays below 16 to the number of digits, so the multiplication never wraps at 32 bits. |
| ChunkedAutomaton.StepKeepsReachable | firmware/net/http_parser.c:587-695 | Every byte keeps the invariant of the decoder's three fields. |
| ChunkedAutomaton.RunKeepsReachable | firmware/net/http_parser.c:578-708 | So does every input. |
| ChunkedAutomaton.SplitInvariance | firmware/net/http_parser.c:578-708 | Decoding A and then B gives the bytes, the state, the verdict and the position of decoding A ++ B, for any cut. |
| ChunkedAutomaton.AnyCutDecodesTheSame | firmware/net/http_parser.c:578-708 | The same for any number of calls, down to one byte per call. |
| ChunkedAutomaton.RunOfConcat | firmware/net/http_parser.c:578-708 | A run over a longer input agrees with the run over its beginning and goes on from its state. |
| Bytes.HexDigitIs | firmware/net/http_parser.c:477-495 | The sixteen digits are read by their places in 0123456789abcdef and in 0123456789ABCDEF, and no other byte is one. |
| ChunkedCoding.TakesDigits | firmware/net/http_parser.c:587-611 | Up to eight hexadecimal digits in either case leave the number that they spell as the size. |
| ChunkedCoding.TakesChunk | firmware/net/http_parser.c:587-672 | A chunk is taken whole, gives its data, and leaves the decoder as it was: any extension, a bare LF at the end of the size line, and any number of CR before the LF behind the data. |
| ChunkedCoding.CodingDecodes | firmware/net/http_parser.c:578-708 | Every coding, put together from non-empty chunks, a last size line and, when they are consumed, trailer lines, gives exactly its body and ends exactly at its end, whatever follows. The codings of section 4.1 of RFC 7230, which have one CR before each LF, are among them. |
| ChunkedCoding.DecodedIsCoding | firmware/net/http_parser.c:578-708 | Every input on which the decoder reaches its end begins with such a coding. |
| ChunkedCoding.DecodedAreCodings | firmware/net/http_parser.c:578-708 | Both directions: the inputs decoded to their end, with this body and this number of bytes consumed, are exactly those that begin with a coding of that body and length. |
| ChunkedCoding.AnswersMean | firmware/net/http_parser.c:578-708 | From any reachable state: -2 exactly when more input can still complete the body, -1 exactly when no input that begins like this can. |
| HttpParser.GetTokenToEol | firmware/net/http_parser.c:115-175 | The scan that looks at eight bytes a turn answers as a plain scan to the first control character. |
| HttpParser.IsCompleteLoop | firmware/net/http_parser.c:177-210 | The pre-check answers n when a blank line comes from three bytes before the place given, before any bare CR; else -1 when there is a bare CR, else -2. |
| HttpParser.ParseToken | firmware/net/http_parser.c:232-269 | Token, bad character or partial text, as specified. |
| HttpParser.AdvanceToken | firmware/net/http_parser.c:48-71 | The text up to a space, refusing control characters. |
| HttpParser.FillHeaders | firmware/net/http_parser.c:291-360 | The header loop fills the array with exactly the headers of the specification, never more than it holds. |
| HttpParser.ReadHeaderLine | firmware/net/http_parser.c:313-357 | One header or continuation line, with the trailing blanks cut off. |
| HttpParser.ReadRequestLine | firmware/net/http_parser.c:376-416 | Method, path and version with the errors in the order of the source. |
| HttpParser.ReadReason | firmware/net/http_parser.c:448-472 | Leading spaces of the reason phrase are stripped, text without a space before it is refused. |
| HttpParser.ReadStatusLine | firmware/net/http_parser.c:421-472 | Version, three status digits and the reason. |
| HttpParser.PhrParseRequest | firmware/net/http_parser.c:503-528 | The number consumed, -1 or -2, and on success the slices, for any last_len. |
| HttpParser.PhrParseResponse | firmware/net/http_parser.c:530-554 | The same for responses. |
| HttpParser.PhrParseHeaders | firmware/net/http_parser.c:556-576 | The same for header blocks. |
| HttpStability.RequestFinal | firmware/net/http_parser.c:362-419 | Prefix stability: an answer other than -2 stays under any appended bytes; a success depends on the bytes it consumed only, and is also given on exactly these. |
| HttpStability.ResponseFinal | firmware/net/http_parser.c:421-475 | The same for responses. |
| HttpStability.HeadersFinal | firmware/net/http_parser.c:556-576 | The same for header blocks. |
| HttpStability.HeadersStable | firmware/net/http_parser.c:291-360 | The header loop decides by the bytes up to where it stopped, for every list of headers before. |
| HttpTheorems.RequestShortcutSound | firmware/net/http_parser.c:503-528 | If the first last_len bytes were partial, the call with last_len succeeds exactly when the full parse does and with its answer; its -1 means that no continuation is ever accepted. |
| HttpTheorems.ResponseShortcutSound | firmware/net/http_parser.c:530-554 | The same for responses. |
| HttpTheorems.RequestShortcutExact | firmware/net/http_parser.c:503-528 | For every answer of the full parse, exactly when the shortcut gives the same: always for a success; else when there is a blank line in its range, or the full parse says -1 and a bare CR is there, or -2 and none is. |
| HttpTheorems.ResponseShortcutExact | firmware/net/http_parser.c:530-554 | The same for responses. |
| HttpTheorems.ShortcutExact | firmware/net/http_parser.c:516-527 | The condition for any parser behind the same pre-check. |
| HttpTheorems.RequestRefusedEarly | firmware/net/http_parser.c:503-528 | A request on which the shortcut says -1 while the full parse says -2. |
| HttpTheorems.RequestRefusedLate | firmware/net/http_parser.c:503-528 | A request on which the shortcut says -2 while the full parse says -1. |
| HttpTheorems.ResponseAnswersDiffer | firmware/net/http_parser.c:530-554 | Both cases for responses. |
| HttpBlankLine.BlankLineMeans | firmware/net/http_parser.c:177-210 | The loop finds a line end right behind another one with no bare CR before it, and only then; and it says -1 exactly when there is none and a bare CR comes, from any place and with or without a line end just passed. |
| HttpBlankLine.FoundWhenBlank | firmware/net/http_parser.c:177-210 | Any blank line without a bare CR before it makes the loop succeed. |
| HttpBlankLine.BadWhenBareCr | firmware/net/http_parser.c:177-210 | Without success, -1 means a bare CR. |
| HttpMessages.RequestsAreRenderings | firmware/net/http_parser.c:362-419 | The requests accepted, the number of bytes consumed and the slices returned are exactly those of the texts that can be put together from an optional empty line, a method token, a path, a version and at most max header lines. |
| HttpMessages.ResponsesAreRenderings | firmware/net/http_parser.c:421-475 | The same for responses: version, three digits, a reason phrase behind spaces, header lines. |
| HttpMessages.HeaderBlocksAreRenderings | firmware/net/http_parser.c:556-576 | The same for header blocks. |
| HttpMessages.RenderedRequestParses | firmware/net/http_parser.c:362-419 | A request from its parts, whatever follows it, is parsed to its slices, or refused when its headers outnumber the array. |
| HttpMessages.AcceptedRequestIsRendered | firmware/net/http_parser.c:362-419 | Every accepted request has such parts, and its slices are theirs. |
| HttpMessages.RenderedResponseParses | firmware/net/http_parser.c:421-475 | A response from its parts is parsed to its slices, or refused. |
| HttpMessages.AcceptedResponseIsRendered | firmware/net/http_parser.c:421-475 | Every accepted response has such parts. |
| HttpMessages.RequestLineReads | firmware/net/http_parser.c:376-416 | A rendered request line is read to its end. |
| HttpMessages.ReasonReads | firmware/net/http_parser.c:448-472 | A rendered reason phrase is read without the spaces before it. |
| HttpAnswers.HeaderAnswersMean | firmware/net/http_parser.c:556-576 | For header blocks, -2 means exactly that some continuation is accepted, and -1 that none is. |
| HttpAnswers.RequestAnswersMean | firmware/net/http_parser.c:362-419 | For requests, -2 means exactly that some continuation is accepted, or that the request line is one of those described byte by byte whose error is not looked at yet: no method before the spaces, or fewer than nine bytes that begin no HTTP/1.x behind the path. Everything else that is not accepted is -1. |
| HttpAnswers.DelayedIsNeverAccepted | firmware/net/http_parser.c:376-399 | Such a line is the beginning of no request. |
| HttpAnswers.PartialIsBeginning | firmware/net/http_parser.c:376-416 | Where the request line is partial, the text is a method, spaces, a path, spaces and the beginning of a version, as far as it goes. |
| HttpResponseAnswers.ResponseAnswersMean | firmware/net/http_parser.c:421-475 | The same for responses: what is not looked at yet is a version below nine bytes, a status before the byte behind it, and a reason phrase before the end of its line. |
| HttpResponseAnswers.DelayedResponseIsNeverAccepted | firmware/net/http_parser.c:421-475 | Such a status line is the beginning of no response. |
| HttpRendering.BlockReads | firmware/net/http_parser.c:291-360 | Rendered header lines are taken one by one up to the empty line; more lines than room are refused. |
| HttpRendering.BlockWasRead | firmware/net/http_parser.c:291-360 | Every accepted block is a rendering of lines. |
| HttpRendering.LineReads | firmware/net/http_parser.c:313-357 | A rendered header line gives the slices of its name and of its value, without the blanks around it. |
| HttpRendering.LineWasRead | firmware/net/http_parser.c:313-357 | Every accepted line is a rendering. |
| HttpTheorems.HeadersShortcutExact | firmware/net/http_parser.c:556-576 | For header blocks and every answer of the full parse, when the shortcut agrees: a success is missed exactly when the earlier call saw a CR alone and no blank line follows; the other answers are as for requests. |
| HttpTheorems.HeadersShortcutMissesEmptyBlock | firmware/net/http_parser.c:556-576 | The concrete case: CR LF arriving in two pieces stays partial. |
| HttpRendering.TokenCharIsTchar | firmware/net/http_parser.c:13-21 | The table holds exactly the tchar set of section 3.2.6 of RFC 7230. |
| HttpTheorems.HeadersGood | firmware/net/http_parser.c:291-360 | Every header is a slice of the consumed bytes, in order and disjoint; the name is a non-empty token or absent on a line that is not the first; the value has no control byte but tab and no trailing blank. |
| HttpTheorems.RequestShape | firmware/net/http_parser.c:362-419 | Method and path are non-empty, in order, before the headers, and of their alphabets. |
| HttpTheorems.ResponseShape | firmware/net/http_parser.c:421-475 | The reason phrase lies within its line, ends at the line end, and has no leading space. |
| HttpTheorems.HeadersShape | firmware/net/http_parser.c:556-576 | The header block satisfies the same on its own. |
| Crc32.Generate | firmware/config/default/bootloader/bootloader_common.c:100-133 | The table-driven loop computes the bit-serial reflected CRC-32 without final complement, on every byte sequence. |
| Crc32.FillTable | firmware/config/default/bootloader/bootloader_common.c:107-123 | Entry k is eight conditional shifts of k. |
| Crc32.FeedByte | firmware/config/default/bootloader/bootloader_common.c:111-129 | Eight bit feeds of a byte are eight shifts of the register with the byte folded in. |
| Crc32.ShiftByFeeds | firmware/config/default/bootloader/bootloader_common.c:111-121 | Linearity: the low bits are fed, the rest is carried along. |
| Crc32.TableStep | firmware/config/default/bootloader/bootloader_common.c:129-129 | Eight shifts are one table look-up and a shift by eight. |
| Crc32.OneMoreByte | firmware/config/default/bootloader/bootloader_common.c:125-130 | One more byte of image is one look-up. |
| Crc32.RegisterIsReversedRemainder | firmware/config/default/bootloader/bootloader_common.c:100-133 | In the opposite bit order, the register goes through the steps of long division by the generator of section 3.2.9 of IEEE 802.3. |
| Crc32Polynomial.RegisterIsRemainder | firmware/config/default/bootloader/bootloader_common.c:100-133 | These steps are polynomial division: message times the 32nd power, register in front, is quotient times generator plus register, and quotient and remainder are the only ones. |
| Crc32Polynomial.ChecksumIsRemainder | firmware/config/default/bootloader/bootloader_common.c:100-133 | The checksum of an image, read in the opposite bit order, is that remainder, from a register of ones. |
| Crc32Polynomial.DivisorIs | firmware/config/default/bootloader/bootloader_common.c:107-123 | The generator is the sum of the powers 32, 26, 23, 22, 16, 12, 11, 10, 8, 7, 5, 4, 2, 1 and 0. |
| Crc32.FeedBitsInjective | firmware/config/default/bootloader/bootloader_common.c:111-130 | Equal bits into different registers leave different registers: the register can be run backwards. |
| Crc32.MeetingRegisters | firmware/config/default/bootloader/bootloader_common.c:111-130 | Registers that meet after m at most 31 bits differed in their lowest m bits only. |
| Crc32.BurstDetected | firmware/config/default/bootloader/bootloader_common.c:100-133 | Two bit streams that differ within one run of at most 32 bits have different checksums. |
| Crc32.WindowDetected | firmware/config/default/bootloader/bootloader_common.c:100-133 | Two images of equal length that differ only inside one window of at most four consecutive bytes have different checksums. |
| Crc32Polynomial.SameRemainder | firmware/config/default/bootloader/bootloader_common.c:100-133 | Two messages of the same length leave the same remainder, from any register, exactly when their difference is a multiple of the generator. |
| Crc32Polynomial.SameChecksum | firmware/config/default/bootloader/bootloader_common.c:100-133 | Two images of the same size have the same checksum exactly when the difference of their bit streams is a multiple of the generator. |
| UrlParser.UrlParse | firmware/net/url_parser.c:41-323 | Null exactly for the URLs that the specification refuses, else a new structure with its fields. |
| UrlParser.FillUser | firmware/net/url_parser.c:117-185 | User name and password, only when an at sign comes before the first slash. |
| UrlParser.FillTail | firmware/net/url_parser.c:251-320 | Path, query and fragment; absent and empty are kept apart. |
| UrlSplitter.Lossless | firmware/net/url_parser.c:41-323 | Joining the fields of an accepted URL gives it back with only the scheme lower-cased, exactly when every field is shorter than 65536 bytes, as in every URL that is. |
| UrlSplitter.LongHostIsCut | firmware/net/url_parser.c:195-221 | A host of 65537 bytes is accepted and comes back as one byte. |
| UrlSplitter.SplitOfJoin | firmware/net/url_parser.c:41-323 | Splitting the join of any well-formed field set returns it. |
| UrlSplitter.SplitIsTaken | firmware/net/url_parser.c:41-323 | Every result for a URL of less than 65536 bytes is a set of fields that the stages take, so for these splitting and joining are inverse to each other. |
| UrlText.UrlsAreTexts | firmware/net/url_parser.c:41-323 | Below 65536 bytes, splitting gives these fields exactly when they are well formed, said character by character, and the URL is their text but for capital letters in the scheme. |
| UrlText.RefusedUrls | firmware/net/url_parser.c:41-323 | Below 65536 bytes, null is returned exactly for the texts of no well-formed fields. |
| UrlText.SchemeCharIs | firmware/net/url_parser.c:30-33 | Letters and + - . make a scheme, capital letters become small ones; no digit is among them. |
| UrlText.WellFormedIs | firmware/net/url_parser.c:41-323 | The fields that the stages take are the well-formed ones. |
| UrlSplitter.SplitWhenFieldsFit | firmware/net/url_parser.c:41-323 | The 16-bit lengths make no difference when every field fits. |
| Lists.NewNode | firmware/lists.c:16-41 | A node with a copy of the data, or none for no data. |
| Lists.List.Push | firmware/lists.c:43-56 | The node, with whatever hangs from it, comes behind the last one, walking the links. |
| Lists.List.Pull | firmware/lists.c:58-67 | The first node comes off, the rest stays in order. |
| Lists.List.Delete | firmware/lists.c:83-92 | Pulling until nothing is left. |
| TcpClient.Client.Send | firmware/net/client/tcp_client.c:417-452 | On an established connection the data of the queue are what they were and one more message of exactly the given bytes, none for no data, and the answer is 0; otherwise nothing changes and it is -4. |
| TcpClient.Client.TxTask | firmware/net/client/tcp_client.c:102-144 | One turn of the sender is the transition of the model, for any capacity of the socket, any sends from inside the callback, and a close or reset at its end. |
| TcpClient.Client.Connected | firmware/net/client/tcp_client.c:244-298 | A new connection starts with an empty stream; the callback may send, close or reset. |
| TcpClient.Client.Task | firmware/net/client/tcp_client.c:164-343 | Every turn of the state machine keeps the invariant and leads to the state that the answers call for; within a connection it is one turn of the sender; closing empties the queue. |
| TcpClient.Client.CloseClient | firmware/net/client/tcp_client.c:478-499 | Closing leaves the queue to the next turn of `tcp_client_task`. |
| TcpClient.Client.Reset | firmware/net/client/tcp_client.c:345-364 | A reset leaves no socket and no queue. |
| TcpStream.TurnKeepsInv | firmware/net/client/tcp_client.c:102-144 | A turn keeps: the messages out in full have left the queue, and the stream is these and the sent part of the next one. |
| TcpStream.RunKeepsInv | firmware/net/client/tcp_client.c:102-144 | So does every run. |
| TcpStream.EveryRunConserves | firmware/net/client/tcp_client.c:102-144 | In every run, whatever room the socket reports: the bytes written and the bytes that wait are together the data handed over by the application, in order, in calls and in the callbacks of completed messages; the event fired once for each non-empty message that is out in full, and for no other. |
| TcpStream.RunAccepts | firmware/net/client/tcp_client.c:417-447 | The messages accepted are the ones handed over, but for empty ones. |
| TcpStream.TurnWrites | firmware/net/client/tcp_client.c:102-144 | A turn writes as much of the message under way as there is room for. |
| TcpStream.QueueDrains | firmware/net/client/tcp_client.c:102-144 | Turns with room for at least one byte each empty the queue after a number of turns that is known in advance. |
| WsClient.CompleteFrame | firmware/net/client/ws_client.c:148-192 | Complete, incomplete or masked, with opcode, offset and length, as the frame layout says for all three length forms. |
| WsClient.DispatchMessage | firmware/net/client/ws_client.c:263-332 | The walk back over the chain and the copy forward give the message, as the memory allocated allows. |
| WsClient.FirstFrame | firmware/net/client/ws_client.c:285-290 | The walk back ends at the first frame; its sum counts the last frame twice, once there are two, and never the first. |
| WsClient.WsClientData.InData | firmware/net/client/ws_client.c:334-447 | One byte changes the chain and calls back exactly as the model says, and asks for the connection to be closed for a masked frame and a close frame. |
| WsClient.WsClientData.FinishFrame | firmware/net/client/ws_client.c:391-438 | A complete frame is handled, delivered or kept as a fragment. |
| WsClient.WsClientData.HandleControlFrame | firmware/net/client/ws_client.c:232-247 | A control frame leaves the fragments before it alone and gives its place back. |
| WsClient.WsClientData.Receive | firmware/net/client/ws_client.c:660-668 | The loop over received bytes is the model on the whole input, and asks for the connection to be closed when a masked frame or a close frame was in it. |
| WsReassembly.ParseOfEncoded | firmware/net/client/ws_client.c:148-192 | A frame is found complete exactly at its last byte, in every length form. |
| WsReassembly.FeedFrame | firmware/net/client/ws_client.c:334-447 | Feeding the bytes of a frame has the effect of the frame, from any point inside it. |
| WsReassembly.MaskedFrameStops | firmware/net/client/ws_client.c:159-163 | A frame with its mask bit set is never finished: each byte from the second on reports it, and nothing is delivered. |
| WsReassembly.FeedPieces | firmware/net/client/ws_client.c:334-447 | A message in any fragments, with control frames between them, gives its control frames in order and then one message. |
| WsReassembly.DispatchFits | firmware/net/client/ws_client.c:285-299 | The copy stays inside its memory exactly when the first payload is at most one byte longer than the last one. |
| WsReassembly.OverrunHappens | firmware/net/client/ws_client.c:263-301 | The eight bytes of a text message of three bytes and then one, fed to the client, end in an overrun. |
| WsReassembly.DispatchOfMsg | firmware/net/client/ws_client.c:263-332 | A message that fits is delivered with the first fragment's opcode and the whole payload. |
| WsReassembly.RunDelivers | firmware/net/client/ws_client.c:334-447 | Reassembly as in section 5.4 of RFC 6455: any run of unmasked messages is delivered once each, in order, with opcode and payload, whatever the cuts, the length forms and the control frames before, between and after, exactly when every message fits; else up to the first that does not. |
| WsReassembly.BigEndianOfBytes8 | firmware/net/client/ws_client.c:164-185 | The length bytes of a frame give its length back. |
| WsReassembly.LengthIs | firmware/net/client/ws_client.c:164-190 | The length fields byte by byte. |
| WsSend.BuildFrame | firmware/net/client/ws_client.c:836-895 | The loops of ws_client_send fill memory of exactly frame_size bytes with the masked text frame. |
| WsSend.ReceiverReadsText | firmware/net/client/ws_client.c:833-895 | A reader by sections 5.2 and 5.3 of RFC 6455, with its own arithmetic for lengths and bits, finds one final text frame in the shortest length form; unmasking gives the text back, and the frame ends where it should. |
| WsSend.MaskTwice | firmware/net/client/ws_client.c:894-895 | Masking twice gives the payload back. |
| WsSend.XorIs | firmware/net/client/ws_client.c:894-895 | The mask is the exclusive or of each bit. |
| WsSend.Bytes8At | firmware/net/client/ws_client.c:874-889 | The byte loop over the memory of the length writes it most significant byte first. |
| WsSend.WholeFrameIsQueued | firmware/net/client/ws_client.c:899-899 | The 16-bit length of tcp_client_send keeps the frame whole exactly up to 65527 bytes of text. |
| WsSend.LongFrameIsLost | firmware/net/client/ws_client.c:899-899 | The case of 65528 bytes of text: the size that arrives is 0. |
| JsonString.MeasureString | firmware/cjson.c:803-834 | The first pass finds the closing quote and counts the escapes, or fails at the end of the text. |
| JsonString.UnescapeInto | firmware/cjson.c:836-892 | The second pass writes the decoded string and its terminator, every write inside the memory that the first pass asked for. |
| JsonString.NextBoundary | firmware/cjson.c:806-820 | Where the first pass cut the text, seen from any place of the second pass. |
| JsonString.PieceFits | firmware/cjson.c:838-889 | Every piece of the second pass has room, although bad digits after \u can put the two passes out of step. |
| JsonString.OutputFits | firmware/cjson.c:803-894 | The output is never longer than the first pass counted, so the terminator always fits and one byte stays free; this is stronger than the allocation promises. |
| JsonString.ParseHex4 | firmware/cjson.c:632-665 | The loop gives the number that four digits in either case spell, or zero for anything else. |
| JsonString.Hex4Means | firmware/cjson.c:632-665 | The number that four hexadecimal digits spell, or zero when one of the bytes is no digit. |
| JsonString.EncodeUtf8 | firmware/cjson.c:735-777 | The loop from the last byte to the first writes the bytes of the table in section 3 of RFC 3629. |
| JsonString.Utf16LiteralToUtf8 | firmware/cjson.c:669-787 | A literal or a surrogate pair in UTF-8, or failure, as specified. |
| JsonString.StringRoundTrip | firmware/cjson.c:790-1039 | What the printer writes for a string, wherever it stands, the parser measures and decodes back, for all bytes. |
| JsonString.PieceOfEscape | firmware/cjson.c:993-1034 | Each escape is one piece, means its byte, and is one step of the first pass. |
| JsonLiterals.EndIs | firmware/cjson.c:802-828 | The first pass finds the quote behind a content of bytes other than quote and backslash and of backslashes with any byte behind them, and no other quote. |
| JsonLiterals.MeaningIs | firmware/cjson.c:830-894 | The second pass gives an output exactly when the content is put together from plain bytes, the eight short escapes, four-digit codes and surrogate pairs that stand for it; codes with another byte than a digit count as zero. |
| JsonLiterals.QuotedIs | firmware/cjson.c:920-1039 | Printed strings byte by byte: which bytes are escaped, and how. |
| JsonUnicode.SpelledLiteral | firmware/cjson.c:790-894 | A quoted text whose parts are plain bytes, short escapes and \uXXXX literals or surrogate pairs, in any mixture, is a literal of the string that the parts stand for, up to a zero byte. |
| JsonUnicode.PiecesDecode | firmware/cjson.c:790-894 | Both passes go over such parts one by one, wherever they stand, and the output is what they stand for. |
| JsonUnicode.LiteralsDecode | firmware/cjson.c:632-894 | Any Unicode scalar values written as \uXXXX literals or surrogate pairs (section 7 of RFC 8259), digits in either case, come out as their UTF-8 text. |
| JsonUnicode.Utf8ReadsBack | firmware/cjson.c:735-777 | A reader by section 4 of RFC 3629 gets the characters back from the encoding. |
| JsonRoundTrip.TreeRoundTrip | firmware/cjson.c:1113-1858 | Parsing the printed text, formatted or not, with or without terminator, gives the tree back and consumes the whole text exactly when the nesting is at most 1000; a deeper tree is refused. |
| JsonRoundTrip.PrinterSpells | firmware/cjson.c:1393-1858 | What is printed for a tree, formatted or not, at any depth, is one of its spellings: null, false, true and punctuation as written out; when formatted, a space behind the comma in arrays, and in objects a line break and tabs before each name, a tab behind its colon, and a line break and tabs before the closing brace. |
| JsonDocuments.DocumentsAreSpellings | firmware/cjson.c:1113-1191 | With the terminator demanded, the accepted buffers are exactly these: an optional byte order mark, white space, any spelling of a tree that is at most 1000 deep, white space, one zero byte. The tree returned is the one spelled, and the end is the zero byte. |
| JsonDocuments.PrefixesAreSpellings | firmware/cjson.c:1113-1191 | Without that demand: n bytes are taken, with nothing behind them that goes on with a number, exactly when they are a document that ends with its value; a byte order mark in a buffer of at most four bytes is not seen. |
| JsonDocuments.MarkNotSeen | firmware/cjson.c:1082-1095 | The case: a mark and one digit are refused without a terminator and read with one. |
| JsonDocuments.DocumentReads | firmware/cjson.c:1113-1191 | A document and its terminator are read to the end as the tree spelled, or refused when that is nested too deeply. |
| JsonDocuments.DocumentWasWritten | firmware/cjson.c:1113-1191 | Every accepted buffer is such a document. |
| JsonSpelling.SpellingReads | firmware/cjson.c:1338-1390 | Any spelling of a value, at any place and depth, followed by anything that does not continue a number, is read as that value, or refused when it is nested too deeply: any white space between tokens, leading zeros, strings in any form. |
| JsonSpelling.ValueWasSpelled | firmware/cjson.c:1338-1390 | Every value read, unless a longer number begins there, has a spelling that stands at its place and means it. |
| JsonSpelling.ItemsRead | firmware/cjson.c:1467-1563 | Items with white space on both sides, separated by commas, are read one by one up to the closing bracket. |
| JsonSpelling.ItemsWereSpelled | firmware/cjson.c:1467-1563 | Every item list read is written in this way. |
| JsonSpelling.EntriesRead | firmware/cjson.c:1628-1744 | Names, colons and values with white space between them are read one by one up to the closing brace. |
| JsonSpelling.EntriesWereSpelled | firmware/cjson.c:1628-1744 | Every member list read is written in this way. |
| JsonTokens.DecimalReads | firmware/cjson.c:315-389 | An integer of 32 bits in at most 63 characters, with leading zeros or without, reads as its value. |
| JsonTokens.DecimalWasRead | firmware/cjson.c:315-389 | Every number read that is not cut short is written in this way. |
| JsonTokens.PrintedIsDecimal | firmware/cjson.c:562-629 | Every 32-bit number printed with %d is one of these. |
| JsonTokens.PrintedIsShortest | firmware/cjson.c:562-629 | It is the only one without needless zeros and without a minus sign before zero. |
| JsonTokens.LiteralIs | firmware/cjson.c:790-917 | Both passes together accept exactly the literals described by their parts. |
| JsonNumbers.NumberMeans | firmware/cjson.c:315-389 | Against the decimal floating-point numbers of section 7.20.1.3 of ISO C99: a 32-bit integer is read exactly when no longer number begins the text at hand, at most 63 bytes; the text is refused exactly when no number begins it. |
| JsonNumbers.PrefixMeans | firmware/cjson.c:353-358 | The same of the text handed to strtod. |
| JsonTokens.LiteralReads | firmware/cjson.c:790-917 | A literal means the same string wherever it stands, as a value and as a name. |
| JsonTokens.LiteralWasRead | firmware/cjson.c:790-917 | Every string read is such a literal. |
| JsonTokens.QuotedIsLiteral | firmware/cjson.c:920-1039 | What is printed for a C string is a literal of it. |
| JsonParser.ParseWithLengthOpts | firmware/cjson.c:1113-1191 | Whether the text is accepted, how much of it is taken, and the tree in memory: nodes linked into child lists in order, that stand for the value of the grammar and share nothing. |
| JsonParser.ParseBuffer.Skip | firmware/cjson.c:1056-1079 | Past the white space, or back to the last byte at the end of the text. |
| JsonParser.ParseBuffer.ParseNumberItem | firmware/cjson.c:315-389 | At most 63 characters are taken; a decimal 32-bit integer is read exactly and stored in the item. |
| JsonParser.ParseBuffer.ParseStringItem | firmware/cjson.c:790-917 | Both passes together: the item gets the C string, or the answer is false. |
| JsonParser.ParseBuffer.ParseValueItem | firmware/cjson.c:1338-1390 | The dispatch on the first characters: the item becomes what the grammar says, down to its last child; offset and depth end where it says. |
| JsonParser.ParseBuffer.ParseArrayItem | firmware/cjson.c:1467-1563 | The array, its nesting limit, and its child list. |
| JsonParser.ParseBuffer.ParseItemList | firmware/cjson.c:1500-1539 | The loop over the items links one node for each item of the grammar, in order. |
| JsonParser.ParseBuffer.ParseObjectItem | firmware/cjson.c:1628-1744 | The object, its nesting limit, and its child list with the names. |
| JsonParser.ParseBuffer.ParseMemberList | firmware/cjson.c:1660-1721 | The loop over the members links one named node for each of them, in order. |
| JsonPrinter.PrintPreallocated | firmware/cjson.c:1317-1335 | With a fixed buffer, success means exactly the text and its terminator, and comes exactly when the buffer has two bytes more than the text; the header (cjson.h:159) asks for five beyond the terminator. |
| JsonPrinter.PrintBuffered | firmware/cjson.c:1285-1315 | The same text from any starting size, up to the size of an int; for a starting size of zero, if the allocator gives memory for it. |
| JsonPrinter.Print | firmware/cjson.c:1206-1283 | Memory of exactly the text and its terminator. |
| JsonPrinter.PrintBuffer.Ensure | firmware/cjson.c:455-539 | Room for needed bytes and one more, exactly when the buffer has it or can get it; the written bytes stay; offset stays below length. |
| JsonPrinter.PrintBuffer.UpdateOffset | firmware/cjson.c:542-552 | The offset moves to the terminator. |
| JsonPrinter.PrintBuffer.PrintNumber | firmware/cjson.c:562-629 | A 32-bit number in decimal. |
| JsonPrinter.PrintBuffer.PrintString | firmware/cjson.c:920-1045 | The quoted string, for a null string the empty one; the counting pass and the writing pass agree on its length. |
| JsonPrinter.PrintBuffer.PrintValue | firmware/cjson.c:1393-1464 | For an item that stands for a value: succeeds exactly when the text of the value, the terminator and one more byte fit, and then the buffer holds what was there and the text. |
| JsonPrinter.PrintBuffer.PrintArray | firmware/cjson.c:1566-1625 | The same for arrays. |
| JsonPrinter.PrintBuffer.PrintObject | firmware/cjson.c:1747-1858 | The same for objects, with the tabs of the nesting depth. |
| JsonPrinter.PrintBuffer.PrintMember | firmware/cjson.c:1776-1835 | Tabs, key, colon, value, comma and line break of one member. |
| JsonPrinter.CountEscapes | firmware/cjson.c:947-971 | The additional characters are exactly those that escaping adds; with none, escaping changes nothing. |
| JsonPrinter.QuoteInto | firmware/cjson.c:979-1036 | Either way of writing the quoted string, with its terminator. |
| JsonTree.TextHasNoNul | firmware/cjson.c:1393-1464 | The text of a tree holds no NUL, so strlen finds its end. |
| JsonMinify.Minify | firmware/cjson.c:2891-2939 | In place: the specified text and its terminator, the write position never past the read position, nothing touched behind the new terminator. |
| JsonMinify.MinifyString | firmware/cjson.c:2864-2889 | Inside of a string everything is kept, up to a quote that no backslash stands before. |
| JsonMinify.SkipOnelineComment | firmware/cjson.c:2836-2848 | To the byte after the line break, or the end. |
| JsonMinify.SkipMultilineComment | firmware/cjson.c:2850-2862 | To the byte after the comment, or the end. |
| JsonMinifyParts.MinifiedIsKept | firmware/cjson.c:2891-2939 | Any text at all, whole or broken off, written as blanks, line comments, comments, slashes that begin none, literals and other bytes: the result is its literals and its other bytes, in order. |
| JsonMinifyParts.EveryTextHasParts | firmware/cjson.c:2891-2939 | Every text is made of such parts. |
| JsonMinifyParts.MinifiedTwice | firmware/cjson.c:2891-2939 | Minifying again changes nothing. |
| JsonMinifyText.MinifyUnformats | firmware/cjson.c:2891-2939 | Minifying the formatted text of a tree gives exactly its unformatted text if and only if no key and no string ends in a backslash, but for a string that only closing brackets follow. |
| JsonMinifyText.SafeValue | firmware/cjson.c:2864-2939 | Such a tree is unformatted wherever its text stands. |
| JsonMinifyText.UnsafeValue | firmware/cjson.c:2882-2887 | In any other tree white space is kept that the unformatted text has not. |
| JsonMinifyText.QuotedStays | firmware/cjson.c:2864-2889 | A string stays as it is, and leaves the minifier outside of it exactly when it does not end in a backslash. |
| JsonMinifyText.BlankBehindBackslash | firmware/cjson.c:2882-2887 | The smallest array for which the result is not the unformatted text. |
| JsonChildList.AddItemToArray | firmware/cjson.c:1990-2021 | The item becomes the last child; the list keeps its shape exactly when the item was not in it and, if there were children, pointed nowhere, because its next is not cleared. With an item that was in it, the links are no child list of any nodes. |
| JsonChildList.AppendKeepsOldLink | firmware/cjson.c:1990-2021 | A case: an item with a next of its own is the last child, and the links go on behind it. |
| JsonChildList.CycleIsNoList | firmware/cjson.c:1990-2021 | Links that lead back to a child are no child list of any nodes. |
| JsonChildList.PathIsNoList | firmware/cjson.c:2318-2329 | Neither are links that end where a prev does not point where it has to. |
| JsonChildList.DetachItemViaPointer | firmware/cjson.c:2221-2255 | The child is taken out of the sequence, the shape is kept, and it points nowhere. |
| JsonChildList.InsertItemInArray | firmware/cjson.c:2297-2330 | The item stands at the index, or at the end when there are not so many children; the list keeps its shape exactly when the item was not in it and, at the end, pointed nowhere. With an item that was in it, the links are no child list of any nodes. |
| JsonChildList.ReplaceItemViaPointer | firmware/cjson.c:2332-2379 | The replacement stands at the place of the child, which is unlinked, exactly when it was no other child of the list; the same node changes nothing. |
| JsonChildList.GetArrayItem | firmware/cjson.c:1884-1901 | The child at the index, or null. |
| JsonChildList.SameList | firmware/cjson.c:1962-2021 | The links determine the sequence of children. |
| ChunkedDecoder.PhrChunkedDecoder.SkipCrlf | firmware/net/http_parser.c:657-672 | The line end after the payload of a chunk, or an error. |
| ChunkedDecoder.PhrChunkedDecoder.ReadTrailerHead | firmware/net/http_parser.c:673-684 | An empty line completes the body, any other begins a trailer. |
| ChunkedDecoder.PhrChunkedDecoder.SkipTrailerLine | firmware/net/http_parser.c:685-695 | A trailer runs to its line end. |
| HttpParser.ReadHeaderName | firmware/net/http_parser.c:313-339 | Name, colon and blanks; no name on a continued line. |
| HttpParser.CutTrailingBlanks | firmware/net/http_parser.c:346-355 | The value ends where the trimming specification says. |
| HttpParser.EatNewLine | firmware/net/http_parser.c:296-307 | CR LF or LF, or the error for a bare CR. |
| HttpParser.StepOverSpaces | firmware/net/http_parser.c:381-386 | The do-while over a byte and the spaces after it. |
| UrlParser.Seek | firmware/net/url_parser.c:120-135 | The cursor stops at the first character looked for, or at the end. |
| UrlParser.SeekHostEnd | firmware/net/url_parser.c:187-211 | The host ends at a colon or slash, or behind the bracket that closes an IPv6 address. |
| UrlParser.FillPort | firmware/net/url_parser.c:223-243 | The port, if there is one. |
| UrlParser.FillQuery | firmware/net/url_parser.c:276-297 | The query, if there is one. |
| TcpClient.Client.Queue | firmware/net/client/tcp_client.c:425-431 | One more node with exactly the data at the end of the queue, none for no data. |
| TcpClient.Client.FinishHead | firmware/net/client/tcp_client.c:125-132 | The rest of the head goes out, its node leaves the queue, then the event fires. |
| TcpClient.Client.TakeHead | firmware/net/client/tcp_client.c:127-129 | The rest of the head goes out and its node leaves the queue. |
| TcpClient.Client.End | firmware/net/client/tcp_client.c:345-364 | A close or a reset inside a callback leaves the queue in order. |
| TcpClient.Client.Open | firmware/net/client/tcp_client.c:371-415 | Opening starts with the address or with its resolution and keeps the invariant. |
| WsClient.ReadLength | firmware/net/client/ws_client.c:166-185 | The loop over the length bytes reads them most significant first. |
| WsClient.HangBehind | firmware/net/client/ws_client.c:413-424 | The new frame is linked both ways behind the last one. |
| WsClient.WsClientData.Extend | firmware/net/client/ws_client.c:368-377 | More memory for the frame, with the same bytes. |
| WsClient.WsClientData.Store | firmware/net/client/ws_client.c:390-390 | One more byte of the frame. |
| WsClient.WsClientData.Deliver | firmware/net/client/ws_client.c:404-409 | The last frame of a message: delivered with the frames before it, and the chain is dropped. |
| WsClient.WsClientData.NextFrame | firmware/net/client/ws_client.c:411-437 | A finished frame stays in the chain and a new one follows it. |
| WsSend.FillBody | firmware/net/client/ws_client.c:890-895 | The key, the copy, and the mask over it in place. |
| JsonParser.ParseBuffer.ParseMemberItem | firmware/cjson.c:1689-1713 | Name, colon and value of one member. |
| JsonParser.ParseBuffer.ParseNextItem | firmware/cjson.c:1502-1532 | One turn of the loop: a new last node, linked both ways, that stands for the next item. |
| JsonParser.ParseBuffer.ParseNextMember | firmware/cjson.c:1661-1714 | One turn of the loop over members. |
| JsonParser.ParseBuffer.ParseInto | firmware/cjson.c:1139-1157 | Byte order mark, white space, one value, and the terminator if asked for. |
| JsonParser.Attach | firmware/cjson.c:1505-1523 | A new node behind the last one, linked both ways. |
| JsonParser.CloseList | firmware/cjson.c:1544-1547 | The head points back at the last node, which makes the list a child list. |
| JsonParser.FinishArray | firmware/cjson.c:1541-1550 | Type and child of the item, and the closed list under it. |
| JsonParser.FinishObject | firmware/cjson.c:1723-1732 | The same for objects. |
| JsonNodes.SameValue | firmware/cjson.c:1338-1744 | The memory decides the value: an item stands for one value only, with one set of nodes below it. |
| JsonNodes.PartsMore | firmware/cjson.c:1505-1532 | One more child keeps the children in order and apart from each other. |
| JsonPrinter.PrintBuffer.PrintItemList | firmware/cjson.c:1589-1613 | The walk along the child list writes exactly the text of the items. |
| JsonPrinter.PrintBuffer.PrintItem | firmware/cjson.c:1591-1611 | One item and what stands before the next one. |
| JsonPrinter.PrintBuffer.PrintMemberList | firmware/cjson.c:1774-1838 | The walk along the child list writes exactly the text of the members. |
| JsonPrinter.PrintBuffer.PrintObjectEnd | firmware/cjson.c:1840-1855 | Tabs and the closing brace. |
| JsonPrinter.PrintBuffer.PrintKey | firmware/cjson.c:1776-1809 | Tabs, quoted key and colon. |
| JsonPrinter.PrintBuffer.PrintTabs | firmware/cjson.c:1776-1789 | As many tabs as the nesting depth. |
| JsonPrinter.EscapeInto | firmware/cjson.c:992-1034 | The writing pass gives the escaped string, with room for the terminator of sprintf. |
| JsonPrinter.WriteEscape | firmware/cjson.c:995-1033 | One byte, as itself or as its escape. |
| JsonChildList.InsertFirst | firmware/cjson.c:2318-2325 | In front of the first child, taking over its link to the last one. |
| JsonChildList.InsertLater | firmware/cjson.c:2318-2329 | Between two children. |
| JsonChildList.ReplaceFirst | firmware/cjson.c:2344-2358 | The first child passes on its link to the last one, or to itself when it is alone. |
| JsonChildList.ReplaceLater | firmware/cjson.c:2344-2372 | A later child; the head learns of a new last one. |

## Left out

- Numbers of JSON text other than 32-bit integers in decimal digits: the grammar answers `OtherNumber` for them (`JsonNumbers.NumberMeans` says when), and what `strtod`, `%1.15g` and `%1.17g` do is not part of this model.
- JsonParser.ParseWithLengthOpts: the error position that it records, and the offset and depth after a failure, are not modelled; nodes of a failed parse are left to themselves instead of released.
- JsonParser.ParseBuffer.ParseValueItem: like the other steps of the parser, promises nothing about the item, the offset and the depth when it does not accept.
- JsonPrinter.PrintBuffer.PrintValue: raw items and items without a type are not modelled.
- Allocation never fails here; hooks, locales, references, constant keys, and the Create, Add, Duplicate and Compare functions of cjson.c are thin or change ownership only.
- JsonChildList.ReplaceItemViaPointer: releasing the replaced node is its unlinking; memory is not given back.
- Children are nodes of one list each; a node that hangs in two lists at once is not modelled.
- HttpParser.PhrParseRequest: what the header array and the other results hold after -1 or -2 is not stated.
- The vectorised branch of findchar_fast is compiled out in the source and not part of this model.
- WsClient.WsClientData.Receive: one call takes less than 2^32 - 512 bytes together with the frame under way, because `rawdata_sz` has 32 bits; after an overrun of `dispatch_message` nothing is promised.
- WsClient.WsClientData.InData: the frame under way has less than 2^32 - 512 bytes, for the same reason.
- WsReassembly.ParseOfEncoded: it is about lengths below 2^63, all that RFC 6455 allows; `WsReassembly.ParseFrame` has the wrap-around of the sum for longer ones, and what the source does with these is not stated.
- WsClient.WsClientData.HandleControlFrame: the answer to a close frame, which the source sends without a mask key, is not modelled.
- The handshake, the ping timer and the error states of ws_client.c depend on SHA-1, Base64, random numbers and clocks.
- WsSend.BuildFrame: the loop index is an int, so texts are shorter than 2^31; the mask is a parameter. `WsSend.ReceiverReadsText` holds for all lengths below 2^63.
- TcpClient.Client.Task: DNS, TLS and retry are answers from outside; the states that only wait are merged. A callback can close or reset the client at its end when it reports CONNECTED or TX; what one does so on an error, a timeout or a disconnection is not modelled.
- TcpClient.Client.Send: the index check of `sid` (result -3) is left out because there is one client.
- TcpClient.Client.CloseClient: the index check of `sid` is left out, too.
- TcpClient.Client.Open: the search for a free client and the busy answer are left out.
- The socket takes exactly the bytes it is given when it reports room for them.
- Crc32.Generate: the mapping of addresses to uncached memory is left out; the image is the sequence of its bytes.
- UrlParser.UrlParse: failed allocation, which makes the source return null, is left out.
- `firmware/drv` and `firmware/storage` exchange registers with memory, clock and input chips; what they return is decided by the hardware.
- `firmware/A7672E.c` and `firmware/usb_A7672E.c` send AT commands to a modem through callbacks of the USB stack and pick numbers out of its answers; the order of events is outside of the program.
- `firmware/config/default`, but for the boot loader, and `firmware/third_party` are generated configuration and libraries; `firmware/_tests` exercises boards, the modem and USB devices.
- `net/http_request.c` joins the parts of a request with `snprintf`, whose formatting is all that it does.
- `net/server/tcp_server.c` sends with the same loop as the client, and `net/server/telnet_server.c` compares a name and a password for the library's telnet server.
- `server/server.py` is a Flask page that stores the last position posted and shows it.
