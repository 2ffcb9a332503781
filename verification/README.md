# httpuv core in Dafny

This project models the protocol and string-handling core of httpuv, the R web and WebSocket
server, together with the event receiver of its small Node test client. The C++ classes become
immutable datatypes and their member functions become pure functions. Callbacks the code makes
(`onHeaderComplete`, `onWSMessage`, `sendWSFrame`, `closeWSSocket`, ...) are returned as lists
of events or effects, in call order. Integers of fixed width are unbounded in the model, except
where the source relies on wrap-around: the `uint32_t` key arithmetic of HyBi-03 and the
`uint64_t` accumulators of the frame readers wrap explicitly.

One module per source file:

- **Text and bytes.**
  - `Ascii`: C-locale character classes, the `split` and `trim` helpers, and decimal and hex rendering.
  - `Base64`: `encodeblock` and `b64encode`.
  - `UriCodec`: `encodeURI`, `encodeURIComponent`, `decodeURI` and `decodeURIComponent`.
  - `Fs`: `basename` and `find_extension`.
  - `Utils`: `to_lower`, `constant_time_compare`, `http_date_string` and the log level.
  - `Time`: `my_timegm`, with C's truncating division written out.
- **HTTP.**
  - `Constants`: opcodes, `MAX_HEADER_BYTES`, and the case-insensitive key order of `RequestHeaders`.
  - `HttpRequest`: header accumulation and the decision taken once the headers are in.
  - `HttpResponse`: the header list, head serialisation and the close decision.
  - `WebApplication`: header-name normalisation, the status table, the request environment and the response-list conversion.
  - `UvUtil`: the in-memory data source, write buffers, and the chunked transfer coding of section 4.1 of RFC 7230.
  - `StaticPathManager` and `StaticPathsMap`: static-path options, header validation, the path maps and longest-prefix matching.
  - `Socket`: the connection list.
  - `Deflate`: the init state guards and the `windowBits` mapping.
- **WebSocket.**
  - `WebSocketFrame`: the header reader of section 5.2 of RFC 6455.
  - `WebSocketParser`: the incremental `WSHyBiParser::read`.
  - `WebSocketConnection`: closing handshake, unmasking and fragment reassembly.
  - `WebSocketIetf` and `WebSocketHyBi03`: the protocol objects, with their handshakes and FIN and opcode codecs.
  - `WebSocketHixie76`: the Hixie-76 byte parser.
  - `WebSocketBase`: `swapByteOrder`.
  - `WebSocketContext` and `PermessageDeflate`: the negotiation of section 7.1 of RFC 7692.
  - `WebSocketReceiver`: the test client's event queue and `withWS`.

The helpers `split` and `trim` have no definition in the source files. They are taken to split on
a literal one-character delimiter, keeping empty pieces, and to strip ASCII white space at both
ends. `WebSocketConnectionContext` is taken to start with every field false or 0. SHA-1, MD5,
zlib's init result and `http_should_keep_alive` are parameters of the functions that use them.
Request headers are a map keyed by the lower-cased name. This is the equivalence `compare_ci`
gives `std::map`, and `Constants.CompareCiIsStrictWeakOrder` proves it.

Where the code departs from what it evidently intends (see "## Findings"), the model follows the
code as written, and the corrected behaviour is defined beside it under its own name:
`UriCodec.Encode` and `UriCodec.EncodeAllIntended`, `Time.MyTimegmFloor`, `Fs.FindExtension`,
`WebSocketConnection.ReceiveClose` and `WebSocketConnection.OnFrameCompleteIntended`.

## Model

| member | source | states |
|---|---|---|
| Ascii.LowerChar | src/utils.h:94-99 | `tolower` in the C locale: an upper-case letter moves up by 32, every other character is kept, and no upper-case letter is left |
| Ascii.Trim | src/wse-permessage-deflate.cpp:21 | the trimmed text is the slice of the input left after removing a prefix and a suffix of white space only, and has no white space at either end |
| Ascii.TrimBothEnds | src/wse-permessage-deflate.cpp:21 | stripping white space from the left and then from the right leaves exactly the slice between a white-space prefix and a white-space suffix |
| Ascii.FirstIndexOf | src/webapplication.cpp:81-88 | the position found holds the character and no earlier one does; none is found exactly when the character is absent |
| Ascii.LastIndexOf | src/fs.cpp:16 | the position found holds the character and no later one does; none is found exactly when the character is absent |
| Ascii.SplitPiecesLackDelimiter | src/wse-permessage-deflate.cpp:13 | no piece of `split` holds the delimiter |
| Ascii.SplitJoin | src/wse-permessage-deflate.cpp:13-20 | joining the pieces of `split` with the delimiter gives back the input: nothing is lost or added |
| Ascii.SplitWithoutDelimiter | src/wse-permessage-deflate.cpp:20-21 | text without the delimiter is one piece |
| Ascii.DecimalRoundTrip | src/wse-permessage-deflate.cpp:128 | the decimal digits `std::to_string` writes read back as the number |
| Ascii.ZeroPaddedReadsBack | src/utils.h:252-260 | a `%02d`/`%04d` field of a number that fits is exactly that wide, all digits, and reads back as the number |
| Ascii.HexRoundTrip | src/uvutil.cpp:152 | the upper-case hexadecimal digits `%lX` writes read back as the number |
| Ascii.HexDigitRoundTrip | src/httpuv.cpp:515-535 | every upper-case hexadecimal digit reads back as its value |
| Ascii.CharsOfBytesOf | src/uvutil.cpp:66-77 | viewing a byte string as bytes and back loses nothing |
| Base64.AlphabetAt | src/base64/base64.cpp:8 | the table entry at each position is the character computed from the position (26 upper-case letters, 26 lower-case letters, 10 digits, '+', '/') |
| Base64.EncodeBlock | src/base64/base64.cpp:15-21 | four characters, each from the table or '='; the first two are never '='; the third is '=' exactly when `len <= 1`, the fourth exactly when `len <= 2` |
| Base64.EncodeBlockReadsTable | src/base64/base64.cpp:17-20 | each output character is the table entry at the six-bit field the shifts and masks cut out of the three input bytes |
| Base64.Encode | src/base64/base64.hpp:7-33 | `b64encode` pads to show how many bytes the last group held: no '=' for a whole number of groups, "==" after one byte, a single '=' after two; the output is empty only for empty input |
| Base64.EncodeLength | src/base64/base64.hpp:7-33 | `b64encode` writes four characters for every started group of three bytes |
| Base64.EncodeAlphabet | src/base64/base64.hpp:7-33 | every character written is in the table or is '=', and '=' appears only in the last group |
| Base64.EncodeConcat | src/base64/base64.hpp:14-31 | encoding a split after a whole number of groups is encoding each part |
| Base64.DecodeEncodeBlock | src/base64/base64.cpp:15-21 | one, two or three bytes survive `encodeblock`: a reference decoder gets them back |
| Base64.DecodeEncode | src/base64/base64.hpp:7-33 | the reference decoder recovers every byte of every input: `b64encode` loses nothing |
| Constants.OpcodeValuesDistinct | src/constants.h:7-15 | distinct opcodes have distinct values, and the values of 8 and above are exactly Close, Ping, Pong and Reserved |
| Constants.CompareCiIsStrictWeakOrder | src/constants.h:25-29 | `compare_ci` is irreflexive and transitive, and two names are incomparable exactly when they are equal up to ASCII case, so it is a valid `std::map` order |
| Constants.FindHeader | src/constants.h:31 | `find` succeeds exactly when a name equal up to case is stored |
| Constants.PutHeader | src/constants.h:31 | after `headers[name] = value` the name finds the value and every name not equal to it up to case finds what it found before |
| Constants.FindHeaderIgnoresCase | src/constants.h:25-31 | names that differ only in ASCII case find the same entry |
| Constants.LookupIsFind | src/constants.h:31 | for a name written in lower case, direct lookup and `find` agree |
| Deflate.ZlibWindowBits | src/deflate.cpp:65-69 | the window size zlib gets is negated for a raw stream, raised by 16 for gzip, and kept for zlib framing |
| Deflate.FramingReadsBack | src/deflate.cpp:65-69 | over the accepted sizes 8 to 15 the three framings use disjoint values, so zlib recovers both framing and size |
| Deflate.Init | src/deflate.cpp:56-76 | a second `init` throws "was called twice"; a size outside the class's range throws the range message; otherwise zlib's result is returned and the object becomes ready exactly when it is `Z_OK` |
| Deflate.InitOnce | src/deflate.cpp:56-76 | after a successful `init` every later one throws; after a failed zlib init only a bad size makes the next one throw |
| Deflate.Flate | src/deflate.cpp:78-83 | only a ready object reaches the compression loop; any other throws "must be called before deflate()" |
| Deflate.Destroy | src/deflate.cpp:46-54 | the destructor ends the zlib stream exactly when the object was ready, and always leaves it ended |
| Deflate.LifecycleEndsOnce | src/deflate.cpp:46-83 | the stream is ended exactly when `init` reached ready, and after the destructor neither `init` nor `deflate` reaches zlib |
| Fs.FindLastOf | src/fs.cpp:16 | `find_last_of` returns `npos` exactly when the character is absent, and otherwise its last position |
| Fs.FindExtensionAsWritten | src/fs.cpp:15-23 | `find_extension` as written: a name without a '.' is returned whole |
| Fs.ExtensionOfDotlessName | src/fs.cpp:18-22 | "README" is its own extension as written |
| Fs.FindExtension | src/fs.cpp:15-23 | the extension is the text after the last '.', holds no '.', and is empty when there is no dot or the only last dot is the first character |
| Fs.FindExtensionAgreesWithDot | src/fs.cpp:15-23 | as written and as intended agree on every name that has a dot |
| Fs.Basename | src/fs.cpp:26-36 | the result is the text after the last '/', holds no '/', and is the whole path when there is none |
| PermessageDeflate.ParseExtensionInfo | src/wse-permessage-deflate.cpp:12-27 | the extension name is the first `;` piece, trimmed; the parameters are the later pieces split at `=`, names and values trimmed, a later name overriding an earlier one |
| PermessageDeflate.ParamNamesTrimmed | src/wse-permessage-deflate.cpp:15-21 | no parameter name starts or ends with white space |
| PermessageDeflate.AtoiStopsAtNonDigit | src/wse-permessage-deflate.cpp:49 | `atoi` reads a number's decimal digits back and stops at the first character that is not a digit |
| PermessageDeflate.ParseWindowBits | src/wse-permessage-deflate.cpp:29-56 | absent, or present without a value: acceptable with value 0; more than two characters: refused; otherwise the `atoi` value, acceptable exactly when it is 8 to 15 |
| PermessageDeflate.WindowBitsReadBack | src/wse-permessage-deflate.cpp:29-56 | every size from 8 to 15, written in decimal, is accepted with that value |
| PermessageDeflate.WindowBitsExamples | src/wse-permessage-deflate.cpp:45-50 | "8x" or "9x" passes for 8 or 9, because `atoi` stops at the junk; any two-digit size of 16 or more is refused |
| PermessageDeflate.ParsePermessageDeflate | src/wse-permessage-deflate.cpp:58-95 | accepted exactly when the reference condition of section 7.1.2 of RFC 7692 (as the code applies it) holds; another extension name changes nothing; the right name switches deflate on and sets each no-context-takeover flag its parameter names; accepted sizes are 8 to 15 |
| PermessageDeflate.AcceptedWindowBits | src/wse-permessage-deflate.cpp:71-93 | an accepted offer's window sizes are the ones it names, or 15 |
| PermessageDeflate.BareWindowBits | src/wse-permessage-deflate.cpp:77-93 | `server_max_window_bits` without a value is refused; `client_max_window_bits` without a value is accepted and means 15 |
| PermessageDeflate.Negotiate | src/wse-permessage-deflate.cpp:101-115 | the offers are taken in turn; the result is success exactly when every permessage-deflate offer is acceptable; with no such offer the context is untouched |
| PermessageDeflate.NegotiatedBits | src/wse-permessage-deflate.cpp:101-115 | negotiation never switches deflate off, and a successful one over at least one offer leaves it on with both sizes from 8 to 15 |
| PermessageDeflate.ResponseValue | src/wse-permessage-deflate.cpp:117-136 | the response value starts with "permessage-deflate" |
| PermessageDeflate.ResponseReadsBack | src/wse-permessage-deflate.cpp:117-136 | the response value, parsed by the same offer parser, names permessage-deflate and is accepted with the sizes and flags the context holds |
| PermessageDeflate.Handle | src/wse-permessage-deflate.cpp:97-141 | `handle` succeeds exactly when every offer is acceptable; the context is the negotiated one; one `Sec-WebSocket-Extensions` header is added exactly when it succeeded, there is somewhere to write, and deflate is on |
| PermessageDeflate.IsValid | src/wse-permessage-deflate.cpp:143-146 | `isValid` is true exactly when every permessage-deflate offer is acceptable |
| PermessageDeflate.Handshake | src/wse-permessage-deflate.cpp:148-153 | `handshake` leaves the negotiated context and adds at most one header |
| PermessageDeflate.NoOffersNoChange | src/wse-permessage-deflate.cpp:101-136 | without the extensions header the request is valid, the context is kept, and a header is written exactly when deflate was already on |
| HttpRequest.OnMessageBegin | src/httprequest.cpp:174-178 | a new message starts with no header findable under any name; nothing else changes |
| HttpRequest.OnUrl | src/httprequest.cpp:180-184 | the URL becomes the bytes delivered; nothing else changes |
| HttpRequest.OnHeaderField | src/httprequest.cpp:190-194 | the piece is appended to the pending header name; nothing else changes |
| HttpRequest.FieldPiecesAccumulate | src/httprequest.cpp:190-194 | however the parser cuts a name into pieces, the pending name grows by the whole name |
| HttpRequest.MergedValue | src/httprequest.cpp:199-215 | a first value is stored as is; a non-empty repeat of a non-empty value is joined with ','; an empty repeat keeps the earlier value; a repeat of an empty value replaces it |
| HttpRequest.OnHeaderValue | src/httprequest.cpp:196-220 | the pending name then finds the merged value, every name not equal to it up to case finds what it found before, and the pending name is cleared |
| HttpRequest.RepeatedHeaderJoins | src/httprequest.cpp:196-220 | a header sent several times reads as its non-empty values joined by ',' (the last value when all are empty), or is absent if never sent |
| HttpRequest.CombinedSnoc | src/httprequest.cpp:201-217 | one more value merges into the joined earlier values exactly as `_on_header_value` merges it |
| HttpRequest.HasHeader | src/httprequest.cpp:31-33 | a header is present exactly when its name, up to case, is stored |
| HttpRequest.HasHeaderValue | src/httprequest.cpp:38-48 | true exactly when the header is present and its stored value equals the given one, up to ASCII case when `ci` is set and exactly otherwise; an exactly equal value always matches |
| HttpRequest.QueriesIgnoreCase | src/httprequest.cpp:274-304 | "Content-Length", "Transfer-Encoding" and "Expect" in any spelling query the same stored entries; the `Expect` value is compared case-sensitively |
| HttpRequest.OnHeadersCompleteComplete | src/httprequest.cpp:269-315 | URL, headers and pending name are untouched; the parser is told 3 exactly when the application gave a response, 0 otherwise |
| HttpRequest.EarlyResponse | src/httprequest.cpp:273-299 | an early response is written; when a body is expected or keep-alive is off it is marked to close and further data is ignored; otherwise it is written unchanged |
| HttpRequest.NoEarlyResponse | src/httprequest.cpp:301-308 | without a response the request is unchanged and a "100 Continue" response is written exactly when the request asks for it |
| HttpRequest.EarlyResponseCloses | src/httprequest.cpp:274-293 | an early response to a request with a body ignores further data and carries exactly one "Connection: close" header |
| HttpResponse.NewResponse | src/httpresponse.h:22-27 | a new response has the given status and body, no headers, and is not marked to close |
| HttpResponse.AddHeader | src/httpresponse.cpp:20-22 | the pair goes last and every existing header stays where it was |
| HttpResponse.WithoutAppend | src/httpresponse.cpp:29-36 | the erase loop is a filter: it works header by header over any split of the list |
| HttpResponse.WithoutKeeps | src/httpresponse.cpp:29-36 | the erase loop keeps exactly the headers whose name differs, ignoring case, from the one set |
| HttpResponse.WithoutLeavesNone | src/httpresponse.cpp:29-36 | after the erase loop no header of that name is left |
| HttpResponse.WithoutNoMatch | src/httpresponse.cpp:29-36 | a list without that name is left as it is |
| HttpResponse.SetHeader | src/httpresponse.cpp:27-39 | the new pair is last and the only header of its name (up to case); every earlier header came from the list and every other header survives |
| HttpResponse.SetHeaderIdempotent | src/httpresponse.cpp:27-39 | setting the same header twice is setting it once |
| HttpResponse.CloseAfterWritten | src/httpresponse.cpp:127-130 | the response is marked to close and carries exactly one "Connection" header, "close", last |
| HttpResponse.CloseAfterWrittenIdempotent | src/httpresponse.cpp:127-130 | marking twice is marking once |
| HttpResponse.ClosesConnection | src/httpresponse.cpp:135-141 | the connection is closed exactly when the close is forced or the response is marked to close after it is written |
| HttpResponse.MarkedResponseCloses | src/httpresponse.cpp:125-141 | once `closeAfterWritten` has marked a response, `destroy` closes the connection, forced or not |
| HttpResponse.ReadTerminated | src/httpresponse.cpp:58-74 | lines without CR, each ended by CR LF, are read back as the same lines |
| HttpResponse.HeadLinesLayout | src/httpresponse.cpp:58-74 | the head is the status line, one line per header in list order, a Content-Length line exactly when there is a body and no such header, and a blank line |
| HttpResponse.HeadReadsBack | src/httpresponse.cpp:58-74 | when no status text, name or value holds a CR, the written head reads back line by line as exactly those lines |
| HttpResponse.WriteResponse | src/httpresponse.cpp:54-105 | the first write starts with the head; a 101 response with a body of 1 to 255 bytes sends the body in that write and keeps none back; every other body is kept back unchanged to be streamed |
| StaticPathManager.Merge | src/staticpath.cpp:106-118 | each setting of the first options wins; the second's fills only the unset ones |
| StaticPathManager.MergeLaws | src/staticpath.cpp:106-118 | unset options are neutral on either side, merging is idempotent and associative, and merging the same defaults twice changes nothing |
| StaticPathManager.MergeUnsetOnlyIfBoth | src/staticpath.cpp:106-118 | a merged setting is unset only where both sides leave it unset |
| StaticPathManager.ValidateRequestHeaders | src/staticpath.cpp:122-145 | an unset pattern and an operator other than "==" are errors; an empty pattern accepts; "==" accepts exactly when the named header holds the value |
| StaticPathManager.ValidationIgnoresNameCase | src/staticpath.cpp:139-141 | a request carrying the value under any spelling of the header name passes |
| StaticPathManager.NewStaticPath | src/staticpath.cpp:152-168 | a path is accepted exactly when it is non-empty without a trailing '/', or empty and excluded |
| StaticPathManager.Get | src/staticpath.cpp:224-236 | a path is found exactly when stored, and comes back with its options merged over the manager's |
| StaticPathManager.Set | src/staticpath.cpp:247-259 | the name then holds the new path whether or not it was there; no other entry and not the defaults change |
| StaticPathManager.GetAfterSet | src/staticpath.cpp:224-259 | what `set` stores, `get` returns with the manager's options as defaults; other names are unaffected |
| StaticPathManager.SetAll | src/staticpath.cpp:261-266 | setting a whole map overwrites: the result is the old map updated by every new entry |
| StaticPathManager.Remove | src/staticpath.cpp:275-281 | the name is gone afterwards and nothing else changes; removing an absent name is a no-op |
| StaticPathManager.RemoveAll | src/staticpath.cpp:283-288 | after removing a list of names, exactly the entries not named in it remain, unchanged |
| StaticPathManager.LastSlashAtOrBefore | src/staticpath.cpp:364 | `find_last_of('/', pos)` gives the last '/' at or before `pos`, or none when there is no '/' there |
| StaticPathManager.SearchFindsLongest | src/staticpath.cpp:343-380 | the search loop, from any cut with no registered name above it, returns the longest registered cut below, with the rest of the path after it |
| StaticPathManager.MatchStaticPath | src/staticpath.cpp:317-381 | an empty URL or one with '\\' matches nothing; a match is a registered name that is the whole path (one trailing slash dropped) or ends just before one of its slashes, returned with the text after that slash |
| StaticPathManager.MatchIsLongestPrefix | src/staticpath.cpp:317-381 | an empty URL or one with '\\' matches nothing; otherwise, after one trailing '/' is dropped, the match is the longest registered prefix ending at a '/' or the end, paired with the text after that '/', and nothing matches exactly when no such prefix is registered |
| StaticPathManager.MatchNested | src/staticpath.cpp:301-306 | with "/foo" registered, "/foo/bar/page.html" is served from it with "bar/page.html" |
| StaticPathManager.MatchNeedsSlash | src/staticpath.cpp:343-380 | "/foobar" is not under "/foo": a match ends at a slash |
| StaticPathsMap.Get | src/staticpaths.cpp:69-76 | the stored path, or none exactly when the name is absent |
| StaticPathsMap.Set | src/staticpaths.cpp:87-92 | `insert` adds a new name and leaves an existing entry alone |
| StaticPathsMap.FirstSetWins | src/staticpaths.cpp:87-92 | setting a name twice keeps the first value |
| StaticPathsMap.SetAll | src/staticpaths.cpp:94-99 | setting a whole map adds only the names not yet present: old entries win |
| StaticPathsMap.Remove | src/staticpaths.cpp:108-114 | the name is gone afterwards and nothing else changes |
| StaticPathsMap.RemoveAll | src/staticpaths.cpp:116-121 | exactly the entries not named in the list remain, unchanged |
| StaticPathsMap.RemoveThenSet | src/staticpaths.cpp:87-114 | removing a name makes room for a new value under it |
| Time.CDiv | src/time.h:13-17 | C's `/` truncates toward zero: the floor quotient for a non-negative dividend, the negated quotient of the negation otherwise |
| Time.CMod | src/time.h:14-18 | C's `%` is what is left after C's `/`: dividend = quotient * divisor + remainder |
| Time.MyTimegm | src/time.h:5-32 | from 1968 on, the seconds `my_timegm` counts are those of the proleptic Gregorian calendar, with the time of day and an hour less under daylight saving |
| Time.EpochIsZero | src/time.h:5-32 | 1970-01-01 00:00:00 is second 0 |
| Time.TimeOfDayIsLinear | src/time.h:21-27 | one more second, minute, hour or day adds 1, 60, 3600 or 86400 seconds |
| Time.DaylightSavingSubtractsAnHour | src/time.h:28-29 | `tm_isdst == 1` takes off exactly an hour |
| Time.MonthOverflowFoldsIntoYear | src/time.h:13-14 | a month number of 12 or more counts as whole years plus the month within the year |
| Time.LeapAgreesWithC | src/time.h:18 | the leap-year test with C's remainders is the Gregorian rule |
| Time.MyTimegmFloorIsCivil | src/time.h:13-29 | with the leap-day counts computed by floor division, the result is the exact proleptic Gregorian second count for every year |
| Time.MyTimegmIsCivilFrom1968 | src/time.h:13-29 | from 1968 on the function as written counts calendar days exactly |
| Time.MyTimegmWrongBefore1968 | src/time.h:15-17 | as written, 1967-01-01 00:00:00 comes out as -1095 days, because truncation rounds `(year - 1968) / 4` toward zero |
| Time.CalendarBefore1968 | src/time.h:15-17 | the calendar puts 1967-01-01 1096 days before the epoch |
| Utils.ToLower | src/utils.h:94-98 | the result has the same length and is `tolower` of each character |
| Utils.ToLowerIdempotent | src/utils.h:94-98 | lower-casing twice is lower-casing once |
| Utils.ToLowerLeavesNoUpper | src/utils.h:94-98 | no upper-case letter is left, and every other character is kept |
| Utils.ConstantTimeCompare | src/utils.h:271-285 | true exactly when the two strings are equal; different lengths are never equal |
| Utils.HttpDateString | src/utils.h:213-263 | a weekday or month out of range gives ""; the result always fits the 50-byte buffer |
| Utils.FixdateLayout | src/utils.h:252 | with every field at its nominal width, the text is 29 characters with each field and separator at its IMF-fixdate position |
| Utils.DayNamesRoundTrip | src/utils.h:222-231 | each weekday name reads back as its number |
| Utils.MonthNamesRoundTrip | src/utils.h:234-248 | each month name reads back as its number |
| Utils.HttpDateReadsBack | src/utils.h:213-263 | for the field ranges `gmtime` produces for years 0 to 9999 the date is 29 characters and an IMF-fixdate reader gets every field back |
| Utils.ParseLaidOut | src/utils.h:252 | text laid out as an IMF-fixdate from well-formed fields reads back as those fields |
| Utils.LevelNameRoundTrip | src/utils.cpp:20-39 | each level's name selects that level |
| Utils.SetLogLevel | src/utils.cpp:15-41 | "" keeps the level; an unknown name is an error; otherwise the named level is set; the previous level's name is returned |
| Utils.SetThenQuery | src/utils.cpp:15-41 | setting a level and then querying with "" reports the level just set |
| Utils.DebugLog | src/utils.cpp:6-10 | a message is written, with a newline, exactly when the current level is at or above the message's |
| Utils.DebugLogExtremes | src/utils.cpp:6-10 | `OFF` silences every message but an `OFF` one; `DEBUG` lets everything through |
| UriCodec.ReservedIsTheReservedString | src/httpuv.cpp:401-417 | `isReservedUrlChar` accepts exactly the ten characters `;,/?:@&=+$` |
| UriCodec.NeedsEscapeMatchesAllowed | src/httpuv.cpp:399-441 | `encodeURI` keeps exactly the characters of the `allowed` string, and `encodeURIComponent` exactly those after its reserved prefix |
| UriCodec.EscapeAsWritten | src/httpuv.cpp:453 | the escape is three characters, '%' and two upper-case hexadecimal digits, except that below 0x10 `setw(2)` pads with a space, not a zero |
| UriCodec.EncodeAsWritten | src/httpuv.cpp:443-457 | the output is never shorter than the input, and a string with nothing to escape is kept |
| UriCodec.HexToInt | src/httpuv.cpp:515-535 | 0 to 15 for a hexadecimal digit of either case, equal to its value, and -1 for anything else |
| UriCodec.Decode | src/httpuv.cpp:537-572 | decoding never lengthens the text and keeps it a byte string |
| UriCodec.DecodeShortTail | src/httpuv.cpp:545-548 | fewer than three characters are copied as they are |
| UriCodec.DecodeWithoutPercent | src/httpuv.cpp:537-572 | a string without '%' decodes to itself |
| UriCodec.InvalidEscapeIsKept | src/httpuv.cpp:555-559 | a '%' followed by a pair that is not hexadecimal is kept as three characters |
| UriCodec.ReservedEscapeHandling | src/httpuv.cpp:560-565 | `decodeURI` leaves the escape of a reserved character as it is; `decodeURIComponent` decodes it |
| UriCodec.DecodeEscape | src/httpuv.cpp:550-565 | an escape of two hexadecimal digits decodes to the byte they spell, unless `decodeURI` meets a reserved character |
| UriCodec.RoundTripAsWritten | src/httpuv.cpp:443-572 | as written, decoding undoes encoding (with the same reserved-character choice) for every string with no byte below 0x10 |
| UriCodec.EscapeAsWrittenReadsBack | src/httpuv.cpp:453-565 | the escape of a byte of 0x10 or more decodes back to it |
| UriCodec.LineFeedDoesNotRoundTrip | src/httpuv.cpp:453-558 | as written, a line feed encodes as "% A", which decodes to "% A" and not back to the line feed |
| UriCodec.Escape | src/httpuv.cpp:453 | the zero-filled escape: '%' and the two hexadecimal digits of the byte |
| UriCodec.Encode | src/httpuv.cpp:443-457 | the output is never shorter than the input, and a string with nothing to escape is kept |
| UriCodec.RoundTrip | src/httpuv.cpp:443-572 | with the zero-filled escape, decoding undoes encoding for every byte string, with either reserved-character choice |
| UriCodec.EncodersAgreeFrom16 | src/httpuv.cpp:453 | the encoder as written and the zero-filled one agree on every string with no byte below 0x10 |
| UriCodec.EncodeAll | src/httpuv.cpp:490-513 | `encodeURI` and `encodeURIComponent` encode each element with the encoder as written, space-filled escape included, and keep the vector's length |
| UriCodec.DecodeAll | src/httpuv.cpp:577-600 | `decodeURI` and `decodeURIComponent` decode each element and keep the vector's length |
| UriCodec.VectorRoundTrip | src/httpuv.cpp:490-600 | the vector decoders undo the vector encoders as written, element by element, for every vector none of whose elements holds a byte below 0x10 |
| UriCodec.EncodeAllIntended | src/httpuv.cpp:490-513 | the vector encoders with the zero-filled escape encode each element and keep the vector's length |
| UriCodec.VectorRoundTripIntended | src/httpuv.cpp:490-600 | with the zero-filled escape the vector decoders undo the vector encoders for every vector |
| UvUtil.NewSource | src/uvutil.h:49-50 | a new source holds the buffer and is positioned at its start |
| UvUtil.GetData | src/uvutil.cpp:66-78 | `getData` returns the next `min(desired, remaining)` bytes and moves past them |
| UvUtil.Add | src/uvutil.cpp:86-91 | `add` appends the bytes; the old content and the position stay |
| UvUtil.Close | src/uvutil.cpp:81-84 | `close` empties the buffer without resetting the position |
| UvUtil.ReadAfterClose | src/uvutil.cpp:66-84 | after `close`, reading is in bounds only if nothing had been read |
| UvUtil.Drain | src/uvutil.cpp:66-78 | calling `getData` until it returns nothing yields exactly the unread bytes, in order, and leaves the source at its end |
| UvUtil.Bufs | src/uvutil.cpp:35-46 | the data buffer is always written, an empty prefix or suffix is left out, and the buffers spell prefix, data, suffix |
| UvUtil.WindUp | src/uvutil.cpp:109-122 | an errored or completed write reports completion, with its status, only once no write is outstanding |
| UvUtil.Next | src/uvutil.cpp:107-172 | an error wins over completion; a failed read marks the write errored; a write issued carries the data read, one more write is outstanding, an empty read completes the transfer; without chunking nothing is added; with chunking the data is framed as a chunk, or the empty read sends the last chunk |
| UvUtil.ChunkFrame | src/uvutil.cpp:143-155 | one chunk: its size line reads back as the length of its data, which follows it and is followed by CR LF |
| UvUtil.Run | src/uvutil.cpp:107-172 | a transfer already errored or completed sends nothing more; a reported status is 0 or 1, and a transfer that starts without error and whose reads all succeed never reports 1 |
| UvUtil.WriteEnded | src/uvutil.cpp:48-60 | a finished write leaves one fewer outstanding and changes nothing else |
| UvUtil.ChunkedTransfer | src/uvutil.cpp:107-172 | a chunked transfer of non-empty reads followed by the empty read sends every read as one chunk, then the last chunk, and completes with status 0 |
| UvUtil.PlainTransfer | src/uvutil.cpp:157-168 | without chunking the reads go out back to back and the transfer completes with status 0 |
| UvUtil.FrameHeader | src/uvutil.cpp:151-153 | the size line of a chunk reads back as the size of its data |
| UvUtil.DechunkChunked | src/uvutil.cpp:143-155 | a chunked-coding reader gets back the concatenated data of the chunks |
| UvUtil.ChunkedTransferDecodes | src/uvutil.cpp:107-172 | end to end: what a chunked transfer sends decodes to the concatenated reads |
| WebApplication.NormalizeChar | src/webapplication.cpp:14-17 | '-' becomes '_', a lower-case letter its upper-case form, anything else is kept |
| WebApplication.NormalizeHeaderName | src/webapplication.cpp:9-20 | same length, each character normalised in place |
| WebApplication.NormalizedForm | src/webapplication.cpp:9-20 | no '-' and no lower-case letter is left, and every other character is kept |
| WebApplication.NormalizeIdempotent | src/webapplication.cpp:9-20 | normalising twice is normalising once |
| WebApplication.NormalizeIgnoresCase | src/webapplication.cpp:9-20 | names equal up to ASCII case normalise alike |
| WebApplication.GetStatusDescription | src/webapplication.cpp:22-72 | a listed code gets its phrase from the table, any other code "Dunno" |
| WebApplication.UnknownOnlyForUnlisted | src/webapplication.cpp:22-72 | "Dunno" comes back exactly for the codes the table does not list |
| WebApplication.SplitUrl | src/webapplication.cpp:81-89 | path and query string put the URL back together, the path holds no '?', and the query string is empty or starts with '?' |
| WebApplication.SplitUrlUnique | src/webapplication.cpp:81-89 | those three properties determine the split: no other pair has them |
| WebApplication.EnvKey | src/webapplication.cpp:115 | a header's environment name is "HTTP_" followed by its normalised name |
| WebApplication.HeaderEnvLastWins | src/webapplication.cpp:111-116 | a header whose name no later header shares lands in the environment with its own value |
| WebApplication.HeaderEnvKeeps | src/webapplication.cpp:111-116 | a name no header maps to keeps whatever it had |
| WebApplication.HeaderEnvAdds | src/webapplication.cpp:111-116 | every name the header loop adds is the environment name of some header |
| WebApplication.HeaderEnvSpares | src/webapplication.cpp:111-116 | the header loop leaves alone every name that does not start with 'H', so it cannot clobber the fixed entries |
| WebApplication.RequestToEnv | src/webapplication.cpp:75-117 | whatever the headers, `PATH_INFO` and `QUERY_STRING` put the URL back together and `REQUEST_METHOD` is the verb |
| WebApplication.RequestToEnvHolds | src/webapplication.cpp:75-117 | `PATH_INFO` and `QUERY_STRING` put the URL back together, the method and the server port are recorded, and every header not shadowed by a later one is present with its value |
| WebApplication.GetData | src/webapplication.cpp:131-152 | at the end nothing is handed out and nothing changes; the vector is never changed |
| WebApplication.GetDataAsInMemory | src/webapplication.cpp:131-152 | the raw-vector source hands out exactly what the in-memory source would |
| WebApplication.DrainVector | src/webapplication.cpp:131-152 | reading the raw-vector source to the end yields exactly the unread bytes |
| WebApplication.BodyBytes | src/webapplication.cpp:180-196 | a `bodyFile` takes precedence; otherwise a raw body is used as is and a character body as its bytes |
| WebApplication.AddHeaders | src/webapplication.cpp:200-205 | the headers are appended in list order, nothing else changes |
| WebApplication.ListToResponse | src/webapplication.cpp:163-208 | a NULL or empty list gives no response; otherwise the status with its phrase, the headers in order, the body's bytes, not marked to close |
| Socket.AddConnection | src/socket.cpp:8-10 | the request is appended and the earlier connections stay in order |
| Socket.RemoveConnection | src/socket.cpp:12-16 | the erase-remove loop computes exactly the list without that request |
| Socket.WithoutRemoves | src/socket.cpp:12-16 | afterwards the request is absent, every other connection is still there, and the list is shorter by the number of times the request occurred |
| Socket.WithoutCommutes | src/socket.cpp:12-16 | removing two requests in either order gives the same list, and removing one twice is removing it once |
| Socket.AddThenRemove | src/socket.cpp:8-16 | adding a request and removing it again gives the list without it |
| WebSocketBase.Reverse | src/websockets-base.cpp:9-24 | reference definition: same length, element `k` is element `len - 1 - k` |
| WebSocketBase.ReverseReverse | src/websockets-base.cpp:9-24 | reversing twice gives back the sequence |
| WebSocketBase.SwapByteOrder | src/websockets-base.cpp:9-24 | the loop reverses exactly the range `[start, end)` and leaves every byte outside it alone |
| WebSocketBase.SwapTwice | src/websockets-base.cpp:9-24 | swapping the same range twice restores the buffer |
| WebSocketBase.ShortRangeUnchanged | src/websockets-base.cpp:12-14 | a range of zero or one bytes is left as it is |
| WebSocketFrame.ToFin | src/websockets-ietf.cpp:85-91 | the FIN bit a protocol writes is read back as the same flag by that protocol, for both IETF and HyBi-03 (whose bit is inverted) |
| WebSocketFrame.EncodeOpcode | src/websockets-ietf.cpp:93-117 | every opcode a protocol encodes is a four-bit value that the same protocol decodes back to that opcode |
| WebSocketFrame.ReadBits | src/websockets.cpp:93-106 | `read` returns a value that fits in the number of bits asked for |
| WebSocketFrame.FirstBytes | src/websockets.cpp:59-68 | FIN is the top bit of the first byte, the opcode its low four bits, MASK the top bit of the second byte and the length field its low seven bits |
| WebSocketFrame.ReadByte | src/websockets.cpp:93-106 | reading eight bits at a byte boundary gives that byte |
| WebSocketFrame.BigEndianRoundTrip | src/websockets.cpp:107-123 | writing a number in big-endian bytes and reading them back gives the number |
| WebSocketFrame.Read64 | src/websockets.cpp:107-123 | `read64` is a value below 2^64, as its `uint64_t` accumulator is |
| WebSocketFrame.Read64NoWrap | src/websockets.cpp:107-123 | up to eight whole bytes, `read64` is exactly their big-endian value |
| WebSocketFrame.FieldsAsRead | src/websockets.cpp:59-68 | fin, opcode, mask and the length-of-length are the fields `read` extracts at bit offsets 0, 4, 8 and 9, passed through the protocol's decoding |
| WebSocketFrame.PayloadLengthLength | src/websockets.cpp:124-134 | the payload length takes 7, 23 or 71 bits |
| WebSocketFrame.KeyAsRead | src/websockets.cpp:80-89 | the masking key is the four bytes read after the length fields |
| WebSocketFrame.ExtendedLengthBytes | src/websockets.cpp:124-134 | the extended length takes 0, 2 or 8 bytes |
| WebSocketFrame.MaskingKeyLength | src/websockets.cpp:135-137 | the key takes 32 bits when the frame is masked and none otherwise |
| WebSocketFrame.HeaderLength | src/websockets.cpp:90-92 | the header is two bytes plus the extended length plus four bytes of key when masked, so between 2 and `MAX_HEADER_BYTES` (14) |
| WebSocketFrame.HeaderLengthOfSecondByte | src/websockets.cpp:90-92 | the header length and the mask bit depend on the second byte only |
| WebSocketFrame.IsHeaderComplete | src/websockets.cpp:38-43 | a complete header holds its extended length and, when masked, its key; fourteen bytes always hold a header |
| WebSocketFrame.IncompleteIsShort | src/websockets.cpp:38-43 | a header that is not complete is shorter than 14 bytes |
| WebSocketFrame.PayloadLength | src/websockets.cpp:69-79 | the payload length is below 2^64 |
| WebSocketFrame.PayloadLengthValue | src/websockets.cpp:69-79 | the payload length is the seven-bit field when below 126, otherwise the big-endian number in the next two or eight bytes |
| WebSocketFrame.MaskingKey | src/websockets.cpp:80-89 | `maskingKey` always yields four bytes |
| WebSocketFrame.HeaderInfo | src/websockets.cpp:45-57 | the header info always carries a length, its mask flag is the frame's, and a masked frame carries a four-byte key |
| WebSocketFrame.HeaderInfoOfPrefix | src/websockets.cpp:38-57 | bytes after a complete header change neither its completeness, its length nor the info read from it |
| WebSocketFrame.LayoutLength | src/websockets.cpp:69-92 | a header laid out as section 5.2 of RFC 6455 describes has its mask bit, its own length as header length, and its payload length read back |
| WebSocketFrame.LayoutReadsBack | src/websockets.cpp:38-137 | a laid-out header is complete, and reading it gives back FIN, opcode, mask, key and length |
| WebSocketFrame.LayoutPrefixIncomplete | src/websockets.cpp:38-43 | a laid-out header cut short anywhere is not complete |
| WebSocketFrame.Min | src/websockets.cpp:18-21 | `min` is the smaller of its arguments |
| WebSocketParser.Gathered | src/websockets.cpp:169-172 | the held header bytes are kept, and the new bytes appended stop at 14 in all |
| WebSocketParser.Read | src/websockets.cpp:159-215 | `read` leaves the parser between reads with an incomplete header held, or in the payload state with no header held |
| WebSocketParser.ReadWellFormed | src/websockets.cpp:159-215 | every header event `read` fires for a masked frame carries a four-byte key |
| WebSocketParser.HeaderBytesHeld | src/websockets.cpp:188-192 | bytes that still leave the header incomplete are all held and no callback fires |
| WebSocketParser.HeaderStep | src/websockets.cpp:169-187 | once the gathered bytes hold a complete header, the header event fires, the payload count is set from it, and the read goes on from the first byte after the header |
| WebSocketParser.HeaderCompletes | src/websockets.cpp:169-187 | the read that completes a header fires the header event with that header's info and goes on after it, whatever part of it was held before |
| WebSocketParser.PayloadCompletes | src/websockets.cpp:194-208 | when the read reaches the end of the payload, the remaining payload bytes are passed on, the frame completes, and the rest is read as a new frame |
| WebSocketParser.OneFrame | src/websockets.cpp:159-215 | a header, its payload and more bytes fire exactly header, payload and frame-complete, then whatever the rest fires |
| WebSocketParser.ZeroLengthFrameWaits | src/websockets.cpp:194-213 | a header with an empty payload at the end of the data fires only the header event; the empty payload and frame completion fire on the next read that brings any bytes |
| WebSocketParser.PayloadCountedOff | src/websockets.cpp:194-213 | payload that does not finish the frame is passed on whole and counted off the bytes still due |
| WebSocketParser.SplitHeader | src/websockets.cpp:159-215 | splitting a frame's header across two reads fires nothing on the first and the same callbacks overall |
| WebSocketParser.HeaderPrefixHeld | src/websockets.cpp:188-192 | the first bytes of a header are held and fire nothing |
| WebSocketParser.LaidOutFrameReadsBack | src/websockets.cpp:159-215 | a frame laid out as section 5.2 of RFC 6455 describes reads back as its header info, its payload and frame completion |
| WebSocketIetf.ParseExtensionInfo | src/websockets-ietf.cpp:16-28 | the extension name is the first `;` piece, untrimmed, and the parameters are the later pieces read into a map |
| WebSocketIetf.ParamsKeys | src/websockets-ietf.cpp:20-23 | the map's keys are exactly the names the pieces give |
| WebSocketIetf.ParamsLastWins | src/websockets-ietf.cpp:20-23 | a name given more than once keeps the value of its last occurrence |
| WebSocketIetf.SecondEqualsTruncates | src/websockets-ietf.cpp:21-22 | for every key `k` and value `v` without '=' and any text `w`, the parameter `k=v=w` has key `k` and value `v`: the text after a second `=` is dropped |
| WebSocketIetf.CanHandle | src/websockets-ietf.cpp:34-40 | accepted exactly when an `upgrade` header equals "websocket" up to ASCII case and a `sec-websocket-key` header is present |
| WebSocketIetf.CanHandleIgnoresSpelling | src/websockets-ietf.cpp:34-40 | an `upgrade` header equal to "websocket" in any case plus a `sec-websocket-key` header, whatever case the client spells their names in, is handled; without the key header the request is not |
| WebSocketIetf.DeflateOffers | src/websockets-ietf.cpp:76-81 | the number of permessage-deflate offers is zero exactly when no offer's trimmed name is "permessage-deflate" |
| WebSocketIetf.Handshake | src/websockets-ietf.cpp:42-83 | the handshake switches permessage-deflate on exactly when it was on already or some offer names it, and changes nothing else in the context |
| WebSocketIetf.HandshakeHeaders | src/websockets-ietf.cpp:61-82 | the response headers are Connection, Upgrade and Sec-WebSocket-Accept, in that order, then one `Sec-WebSocket-Extensions: permessage-deflate` for every offer of it |
| WebSocketIetf.AcceptCarriesDigest | src/websockets-ietf.cpp:49-59 | base64-decoding the accept value gives back the SHA-1 digest of the trimmed key followed by the GUID of section 1.3 of RFC 6455 |
| WebSocketIetf.FinRoundTrip | src/websockets-ietf.cpp:85-91 | `toFin` writes 1 for a final fragment and 0 otherwise, and `isFin` reads that back |
| WebSocketIetf.OpcodeRoundTrip | src/websockets-ietf.cpp:93-117 | an opcode encodes to its value in section 5.2 of RFC 6455 and decodes back to itself |
| WebSocketIetf.UnknownCodesAreReserved | src/websockets-ietf.cpp:93-104 | codes outside the table decode to Reserved, and codes in it encode back to themselves |
| WebSocketHyBi03.SpaceCount | src/websockets-hybi03.cpp:12-13 | the space count is zero exactly when the text has no space |
| WebSocketHyBi03.KeyDigits | src/websockets-hybi03.cpp:14-17 | the digits collected are all decimal digits |
| WebSocketHyBi03.PrefixStep | src/websockets-hybi03.cpp:9-18 | one more character adds one to the space count if it is a space, one digit to the number if it is a digit, and nothing otherwise |
| WebSocketHyBi03.Accumulate | src/websockets-hybi03.cpp:7-18 | the loop ends with the number the key's digits spell and the number of its spaces, both modulo 2^32 |
| WebSocketHyBi03.CalculateKeyValue | src/websockets-hybi03.cpp:5-24 | `calculateKeyValue` fails exactly when the 32-bit space count is zero, and otherwise yields the digits' value (modulo 2^32) divided by the spaces |
| WebSocketHyBi03.RejectedIffNoSpace | src/websockets-hybi03.cpp:19-20 | for any key shorter than 2^32 characters, it fails exactly when the trimmed key holds no space |
| WebSocketHyBi03.CountsOfConcat | src/websockets-hybi03.cpp:9-18 | spaces and digits of two texts joined are those of each, joined |
| WebSocketHyBi03.OtherCharactersIgnored | src/websockets-hybi03.cpp:12-17 | characters other than spaces and digits do not change the key value |
| WebSocketHyBi03.CanHandle | src/websockets-hybi03.cpp:26-42 | an accepted request has eight bytes of body, both key headers each with a space in its trimmed value, and an `upgrade` header equal to "websocket" up to ASCII case |
| WebSocketHyBi03.KeyValueNeedsSpace | src/websockets-hybi03.cpp:5-24 | a key header with a key value has a space in its trimmed form |
| WebSocketHyBi03.KeyWithoutSpaceIsRejected | src/websockets-hybi03.cpp:26-42 | a `sec-websocket-key1` without a space means the request is not handled |
| WebSocketHyBi03.BigEndianReadsBack | src/websockets-hybi03.cpp:54-59 | the four bytes of a 32-bit key read as a big-endian number give the key |
| WebSocketHyBi03.ChallengeIsBigEndian | src/websockets-hybi03.cpp:53-60 | on either kind of host the 16-byte challenge is key 1 big-endian, key 2 big-endian, then the eight body bytes |
| WebSocketHyBi03.Origin | src/websockets-hybi03.cpp:70-74 | the origin echoed is `sec-websocket-origin`, else `origin`, else empty |
| WebSocketHyBi03.Handshake | src/websockets-hybi03.cpp:44-84 | the response is the MD5 of the big-endian challenge, and the third of four headers echoes the origin |
| WebSocketHyBi03.HandshakeIgnoresHostOrder | src/websockets-hybi03.cpp:53-60 | the host's byte order does not change the handshake |
| WebSocketHyBi03.FinRoundTrip | src/websockets-hybi03.cpp:86-92 | `toFin` writes 0 for a final fragment, and `isFin` reads that back |
| WebSocketHyBi03.OpcodeRoundTrip | src/websockets-hybi03.cpp:94-117 | every opcode survives encoding and decoding, codes 0 to 5 survive decoding and encoding, and higher codes decode to Reserved |
| WebSocketHixie76.FrameHeaderFooter | src/websockets-hixie76.cpp:13-23 | whatever the frame, the header is the byte 0x00 and the footer the byte 0xFF |
| WebSocketHixie76.EndMarker | src/websockets-hixie76.cpp:54-57 | the end marker is the first 0xFF, or the end of the data when there is none |
| WebSocketHixie76.Read | src/websockets-hixie76.cpp:26-143 | `read` never leaves the parser waiting for binary payload with nothing due |
| WebSocketHixie76.ReadUnmasked | src/websockets-hixie76.cpp:40-46 | no header `read` announces is masked |
| WebSocketHixie76.TextRun | src/websockets-hixie76.cpp:52-78 | text up to the next 0xFF is passed on when there is any, the marker completes the frame, and the bytes after it start a new frame |
| WebSocketHixie76.TextWithoutMarker | src/websockets-hixie76.cpp:63-77 | text that has not reached its marker is passed on whole and the frame stays open |
| WebSocketHixie76.TextFrameReadsBack | src/websockets-hixie76.cpp:13-78 | text without 0xFF framed by `createFrameHeaderFooter` reads back as a text header, the text, and frame completion |
| WebSocketHixie76.CloseFrame | src/websockets-hixie76.cpp:80-91 | 0xFF 0x00 announces and completes a Close frame, and the parser stays in the state after 0xFF |
| WebSocketHixie76.NonzeroAfterMarkerIsLength | src/websockets-hixie76.cpp:92-97 | after 0xFF, a non-zero byte is read again as a length byte |
| WebSocketHixie76.AccumulateLast | src/websockets-hixie76.cpp:101-103 | each length byte multiplies the count by 128 and adds its low seven bits, modulo 2^64 |
| WebSocketHixie76.LengthBytesAccumulate | src/websockets-hixie76.cpp:99-124 | length bytes with the high bit set only accumulate the length |
| WebSocketHixie76.LeadingDigits | src/websockets-hixie76.cpp:107-108 | every leading digit of the reference length encoding has its high bit set |
| WebSocketHixie76.LeadingDigitsValue | src/websockets-hixie76.cpp:99-124 | the leading digits accumulate to the number they encode |
| WebSocketHixie76.FinalLengthByte | src/websockets-hixie76.cpp:107-124 | a length byte with the high bit clear announces a binary frame with the accumulated length, and completes it at once when that length is 0 |
| WebSocketHixie76.BinaryPayloadWhole | src/websockets-hixie76.cpp:126-141 | the whole announced payload arriving at once is passed on and completes the frame |
| WebSocketHixie76.BinaryFrameReadsBack | src/websockets-hixie76.cpp:26-143 | a type byte, the length in base 128 and the payload read back as a binary header with that length, the payload when not empty, and frame completion |
| WebSocketHixie76.BinaryKind | src/websockets-hixie76.cpp:48-50 | a type byte with the high bit set, other than 0xFF, starts reading a length |
| WebSocketHixie76.BinaryCountedOff | src/websockets-hixie76.cpp:126-135 | binary bytes short of the announced length are passed on and counted off |
| WebSocketHixie76.EmptyReadChangesNothing | src/websockets-hixie76.cpp:27-28 | a read of no bytes changes nothing and fires nothing |
| WebSocketConnection.SendWSMessage | src/websockets.cpp:250-269 | a closed connection sends nothing; otherwise exactly one frame of the given opcode and data |
| WebSocketConnection.CloseMessage | src/websockets.cpp:288-293 | the close payload is two code bytes followed by the reason |
| WebSocketConnection.CloseCodeIsBigEndian | src/websockets.cpp:288-293 | on either kind of host the status code goes out most significant byte first |
| WebSocketConnection.CloseWS | src/websockets.cpp:271-300 | a second close request does nothing; from Open a close frame is sent and the state is CloseSent; after a peer's close the state is Closed and the socket is closed, and only then |
| WebSocketConnection.OnHeaderComplete | src/websockets.cpp:320-327 | a closed connection ignores the header; otherwise it becomes current, and a non-final frame that is not a continuation also opens the message |
| WebSocketConnection.XorBitsTwice | src/websockets.cpp:336-339 | xoring with the same bits twice gives back the original |
| WebSocketConnection.XorTwice | src/websockets.cpp:336-339 | xoring a byte with the same key byte twice gives back the byte |
| WebSocketConnection.Mask | src/websockets.cpp:335-340 | each payload byte is xored with the key byte at its position in the frame's payload modulo 4 |
| WebSocketConnection.MaskTwice | src/websockets.cpp:335-340 | unmasking undoes masking |
| WebSocketConnection.MaskPieces | src/websockets.cpp:332-340 | masking a payload in pieces, each at its own offset, masks the whole |
| WebSocketConnection.OnPayload | src/websockets.cpp:328-341 | a closed connection ignores the bytes; otherwise they are appended to the payload, unmasked when the frame is masked |
| WebSocketConnection.OnPayloadPieces | src/websockets.cpp:328-341 | however the bytes of a frame are split between calls, the payload comes out the same |
| WebSocketConnection.EchoIsLost | src/websockets.cpp:366-386 | as written, a close frame received on an open connection sets the state to Closed before the echo, so the echo is never sent |
| WebSocketConnection.ReceiveCloseAsWritten | src/websockets.cpp:366-386 | as written, a close frame received in any state but Closed ends Closed with only the socket closed and the close reported; no close frame goes back |
| WebSocketConnection.ReceiveClose | src/websockets.cpp:366-386 | a close frame ends the connection; it is echoed unless this side has already sent its close, then the socket is closed and the close reported |
| WebSocketConnection.OnFrameComplete | src/websockets.cpp:342-406 | a non-final frame's payload joins the message; a final continuation delivers the whole message typed by the opening frame; text and binary are delivered; a ping is answered with a pong carrying its payload; a final close frame, as written, ends Closed with the socket closed and the close reported and nothing echoed; the payload is cleared |
| WebSocketConnection.CloseFrameCloses | src/websockets.cpp:366-386 | as written, a peer's final close frame always ends the connection, with the socket closed, the close reported and no frame sent back, even from Open |
| WebSocketConnection.OnFrameCompleteIntended | src/websockets.cpp:342-406 | corrected: a final close frame ends Closed through the echoing close handling; every other frame is handled as written |
| WebSocketConnection.CloseFrameClosesIntended | src/websockets.cpp:366-386 | corrected: a peer's final close frame is echoed with its payload from Open, not echoed after this side's own close, and the connection ends Closed |
| WebSocketConnection.Handle | src/websockets.cpp:320-406 | the state only moves forward, a closed connection ignores every callback, and a peer's close never leaves the connection in CloseReceived |
| WebSocketConnection.Deliver | src/websockets.cpp:320-406 | the same over a read's callbacks in order, and the socket is only closed when the connection ends Closed |
| WebSocketConnection.DeliverAppend | src/websockets.cpp:302-307 | delivering two runs of callbacks one after the other is delivering them joined |
| WebSocketConnection.RunAppend | src/websockets.cpp:302-307 | folding a step over two lists in turn is folding it over the two joined |
| WebSocketConnection.DeliverIsRun | src/websockets.cpp:302-307 | delivering callbacks is the fold of the single-callback step |
| WebSocketConnection.Read | src/websockets.cpp:302-313 | a closed connection ignores the bytes; otherwise the state only moves forward |
| WebSocketConnection.MaskedFrameDelivered | src/websockets.cpp:159-215 | a final, masked text or binary frame as a client sends it, arriving in one read, delivers exactly the client's message |
| WebSocketConnection.FrameStep | src/websockets.cpp:320-406 | a frame's three callbacks act as header, payload, then frame completion |
| WebSocketConnection.MiddleStep | src/websockets.cpp:347-349 | a middle continuation gathers its bytes and delivers nothing |
| WebSocketConnection.MiddleGathers | src/websockets.cpp:347-349 | any number of middle continuations gather their bytes in order and deliver nothing |
| WebSocketConnection.FragmentsReassembled | src/websockets.cpp:342-364 | an opening frame, continuations and a final continuation deliver one message: the bytes of all fragments in order, typed by the opening frame |
| WebSocketReceiver.Push | deflate-client/lib/util.mjs:45-52 | the event joins the tail of the queue, and a waiting consumer is woken exactly when one was waiting |
| WebSocketReceiver.NextEvent | deflate-client/lib/util.mjs:54-75 | an empty queue makes the consumer wait; otherwise the head is taken off, and returned when its type is the one asked for (or any was asked for), else it is an error event's own error or a mismatch error naming both types |
| WebSocketReceiver.WaitReusesPromise | deflate-client/lib/util.mjs:54-60 | waiting twice on an empty queue reuses the one promise |
| WebSocketReceiver.PushWakes | deflate-client/lib/util.mjs:45-60 | an event pushed while the consumer waits wakes it, and its next call receives that event |
| WebSocketReceiver.PushAll | deflate-client/lib/util.mjs:45-52 | pushing events in turn queues them in order |
| WebSocketReceiver.FifoOrder | deflate-client/lib/util.mjs:45-75 | events come out in the order they were pushed, each exactly once, and a further call waits |
| WebSocketReceiver.WithWS | deflate-client/lib/util.mjs:78-89 | `withWS` settles unless it is still waiting for the first event; it settles to the opening event's error or to the callback's outcome, and the socket is closed on every path out |
| WebSocketReceiver.WithWSNeedsOpen | deflate-client/lib/util.mjs:78-89 | only an "open" event at the head of the queue lets the callback's outcome through; anything else ends in an error |

## Left out

- The event loop and I/O are not modelled: libuv, `uv_write`, the socket read/alloc/write callbacks, `Socket::close`, server start and stop, and the prototype servers. Every step returns what it would write or call instead.
- Threads, queues and the background/main-thread hand-offs are not modelled. They exist for thread safety, and each modelled step runs on one thread.
- SHA-1, MD5 and zlib are parameters rather than code, because their code is foreign. This includes the compression loop `flate` of src/deflate.cpp and the gzip data source.
- `http_parser` is not modelled. Its callbacks are modelled, and so is `http_should_keep_alive`, but only as a boolean parameter.
- The R and Rcpp conversions are not modelled, because they are foreign code. An R list or vector is modelled by the plain data it carries.
- The `StaticPathOptions(List)` constructor and `setOptions` are not modelled, for the same reason.
- Files served through `FileDataSource` are reduced to their bytes. The file system calls are not modelled.
- `strcasecmp` stops at an embedded NUL. The model compares whole strings, so header names containing NUL are not distinguished the way the C library would.
- Frame-header encoding for RFC 6455 and HyBi-03 (`createFrameHeader`) is not in the source files, so it is not modelled. `WebSocketFrame.LayoutHeader` is a reference layout of section 5.2 of RFC 6455, used only to state what the reader reads back.
- The `rsv1` bit is not modelled. src/websockets.h declares it, but the frame reader in src/websockets.cpp never sets it.
- Uninitialised fields are given explicit starting values. In the source, the connection's current and opening headers and the Hixie-76 `_state` have no initialiser. The model starts them as `WebSocketConnection.NoHeader` and `WebSocketHixie76.Initial`.
- PermessageDeflate.AtoiStopsAtNonDigit: `atoi` overflow is not modelled. Only values of at most two characters reach it.
- PermessageDeflate.ResponseValue: its own contract only fixes the leading "permessage-deflate". The full content of the value is stated by `PermessageDeflate.ResponseReadsBack`, which parses the value back.
- Response and request header maps are unordered. `std::map` iteration order shows nowhere in the modelled behaviour.
- `my_timegm` overflow of `time_t` for extreme years is not modelled.
- The `int` fields of `http_date_string` are unbounded.
- Deflate.Init: the error message of the inflator's range check names 9 as the lower bound while the check accepts 8. The model keeps both as the source has them: the accepted range starts at 8, and the message text names 9.
- WebSocketReceiver.WithWS: the callback is given by its outcome, because its body is whatever the test script passes in.
- WebSocketReceiver.NextEvent: every falsy `type` argument is modelled as the empty string.
- StaticPathManager.NewStaticPath: an empty path requires `exclude` to be set. This is because the source dereferences that optional in its check.
- StaticPathManager.ValidateRequestHeaders: requires that a pattern starting with `"=="` has at least three entries. The source reads `pattern[1]` and `pattern[2]` without a size check (src/staticpath.cpp:139-140), so a shorter one is read past its end, which is undefined behaviour. The model does not cover that case. Every other pattern is covered: unset, empty, and one whose operator is not `"=="`.
- The Hixie-76 `handshake` is the HyBi-03 handshake, which it calls. It is modelled once, as `WebSocketHyBi03.Handshake`.
- deflate-client/index.mjs is not modelled. It is a test script that drives a live server.

## Findings

| source | as written | input that shows it | evidently intended | confidence | as-written member | corrected member |
|---|---|---|---|---|---|---|
| src/httpuv.cpp:453 | `std::setw(2)` pads with the stream's fill, a space, so a byte below 0x10 is escaped as '%', a space and one hex digit, which the decoder does not read as an escape | the string "\n" encodes to "% A" and decodes to "% A" | a zero-filled two-digit escape, so that decoding undoes encoding for every byte | not executed | UriCodec.LineFeedDoesNotRoundTrip | UriCodec.RoundTrip |
| src/time.h:15-17 | the leap-day counts use C's truncating division, which rounds `(year - 1968) / 4` toward zero for years before 1968 | 1967-01-01 00:00:00 gives -1095 days, where the calendar gives -1096 | floor division, which counts leap days correctly in every year | not executed | Time.MyTimegmWrongBefore1968 | Time.MyTimegmFloorIsCivil |
| src/websockets.cpp:366-379 | on a peer's Close, the state is set to `WS_CLOSED` before `sendWSMessage` is called, and `sendWSMessage` returns at once on a closed connection | a Close frame received while the connection is open: no Close frame is echoed | the echo of section 5.5.1 of RFC 6455 is sent before the connection counts as closed | not executed | WebSocketConnection.EchoIsLost | WebSocketConnection.ReceiveClose |
| src/fs.cpp:16-22 | with no '.' in the name, `find_last_of` returns `npos`, the `<= 0` test fails, and `substr(npos + 1)` is `substr(0)`, the whole name | "README" has extension "README" | an empty extension for a name without a dot | not executed | Fs.ExtensionOfDotlessName | Fs.FindExtension |
