# metatrader5ext wire codec — a verified Dafny model

This project models the client side of the text protocol that metatrader5ext
uses to talk to a MetaTrader 5 terminal. A frame is `CODE^SUB^f1^f2^…`: a
command code, a sub-command and '^'-separated fields, with no escaping. The
model covers:

- the frame builder and parser, `make_message` and `parse_response_message`
  (module `CommMsg`, on top of `Text` for split and join and `Numbers` for
  decimal text);
- the typed field decoder `decode`, with its "unset" sentinels, the
  sentinel writers, `isAsciiPrintable`, `MQL5parse` and `MQL5Period`
  (module `EaUtils`);
- the legacy byte transform of `MQL5Client`: pairwise run-length expansion,
  then a shift of every byte down by 42 (module `LegacyTransform`). It is
  modelled once, because `metatrader5ext/connection.py` and `mql_client.py`
  carry the same code;
- the EA command client, `EAClient`: its status fields, `_process_response`
  and the four record queries. The transport `send_message` is a function
  parameter (module `EaClient`);
- the helpers of the JavaScript reference client:
  - the timeframe and instrument-name tables (`JsLookup`);
  - the paging of tick and bar requests (`JsPaging`);
  - `sendCommand` framing and its `!` terminator (`JsTransport`);
  - list and row-count replies, sorting by date, and the date-window check
    (`JsReplies`).

Where the source changes state step by step, the model does too:
- `EAClient` and the decoder's shared field iterator (`FieldStream`) are
  classes whose methods update their fields.
- The loops of `parse_response_message`, `uncompress_string`, `MQL5parse`,
  `MQL5Period`, the JavaScript page loop, the chunk loop of `sendCommand`,
  the row-count loop and the page gathering are methods with loop invariants.
- `parse_response_message`, `uncompress_string` and `MQL5parse` are proved
  equal to a specification function, and their properties are proved as
  lemmas about that function.
- `MQL5Period`, the page loop (`PlanPages`), the chunk loop (`Receive`),
  `RowCountReply` and `GatherPages` state their properties directly in their
  postconditions: the result, its bounds, and its order and contents.

## Model

| member | source | states |
|---|---|---|
| Text.SplitCount | metatrader5ext/ea/comm_msg.py:43 | splitting on '^' gives one more piece than there are '^'s |
| Text.JoinSplit | metatrader5ext/ea/comm_msg.py:12 | joining the pieces of a split with the same delimiter rebuilds the text |
| Text.SplitJoin | metatrader5ext/ea/comm_msg.py:12 | splitting a join of delimiter-free parts gives back exactly those parts |
| Text.Upper | metatrader5ext/ea/utils.py:227 | the length is kept, no lower-case ASCII letter is left, each lower-case letter becomes its capital and every other character is kept |
| Numbers.ParseIntToString | metatrader5ext/ea/client.py:119 | `int(str(n)) == n` for every integer |
| Numbers.JsParseIntToString | docs/Others/jstrader_api_V1_01.js:1415 | `parseInt(n.toString()) == n` for every integer |
| Numbers.IntegerIsNumeral | metatrader5ext/ea/utils.py:103 | every text that `int()` accepts is a numeral that `float()` and `Decimal()` accept too |
| CommMsg.MakeMessageNoParameters | metatrader5ext/ea/comm_msg.py:12-15 | with no parameters the message is `command^sub^` |
| CommMsg.MakeMessageNoTrailingDelimiter | metatrader5ext/ea/comm_msg.py:12-17 | no '^' is added after a non-empty last parameter |
| CommMsg.MakeMessage | metatrader5ext/ea/comm_msg.py:1-17 | when the command, the sub-command and the parameters hold no '^', splitting the message on '^' gives them back, with one empty piece when there are no parameters |
| CommMsg.TrimTrailingEmpty | metatrader5ext/ea/comm_msg.py:57-62 | the kept data is a prefix that is empty or ends in a non-empty piece, and every piece cut off is empty |
| CommMsg.TrimTrailingEmptyAt | metatrader5ext/ea/comm_msg.py:57-62 | cutting the data just after its last non-empty piece, with only empty pieces beyond, is exactly the trim |
| CommMsg.ParseResponse | metatrader5ext/ea/comm_msg.py:32-73 | a parsed frame's command and sub-command hold no '^', and its data are non-empty '^'-free pieces |
| CommMsg.ParseResponseMessage | metatrader5ext/ea/comm_msg.py:32-73 | the loop that walks the index back over trailing empty pieces computes exactly the specified parse |
| CommMsg.ParseTooShort | metatrader5ext/ea/comm_msg.py:43-47 | the result is the too-short error exactly when the text has fewer than two '^' |
| CommMsg.ExampleTooShort | metatrader5ext/ea/comm_msg.py:46-47 | `"F123^Y"` is rejected as too short |
| CommMsg.ParseSuccess | metatrader5ext/ea/comm_msg.py:50-73 | on success, command and sub-command are the first two pieces, unchecked; data are the next pieces up to the last non-empty one; none of the data is empty, and every later piece is empty |
| CommMsg.ParseHiddenDelimiter | metatrader5ext/ea/comm_msg.py:64-66 | the hidden-delimiter error happens exactly when an empty data piece precedes a non-empty one |
| CommMsg.ParseIgnoresTrailingSep | metatrader5ext/ea/comm_msg.py:54-62 | appending a '^' to a frame of at least three pieces does not change the parse |
| CommMsg.ParseIgnoresTrailingSeps | metatrader5ext/ea/comm_msg.py:54-62 | appending any number of '^' does not change the parse |
| CommMsg.RoundTrip | metatrader5ext/ea/comm_msg.py:1-73 | parsing a built message with '^'-free command and sub-command and non-empty '^'-free parameters returns exactly them |
| CommMsg.RoundTripTrailingSeps | metatrader5ext/ea/comm_msg.py:82-84 | the same round trip holds with any number of trailing '^', as in `"F123^Y^param1^param2^param3^^"` |
| CommMsg.MakeMessageHiddenDelimiter | metatrader5ext/ea/comm_msg.py:65-66 | a built message with an empty parameter before a non-empty one is rejected by the parser |
| EaUtils.FieldStream.Decode | metatrader5ext/ea/utils.py:85-141 | each call consumes exactly one field and decodes it; an exhausted iterator gives "no more fields" and consumes nothing |
| EaUtils.DecodeField | metatrader5ext/ea/utils.py:93-141 | a decoded value has the Python type asked for; a missing field fails only for `str` (`TypeError`) and `float` (`AttributeError`); a `str` is the field itself; a conversion never reports "no more fields" |
| EaUtils.DecimalUnsetForms | metatrader5ext/ea/utils.py:93-103 | a decimal field reads as `UNSET_DECIMAL` exactly when it is missing, empty or one of the three sentinel literals; any other field raises `InvalidOperation` exactly when it is not a numeral |
| EaUtils.BoolIsNonZero | metatrader5ext/ea/utils.py:117-119 | a bool field is read as an int and is false exactly when that int is 0; a non-numeral is a `ValueError` |
| EaUtils.InfinityFirst | metatrader5ext/ea/utils.py:121-123 | a float field equal to `INFINITY_STR` is `DOUBLE_INFINITY`, with or without `show_unset` |
| EaUtils.FloatNumerals | metatrader5ext/ea/utils.py:121-136 | a present float field other than `INFINITY_STR` and the empty text reads as itself when it is a numeral, and raises `ValueError` otherwise |
| EaUtils.AbsentVersusZero | metatrader5ext/ea/utils.py:125-136 | without `show_unset` an empty int field equals "0"; with it, an empty field is `UNSET_INTEGER` (float: `UNSET_DOUBLE`), distinct from 0 |
| EaUtils.IntMaxString | metatrader5ext/ea/utils.py:169-170 | empty exactly for `UNSET_INTEGER`; otherwise text that `int()` reads back as the value |
| EaUtils.LongMaxString | metatrader5ext/ea/utils.py:165-166 | empty exactly for `UNSET_LONG`; otherwise text that `int()` reads back as the value |
| EaUtils.DecimalMaxString | metatrader5ext/ea/utils.py:177-178 | empty exactly for `UNSET_DECIMAL`, given that the format never yields empty text; otherwise the formatted value |
| EaUtils.IntSentinelRoundTrip | metatrader5ext/ea/utils.py:169-170 | writing an int with `intMaxString` and decoding it with `show_unset` gives back the value, sentinel included |
| EaUtils.LongSentinelRoundTrip | metatrader5ext/ea/utils.py:165-166 | a long round-trips unless it is `UNSET_LONG`, which decodes as `UNSET_INTEGER` |
| EaUtils.DecimalSentinelRoundTrip | metatrader5ext/ea/utils.py:177-178 | an unset decimal written by `decimalMaxString` decodes as `UNSET_DECIMAL`; another decimal whose text is a numeral and not a sentinel spelling decodes as that text |
| EaUtils.ShiftDecodedPrintable | metatrader5ext/ea/utils.py:173-174 | the shift decoder's output is printable ASCII exactly when every byte lies in [74, 170) |
| EaUtils.AsciiPrintableConcat | metatrader5ext/ea/utils.py:173-174 | text is printable ASCII exactly when both of its halves are |
| EaUtils.MQL5Parse | metatrader5ext/ea/utils.py:189-199 | `None` passes through; otherwise the text without its last character gives a single string exactly when it holds no ';' and no ',', else the ';'-groups split on ',' |
| EaUtils.MQL5ParseRebuilds | metatrader5ext/ea/utils.py:192-196 | joining the groups back with ',' and ';' rebuilds the text that was split |
| EaUtils.MQL5Period | metatrader5ext/ea/utils.py:202-229 | `"PERIOD_" + upper(t)` when `upper(t)` is one of the 21 names, `"PERIOD_CURRENT"` otherwise |
| LegacyTransform.DecodeString | metatrader5ext/connection.py:177-179 | succeeds exactly when every byte is at least 42, then one character per byte with code `byte - 42`; otherwise fails at the first byte below 42 |
| LegacyTransform.UncompressString | metatrader5ext/connection.py:181-194 | the loop, whose index stays even until the last byte, computes the pairwise expansion |
| LegacyTransform.Expand | metatrader5ext/connection.py:181-194 | every output byte is a byte found at an even offset of the input, so the count bytes never reach the output |
| LegacyTransform.ExpandLength | metatrader5ext/connection.py:183-194 | output length is the sum of the bytes at odd offsets plus the input length mod 2 |
| LegacyTransform.ZeroCountDrops | metatrader5ext/connection.py:188-189 | a count of 0 drops its value byte |
| LegacyTransform.UnpairedLastByte | metatrader5ext/connection.py:191-193 | a final unpaired byte is copied once |
| LegacyTransform.PairIsAmbiguous | mql_client.py:58-63 | a two-byte input is left unchanged exactly when both bytes are 2, since every successor is read as a count |
| LegacyTransform.ExpandCompress | mql_client.py:54-67 | expanding the run-length compression of any byte string gives it back |
| LegacyTransform.DecodeEncode | mql_client.py:50-52 | shift-decoding the shift encoding of any text with codes below 214 gives it back |
| LegacyTransform.ReplyRoundTrip | mql_client.py:20 | expand-then-decode inverts encode-then-compress |
| LegacyTransform.DecodeReply | metatrader5ext/connection.py:147 | when no value byte is below 42 the reply decodes, to one character per expanded byte: the sum of the counts plus one for a final unpaired byte |
| LegacyTransform.DecodeReplyDomain | metatrader5ext/connection.py:147 | the reply pipeline expands first and succeeds exactly when every expanded byte is at least 42 |
| EaClient.MatchReply | metatrader5ext/ea/client.py:10-11 | the split reply is returned exactly when its first token is the expected code; its tokens hold no '^' and joined with '^' rebuild the reply |
| EaClient.StaticRecord | metatrader5ext/ea/client.py:55-66 | a record exactly when the reply has at least twelve tokens; its fields, in order, are tokens 2..11 |
| EaClient.DynamicRecord | metatrader5ext/ea/client.py:88-95 | a record exactly when the reply has at least eight tokens; its fields, in order, are tokens 2..7 |
| EaClient.TickRecord | metatrader5ext/ea/client.py:117-125 | a record exactly when there are at least nine tokens and tokens 2, 6 and 8 are integers; the prices and spread are tokens 3..5 and 7 as text, and the instrument is the one asked for |
| EaClient.EAClient.ProcessResponse | metatrader5ext/ea/client.py:9-19 | on a match, the full token list with `timeout=False`, `command_ok=True`; otherwise `None` with `timeout=True`, `command_ok=True` and the protocol error |
| EaClient.EAClient.CheckConnection | metatrader5ext/ea/client.py:21-38 | true exactly for a reply whose first '^'-piece is `F000`; false for an empty reply or a mismatch; a failed send raises with the generic error and `command_ok=False` |
| EaClient.EAClient.GetStaticAccountInfo | metatrader5ext/ea/client.py:40-71 | the record, nothing, or a raise for each reply kind, and the matching new status fields |
| EaClient.EAClient.GetDynamicAccountInfo | metatrader5ext/ea/client.py:73-100 | the record, nothing, or a raise for each reply kind, and the matching new status fields |
| EaClient.EAClient.GetLastTickInfo | metatrader5ext/ea/client.py:102-131 | the record, nothing, or a raise for each reply kind (a non-integer date or volume raises), and the matching new status fields |
| EaClient.RequestFrames | metatrader5ext/ea/client.py:22-103 | the connection check is the frame `F000^1^`; the last-tick request is the frame `F020^2^instrument` followed by one more '^' |
| EaClient.AccountRequestFrames | metatrader5ext/ea/client.py:41-74 | the two account requests are the frames `F001^1^` and `F002^1^` with no parameters |
| EaClient.LastTickRequestParses | metatrader5ext/ea/client.py:103 | the last-tick request parses back to `F020`, `2` and the instrument |
| EaClient.StaticAccountFromReply | metatrader5ext/ea/client.py:55-66 | a matching reply maps tokens 2..11, in order, to name, login, currency, type, leverage, trade_allowed, limit_orders, margin_call, margin_close, company |
| EaClient.DynamicAccountFromReply | metatrader5ext/ea/client.py:88-95 | tokens 2..7 become balance, equity, profit, margin, margin_level, margin_free |
| EaClient.LastTickFromReply | metatrader5ext/ea/client.py:117-125 | integer date, volume and millisecond date read back exactly, and the record echoes the requested instrument |
| EaClient.FailureKindsDistinct | metatrader5ext/ea/client.py:35-38 | a failed send raises and leaves the generic error, while a wrong code returns nothing and leaves the protocol error |
| JsLookup.TimeframeValue | docs/Others/jstrader_api_V1_01.js:2725-2738 | defined exactly for names whose upper-case form is in the table, with a positive code; otherwise `INVALID_TIMEFRAME` |
| JsLookup.TimeframeCaseInsensitive | docs/Others/jstrader_api_V1_01.js:2733 | the lookup gives the same result for a name and its upper-case form |
| JsLookup.TimeframeSamples | docs/Others/jstrader_api_V1_01.js:2726-2731 | M5 is 5, H1 is 16385, D1 is 16408, MN1 is 49153 |
| JsLookup.TimeframeCaseAndUnknown | docs/Others/jstrader_api_V1_01.js:2726-2733 | "h1" is accepted as H1; M7 is refused as an invalid timeframe |
| JsLookup.TimeframeCodesDistinct | docs/Others/jstrader_api_V1_01.js:2726-2731 | distinct timeframe names have distinct codes |
| JsLookup.TimeframesMatchPeriods | docs/Others/jstrader_api_V1_01.js:2726-2731 | the JavaScript table knows exactly the 21 names that `MQL5Period` knows |
| JsLookup.FindValue | docs/Others/jstrader_api_V1_01.js:2712 | `Object.keys(...).find`: the first entry whose value matches, or none |
| JsLookup.BrokerName | docs/Others/jstrader_api_V1_01.js:2697-2703 | a found broker name is non-empty and listed for the universal name; a name with no entry, or an empty one, is `INSTRUMENT_NOT_FOUND`; with unique keys, the listed non-empty broker name is returned |
| JsLookup.UniversalName | docs/Others/jstrader_api_V1_01.js:2711-2717 | the result is the key of the first entry listed with the broker name (`Object.keys(...).find`), and is `INSTRUMENT_NOT_FOUND` exactly when there is no such entry or that first key is empty; with unique values, the listed non-empty key is returned |
| JsLookup.UniversalInvertsBroker | docs/Others/jstrader_api_V1_01.js:2697-2717 | with unique keys and values, translating a non-empty universal name to the broker name and back gives it again |
| JsLookup.BrokerInvertsUniversal | docs/Others/jstrader_api_V1_01.js:2697-2717 | a non-empty broker name that translates to a universal name is that name's broker name |
| JsLookup.EmptyKeyNotInvertible | docs/Others/jstrader_api_V1_01.js:2713 | an empty universal name translates forward, but its broker name translates back to `INSTRUMENT_NOT_FOUND` |
| JsPaging.PlanPages | docs/Others/jstrader_api_V1_01.js:912-928 | a count below 1 is refused; up to max rows is one request at offset 0; otherwise n/max full pages at offsets i·max, then one page of the n mod max remaining rows; the pages are contiguous, each holds 1..max rows, and together they hold n |
| JsPaging.FewestPages | docs/Others/jstrader_api_V1_01.js:916-917 | no plan of pages of at most max rows covers n rows in fewer than ⌈n/max⌉ requests, so the plan is minimal |
| JsPaging.PagesAsWritten | docs/Others/jstrader_api_V1_01.js:968-987 | the plan as the source runs it; whatever it does return covers the n rows |
| JsPaging.TailAlwaysFails | docs/Others/jstrader_api_V1_01.js:971 | as written, every count above max that is not a multiple of max fails |
| JsPaging.TailFailsAt2001 | docs/Others/jstrader_api_V1_01.js:1283 | 2001 rows fail as written, while 2000 and 4000 succeed |
| JsPaging.TickPageRequest | docs/Others/jstrader_api_V1_01.js:928 | the tick page request is the codec frame `F021^4^broker^offset^count` followed by one more '^' |
| JsPaging.TickPageRequestParses | docs/Others/jstrader_api_V1_01.js:928 | a tick page request parses to `F021`, `4`, and the broker name, offset and count that `int()` reads back |
| JsPaging.BarPageRequest | docs/Others/jstrader_api_V1_01.js:1239 | the bar page request is the codec frame `F042^5^broker^timeframe^offset^count` followed by one more '^' |
| JsPaging.BarPageRequestParses | docs/Others/jstrader_api_V1_01.js:1239 | a bar page request parses to `F042`, `5`, and the broker name, timeframe, offset and count |
| JsPaging.SingleRequestIsFirstPage | docs/Others/jstrader_api_V1_01.js:1016 | the single request, written with `^0^`, is the request for page (0, n) |
| JsTransport.FullCommand | docs/Others/jstrader_api_V1_01.js:2649 | the written text is the command and the authorization code followed by `^!`; it ends with the terminator, and when neither part holds a `!` no earlier character is a terminator |
| JsTransport.Receive | docs/Others/jstrader_api_V1_01.js:2669-2677 | resolves with the concatenation of the chunks up to the first prefix that ends with '!'; times out exactly when no prefix does |
| JsTransport.SendCommand | docs/Others/jstrader_api_V1_01.js:2645-2690 | a non-writable socket is refused; a writable one gives either a reply or a timeout; the written text is the framed command, and the reply is the first prefix of the chunks that ends in '!', or a timeout exactly when there is none |
| JsTransport.WholeReplyReceived | docs/Others/jstrader_api_V1_01.js:2672 | a reply whose only '!' is its last character is received whole, however it is cut into chunks, and not earlier |
| JsReplies.ListTokens | docs/Others/jstrader_api_V1_01.js:572 | `slice(2, -1)` drops the code, the sub-command and the last piece: the pieces are the first two, the result, and the last one, in order |
| JsReplies.ListReply | docs/Others/jstrader_api_V1_01.js:944 | the reply is rejected as an invalid format exactly when its first piece is not the command sent; otherwise the items are exactly `x.slice(2, -1)` of its '^'-pieces, hold no '^', and there are two fewer than the '^' in the reply |
| JsReplies.Rows | docs/Others/jstrader_api_V1_01.js:946-947 | each row's fields hold no '$' and joined with '$' give the token back |
| JsReplies.ListReplyRoundTrip | docs/Others/jstrader_api_V1_01.js:1172-1176 | a list reply `code^sub^items…^!` gives back exactly the items, or an invalid format for another code |
| JsReplies.RowsRoundTrip | docs/Others/jstrader_api_V1_01.js:946-947 | rows joined with '$' split back into their fields |
| JsReplies.RowCountReply | docs/Others/jstrader_api_V1_01.js:1415-1439 | a wrong code is an invalid format; a count that is NaN, zero or negative gives no rows; a count above the listed rows fails; a matching code with a count not above the listed rows always succeeds, giving exactly that many rows, each split on '$' |
| JsReplies.RowCountRoundTrip | docs/Others/jstrader_api_V1_01.js:1488-1517 | a reply announcing its row count reads back that count and every row field by field |
| JsReplies.SortByDate | docs/Others/jstrader_api_V1_01.js:1011 | the result is sorted ascending by date and is a permutation of the rows |
| JsReplies.GatherPages | docs/Others/jstrader_api_V1_01.js:1324 | the concatenated rows of all pages, sorted ascending by date, with the same rows |
| JsReplies.SortedUnique | docs/Others/jstrader_api_V1_01.js:1366 | two date-sorted orders of the same rows with distinct dates are equal |
| JsReplies.PageOrderIrrelevant | docs/Others/jstrader_api_V1_01.js:1051 | with distinct dates, the sorted result does not depend on the order in which rows arrived |

## Left out

- Sockets, threads and timers: `send_request`, `start_streaming`, `_listen_stream` and `stop_streaming` in every copy, `ea/connection.py`, and the promise handling and error events of the JavaScript `connect` and `sendCommand`. The Python transport `send_message` is a function parameter, and the JavaScript socket is a `writable` flag plus a list of received chunks.
- metatrader5ext/connection.py:27-126 (the `Connection` class with its lock and receive loop), the stream task manager and `metatrader5ext.py`: I/O and concurrency. The stream task manager's module is not part of this model.
- Floating point: `floatMaxString` (metatrader5ext/ea/utils.py:157-162), the float and `Decimal` values that `decode` builds, and every JavaScript `parseFloat`. Numeric payloads stay as their text; `decode` only checks that they are numerals.
- EaUtils.DecodeField: `float()` and `Decimal()` are modelled as accepting the finite numerals `[sign] digits [. digits] [e exponent]` with ASCII digits. Python also accepts other forms, which the model treats as errors: the spellings of infinity and NaN, '_' separators, surrounding whitespace, and non-ASCII decimal digits in `Decimal(s.decode())` (metatrader5ext/ea/utils.py:103), such as Arabic-Indic digits.
- EaUtils.FieldStream.Decode: the `logger.debug` call at metatrader5ext/ea/utils.py:91 is logging and is not modelled.
- EaClient.EAClient.GetLastTickInfo: the instrument is always passed; the default `instrument_name='EURUSD'` (metatrader5ext/ea/client.py:102) is not modelled.
- `UNSET_INTEGER`, `UNSET_LONG`, `UNSET_DOUBLE`, `UNSET_DECIMAL`, `DOUBLE_INFINITY`, `INFINITY_STR` and `ERROR_DICT` come from a module that is not part of this model. They are parameters or markers, and their values are left open.
- Byte decoding: fields and replies are already-decoded text. The `unicode-escape` / UTF-8 choice in `decode` and `response.decode('utf-8')` are not modelled.
- The error string that `make_message` returns for non-string parameters (metatrader5ext/ea/comm_msg.py:19-21): parameters are strings by type.
- Numbers.ParseInt: Python `int()` is modelled with ASCII digits only. It does not model surrounding whitespace, '_' separators or the non-ASCII decimal digits that `int()` accepts on `str` (`int("١٢") == 12`).
- EaClient.TickRecord: because of `Numbers.ParseInt`, a date, volume or millisecond token written with non-ASCII decimal digits gives no record, where `int()` at metatrader5ext/ea/client.py:117-125 reads it. `EaClient.EAClient.GetLastTickInfo` raises in that case, while the source returns a record.
- Numbers.JsParseInt: JavaScript `parseInt` is modelled without leading whitespace, hexadecimal prefixes or the loss of precision above 2^53.
- Text.Upper: upper-cases ASCII letters only.
- EaClient.TickRecord: a price field that `float()` would reject does not make the model raise, because floats stay as text.
- EaClient.EAClient.GetLastTickInfo: for the same reason, it returns a record where the source raises on a malformed price.
- The `print` of debug output in every query, in both clients.
- The module-level example calls in metatrader5ext/ea/comm_msg.py:23-29 and 81-84: they run `make_message` and `parse_response_message` on sample values and `print` the results when the module is imported.
- The per-row field conversions in the JavaScript row replies (`parseInt`/`parseFloat` of row fields, and `getUniversalInstrumentName` applied to the instrument field). Rows are their '$'-separated fields.
- The status fields of the JavaScript client (`timeout`, `commandOK`, `commandReturnError`) are not modelled, and they do not follow the Python client. There are two differences:
  - on a code mismatch the JavaScript client sets `timeout` to false (docs/Others/jstrader_api_V1_01.js:580), where Python sets it to true (metatrader5ext/ea/client.py:16);
  - the method's own `catch` catches the `INVALID_RESPONSE_FORMAT` throw, then overwrites `commandReturnError` with the generic error and sets `commandOK` to false (docs/Others/jstrader_api_V1_01.js:585-587). So the JavaScript client does not keep a protocol error apart from a transport error, which `EaClient.FailureKindsDistinct` proves of the Python client.
- JsReplies.RowCountReply: a row whose instrument field is missing or absent from the conversion table makes `getUniversalInstrumentName` throw `INSTRUMENT_NOT_FOUND` (docs/Others/jstrader_api_V1_01.js:1428). The whole call then fails, while the model returns the rows.
- JsReplies.SortByDate: the stability of `Array.prototype.sort` is not stated. Rows whose date `parseInt` reads as NaN, which make the comparator inconsistent, are not modelled: dates are integers.
- The JavaScript instrument table is a sequence of pairs in key order. JavaScript's own key ordering (integer-like keys first) and inherited property names are not modelled.
- The JavaScript timer in `sendCommand` is never cleared, so it fires after a successful reply as well and sets `timeout`. This is timing and is not modelled.
- The order-placing and close-by commands are not modelled, because they build requests from floats and free text. Two defects go with them: the comment sanitising at docs/Others/jstrader_api_V1_01.js:1922-1924 discards the results of `replace`, so it has no effect, and docs/Others/jstrader_api_V1_01.js:2135 concatenates the function `oppositeTicket.toString` instead of calling it.
- Counts given to the JavaScript paging as non-integers are not modelled: counts are integers.

## Findings

| source | as written | input that shows it | evidently intended | confidence | as-written member | corrected member |
|---|---|---|---|---|---|---|
| docs/Others/jstrader_api_V1_01.js:968-987 | the tail page of `Get_last_x_ticks_from_now` is sent with the undeclared name `command` (and its reply would then be reassigned to a `const x`); the ReferenceError is caught and reported as `X_TICK_INFO_FAILED` | `nbrOfTicks = 2001` with `maxTicks = 2000` (`JsPaging.TailFailsAt2001`); every count above 2000 that is not a multiple of 2000 fails (`JsPaging.TailAlwaysFails`) | send `this.command` for the tail and read it like the full pages, so any count of at least 1 is fetched | high (not executed) | JsPaging.PagesAsWritten | JsPaging.PlanPages |
| docs/Others/jstrader_api_V1_01.js:1280-1283 | the tail page of `Get_last_x_bars_from_now` is sent with the undeclared name `command`; the ReferenceError is caught and reported as `X_BAR_INFO_FAILED` | `nbrOfBars = 2001` with `maxBars = 2000` (`JsPaging.TailFailsAt2001`, as `MaxBars` equals `MaxTicks`) | send `this.command` for the tail page | high (not executed) | JsPaging.PagesAsWritten | JsPaging.PlanPages |
