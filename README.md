# MF Wristband: checkpoint station and rally server, in Dafny

This project models two parts of the MF Wristband rally system and proves properties of them.

**The checkpoint station** (`Wristband_Station/src/main.cpp`) reads a wristband's RFID tag and encodes its UID as an uppercase hex string. It reports the tag to the rally server with one HTTP POST and shows the outcome on an RGB LED.

- `HexCodec` (`hex_codec.dfy`) models `convertUIDtoString` as a method over a 20-character `array<char>`. It follows the source: a `'0'` fill, a NUL at index 19, and one `sprintf("%02X")` per byte, each writing two digits and a NUL. The method is proved equal to a specification function. That function has a decoder as its partner, with round-trip and injectivity lemmas.
- `Station` (`station.dfy`) models `sendTagNumber` and `loop()` as methods of a `Checkpoint` class.
  - The MFRC522 reader, the HTTP client and the WiFi status are scripted capabilities: sequences of results consumed front to back. The LED strip is the `leds` array.
  - Every visible call is appended to a trace: an LED show, a reader poll, read or halt, or a POST.
  - `Loop` is proved to produce exactly the trace and leftover scripts given by the function `LoopSpec`. The lemmas state what that trace contains.

**The rally server** (`Wristband_Main/server.py`) keeps the `participants` table.

- `RallyServer` (`rally_server.dfy`) models the table as a `map` field of the `Rally` class.
- The three POST handlers are methods that return the HTTP status.
- `get_statistics` is the pure function `Statistics`. Lemmas say how each handler changes the statistics.

Behaviour of the station's code that the model keeps:

- A failed `PICC_ReadCardSerial` returns from `loop()` at once. The next call samples the link again. No Purple is shown on that path.
- The result of `PICC_IsNewCardPresent` gates nothing.
- After the halt the station shows Yellow again (line 148), and the next pass shows Yellow once more (line 110).
- The code has no rejection path for oversized UIDs. The model adds one; see Findings.

## Model

| member | source | states |
|---|---|---|
| HexCodec.HexDigit | Wristband_Station/src/main.cpp:42 | a nibble prints as an uppercase hex digit, never NUL |
| HexCodec.DigitValue | Wristband_Station/src/main.cpp:42 | a character has a digit value iff it is one of 0-9, A-F, and that value prints back as the same character |
| HexCodec.ByteHex | Wristband_Station/src/main.cpp:42 | "%02X" always gives exactly two characters (zero-padded) |
| HexCodec.Hex | Wristband_Station/src/main.cpp:40-44 | the encoding of n bytes has exactly 2n characters |
| HexCodec.HexAt | Wristband_Station/src/main.cpp:40-44 | characters 2i and 2i+1 are the high and low nibble of byte i, in input order |
| HexCodec.HexDigitsOnly | Wristband_Station/src/main.cpp:42 | every character of the encoding is in 0-9A-F |
| HexCodec.Unhex | Wristband_Station/src/main.cpp:40-44 | decoder partner: a decoded string has two characters per byte |
| HexCodec.UnhexHex | Wristband_Station/src/main.cpp:40-44 | decoding an encoding gives back the UID |
| HexCodec.HexUnhex | Wristband_Station/src/main.cpp:40-44 | every string that decodes is the encoding of what it decodes to |
| HexCodec.HexInjective | Wristband_Station/src/main.cpp:41-44 | distinct UIDs have distinct encodings |
| HexCodec.CString | Wristband_Station/src/main.cpp:49 | the String returned from the buffer is its longest NUL-free prefix, ending at the first NUL |
| HexCodec.Encoded | Wristband_Station/src/main.cpp:36-49 | a UID is accepted iff it has at most 9 bytes; the result has 2n hex digits, or 19 '0's for an empty UID |
| HexCodec.EncodedInjective | Wristband_Station/src/main.cpp:41-44 | distinct UIDs of at most 9 bytes give distinct strings; the empty UID's 19 '0's never collide with an even-length encoding |
| HexCodec.BufferAfter | Wristband_Station/src/main.cpp:36-44 | the buffer always holds exactly 20 characters |
| HexCodec.BufferAfterStep | Wristband_Station/src/main.cpp:41-43 | one sprintf at offset 2n turns the buffer for n bytes into the buffer for n+1 bytes |
| HexCodec.CStringOfBuffer | Wristband_Station/src/main.cpp:37-49 | the String read from the final buffer is the UID's encoding (19 '0's when the UID is empty) |
| HexCodec.PrintHexByte | Wristband_Station/src/main.cpp:42 | sprintf writes the two digits and a NUL at offset..offset+2 and nothing else, and needs offset+3 <= buffer size |
| HexCodec.ConvertUidToString | Wristband_Station/src/main.cpp:26-50 | the conversion loop over the fixed buffer yields exactly Encoded(uid); UIDs over 9 bytes are rejected |
| HexCodec.SprintfFootprint | Wristband_Station/src/main.cpp:40-43 | the buffer cells the as-written loop writes for n bytes lie in 0..2n, and include the NUL at 2n |
| HexCodec.AsWrittenInBoundsIff | Wristband_Station/src/main.cpp:36-43 | the as-written loop's writes stay inside hexStr[20] iff the UID has at most 9 bytes |
| HexCodec.TenByteUidOverflows | Wristband_Station/src/main.cpp:36-43 | for a 10-byte UID the last sprintf writes hexStr[20] |
| HexCodec.DeadBeef | Wristband_Station/src/main.cpp:40-44 | DE AD BE EF encodes as "DEADBEEF" |
| Station.FlagUrl | Wristband_Station/src/main.cpp:62 | the URL is rest_server, then "/flag/", then the tag id, then flag_url, each at a fixed position given by the lengths |
| Station.FlagUrlInjective | Wristband_Station/src/main.cpp:62 | different tag ids give different URLs |
| Station.DistinctUidsDistinctUrls | Wristband_Station/src/main.cpp:62 | distinct UIDs of at most 9 bytes, the empty one included, are reported to distinct URLs |
| Station.Feedback | Wristband_Station/src/main.cpp:134-144 | Green iff the code is 200; Red for every other code, negative transport errors included |
| Station.Report | Wristband_Station/src/main.cpp:131-144 | a report is empty iff the UID was rejected; otherwise one POST with an empty body to the tag's URL, then Green or Red for the code that POST returned; link and reader scripts are untouched |
| Station.Continue | Wristband_Station/src/main.cpp:109-155 | the rest of loop() after a WiFi sample: Purple alone when down, otherwise it opens with Yellow; it always ends with Purple or a failed read, and the link, read and HTTP-code scripts only shrink |
| Station.LoopSpec | Wristband_Station/src/main.cpp:108-155 | one call of loop() opens with Yellow when connected and Purple when not, ends with Purple or a failed read, and consumes at least one link sample |
| Station.CycleCounts | Wristband_Station/src/main.cpp:110-149 | a pass that reads a card has one detection (its Blue), one halt and at most one POST, and asks the reader only with the poll at its second event and the read at its third |
| Station.LoopSessionHygiene | Wristband_Station/src/main.cpp:109-150 | in every run of loop(), each detected card is halted before the reader is next polled or read; halts equal detections; reports never exceed detections |
| Station.Calls | Wristband_Station/src/main.cpp:108-156 | n calls of loop() in a row: no events iff no calls, and link samples are only consumed |
| Station.CallsSessionHygiene | Wristband_Station/src/main.cpp:108-156 | across any number of loop() calls, each detected card is halted before the reader is next polled or read; halts equal detections; reports never exceed detections |
| Station.LinkDownOnlyPurple | Wristband_Station/src/main.cpp:152-155 | with WiFi down, loop() makes no reader or transport call and its only LED write is Purple |
| Station.ReadFailureReturns | Wristband_Station/src/main.cpp:113-119 | a failed read ends loop() after Yellow, poll, read: no encode, report, halt or Purple, and no HTTP code consumed |
| Station.ReportedCycle | Wristband_Station/src/main.cpp:109-150 | a read of a UID of at most 9 bytes (the empty one included) gives exactly Yellow, poll, read, Blue, one empty POST to the UID's URL, Green-or-Red for the transport's code, halt, Yellow |
| Station.OversizedUidNotReported | Wristband_Station/src/main.cpp:121-149 | a UID of more than 9 bytes is never posted: Blue, halt, Yellow |
| Station.ExampleSuccessfulScan | Wristband_Station/src/main.cpp:108-155 | link up once, card 01 02 03 04, code 200, then link down gives one POST to .../flag/01020304..., Green, halt, Yellow, Purple |
| Station.Checkpoint.constructor | Wristband_Station/src/main.cpp:22-23 | the station starts with a one-LED strip, its endpoint configuration and its capability scripts, and an empty trace |
| Station.Checkpoint.ShowColor | Wristband_Station/src/main.cpp:110-111 | leds[0] takes the colour and exactly that colour is shown |
| Station.Checkpoint.WiFiConnected | Wristband_Station/src/main.cpp:109 | one link sample is consumed and returned |
| Station.Checkpoint.PiccIsNewCardPresent | Wristband_Station/src/main.cpp:113-114 | the poll is logged and its answer changes no script |
| Station.Checkpoint.PiccReadCardSerial | Wristband_Station/src/main.cpp:117 | one read result is consumed and returned, and the read is logged |
| Station.Checkpoint.PiccHaltA | Wristband_Station/src/main.cpp:147 | exactly one halt is logged |
| Station.Checkpoint.SendTagNumber | Wristband_Station/src/main.cpp:53-80 | exactly one POST with an empty body to rest_server + "/flag/" + tag + flag_url; the transport's code is returned unchanged |
| Station.Checkpoint.Scan | Wristband_Station/src/main.cpp:110-117 | the head of a pass: leds[0] becomes Yellow, then one poll and one read are logged, and the read consumes and returns one read result |
| Station.Checkpoint.HandleCard | Wristband_Station/src/main.cpp:121-149 | after a read: Blue, then the report and its feedback, then halt and Yellow, with the HTTP script advanced only when a POST was made; leds[0] ends Yellow |
| Station.Checkpoint.Loop | Wristband_Station/src/main.cpp:108-156 | one call of loop() appends exactly LoopSpec's events to the trace and leaves LoopSpec's scripts; leds[0] is left Purple when those events end with Purple and Yellow when they end with a failed read |
| RallyServer.NewParticipant | Wristband_Main/server.py:14-22 | a registered row has registered_at = now, all flags false, email and finish_time NULL |
| RallyServer.WithFlag | Wristband_Main/server.py:57-65 | collecting sets flag{station} and finish_time only; other flags, email and registered_at are untouched |
| RallyServer.Stored | Wristband_Main/server.py:92-95 | a JSON null email is stored as NULL, any other value as itself |
| RallyServer.WithEmail | Wristband_Main/server.py:89-95 | submitting sets email and finish_time only; flags and registered_at are untouched |
| RallyServer.WithFlagIdempotent | Wristband_Main/server.py:62-65 | collecting the same flag twice equals collecting it once, at the later time |
| RallyServer.Rally.constructor | Wristband_Main/server.py:9-25 | a new database has an empty participants table |
| RallyServer.Rally.RegisterParticipant | Wristband_Main/server.py:27-49 | 400 and no change without tag_id or for a present tag_id; otherwise 201 and exactly one new default row |
| RallyServer.Rally.CollectFlag | Wristband_Main/server.py:51-76 | 400 and no change for a station outside 1..3; 404 and no change for an unknown tag; otherwise 200 and only that row's flag and finish_time change |
| RallyServer.Rally.SubmitEmail | Wristband_Main/server.py:78-109 | 400 and no change without email; 404 and no change for an unknown tag; otherwise 200, that row's email and finish_time set, and its registered_at returned |
| RallyServer.FlagHolders | Wristband_Main/server.py:119-121 | the rows counted for a flag are rows of the table |
| RallyServer.EmailHolders | Wristband_Main/server.py:122 | the rows counted as email submissions are rows of the table |
| RallyServer.Sum | Wristband_Main/server.py:119-122 | a SUM is NULL iff the table is empty, otherwise the number of matching rows |
| RallyServer.Statistics | Wristband_Main/server.py:111-136 | total is the number of rows; each flag count and the email count are the number of matching rows, NULL on an empty table |
| RallyServer.StatisticsBounds | Wristband_Main/server.py:118-134 | the SUMs are NULL iff the table is empty, and every count is at most the total |
| RallyServer.StatisticsAfterRegister | Wristband_Main/server.py:38-40 | a registration adds one to the total and leaves every flag and email count as it was (NULL becomes 0) |
| RallyServer.StatisticsAfterCollect | Wristband_Main/server.py:62-65 | a collection adds one to that station's count iff the row lacked the flag; no other count changes |
| RallyServer.StatisticsAfterEmail | Wristband_Main/server.py:91-95 | an email submission changes only the email count, by whether the old and new email are NULL |

## Left out

- The station's `setup()` is not modelled: the blocking WiFi connect, which shows Purple repeatedly while it waits, `SPI.begin`, `PCD_Init`, `FastLED.addLeds`, and the hostname configuration. `Checkpoint.constructor` only installs the capabilities.
- All `delay(...)` calls are left out, because timing is not modelled.
- All `Serial` diagnostics are left out. This includes the lowercase unpadded hex print at lines 29-31 and the `"..." + ret` at line 140, which offsets the string literal by `ret` instead of appending the code (out of bounds for codes such as 404 or -1).
- The HTTP response body (`http.getString()`), `http.end()` and the `WiFiClient` are left out. Only the POST's URL, body and code are modelled.
- Reader behaviour is not modelled. This includes that a halted card is not read again until it is presented anew: what each read returns is given by the script. The halt that this behaviour relies on is modelled.
- Station.Checkpoint.PiccIsNewCardPresent: its answer is taken to be whether the next read will find a card. The source ignores the answer, so no property depends on it.
- Station scripts are finite. An exhausted link script reads as disconnected, so one `loop()` call always ends. An exhausted read script reads as a failed read. An exhausted code script reads as -1 (connection refused).
- Station.Checkpoint.Loop: for UIDs of more than 9 bytes it models the corrected behaviour, not the source's. The source has undefined behaviour there (see Findings).
- Flask routing, JSON parsing and CORS are not modelled. Neither is a request whose body is not a JSON object.
- The `<int:tag_id>` URL converter is not modelled; tag ids are opaque strings. Because of that converter, a station report whose hex id contains A-F does not reach `collect_flag` in the real server. Flask answers 404 and the station shows Red.
- SQLite's TEXT-affinity coercion is not modelled.
- A JSON `null` tag_id in `register` is not modelled. SQLite treats NULL keys of a TEXT primary key as distinct, so each such register returns 201 and adds a NULL-key row. `collect_flag` and `submit_email` cannot address that row, and `get_statistics` counts it.
- SQLite connections, commits and concurrent requests are not modelled. Each handler runs atomically.
- `create_database` on an existing file keeps its rows. `Rally.constructor` models only a new database.
- `datetime.now()` is the parameter `now`. `register` and `collect_flag` call it a second time for the response body. The response bodies are not modelled, except `registered_at` from `submit_email`, which `SubmitEmail` returns.
- The stepper-motor dispenser and the web UI are not part of this model: the dispenser is hardware timing and the UI is a thin fetch wrapper.

## Findings

| source | as written | input that shows it | evidently intended | confidence | as-written member | corrected member |
|---|---|---|---|---|---|---|
| Wristband_Station/src/main.cpp:36-43 | `char hexStr[20]` is filled by one `sprintf("%02X")` per UID byte at offset 2i. Each call also stores a NUL at 2i+2. | A 10-byte MFRC522 UID: the last call stores its NUL at `hexStr[20]`, one past the buffer. | Encode only UIDs that fit (at most 9 bytes), and reject longer ones rather than overrun the buffer. | not executed | HexCodec.TenByteUidOverflows | HexCodec.ConvertUidToString |
