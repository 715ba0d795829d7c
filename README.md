# Camera servo controller: request loop model

A Dafny model of the request loop of a small MicroPython camera controller
(`main.py`). The controller is an RP2350 board behind a serial-to-Ethernet
bridge. It drives three hobby-servo channels (`tilt`, `zoom`, `focus`) with
50 Hz PWM and keeps their pulse widths, in microseconds, in a map that it
saves to a file.

The loop collects the bytes the bridge delivers in a buffer. Once the buffer
holds an empty line (CR LF CR LF), the loop decodes the whole buffer as UTF-8
and routes the request:

- A request containing `GET /set?` stores a new width, drives the channel and
  saves the map. This happens only when the query is `name=value`, the name is
  a known channel and the value is an integer from 1000 to 2000. The request
  is answered with a fixed plain-text `OK` reply either way.
- Otherwise, a request containing `GET / ` gets the control page.
- Anything else gets no reply.

After every complete request the buffer is emptied, including any bytes that
followed the empty line.

Files:

- `base.dfy`: bytes and `Option`.
- `text.dfy`: the Python string operations the loop relies on, with their
  characterising lemmas.
  - `in`, and the leftmost-match search behind it and `split` (`IndexOf`, `Contains`)
  - `split` and its inverse `join`
  - `int()` on text (`ParseInt`)
  - `%d` formatting (`ShowNat`, `Show`)
- `utf8.dfy`: `bytes.decode("utf-8")` and `str.encode()` as a strict UTF-8
  decoder and encoder (RFC 3629), with the round trip in both directions.
- `http.dfy`: the text of the `OK` reply, and how an HTTP/1.1 client reads it
  back. The header section ends at the first empty line (section 2.1 of
  RFC 9112). `Content-Length` gives the body length (section 8.6 of RFC 9110).
- `servo.dfy`: the channel names, the default map, the 1000–2000 µs window and
  the µs-to-duty conversion.
- `server.dfy`: routing (`Handle`), one pass of the loop (`StepSpec`) and the
  loop over a sequence of chunks (`Run`), all as functions. Also the
  `Controller` class, whose `buffer` and `values` fields are updated in place
  by `Step`, `HandleRequest` and `Serve`, each proved against those functions.

I/O is represented as data:

- The chunks read from the UART are the loop's input.
- What the loop does to the outside world is a list of `Action`s: a PWM write
  with its duty value, a save of the map, the `OK` reply, or the control page
  built from the current map.
- The contents of the saved file at start-up are a parameter.

The controller keeps a stored width for exactly the three channels. This is
its class invariant, `values.Keys == Servo.Names`, and every state change
proves it. The invariant is needed because the page generator reads
`pwm_values[name]` for each of the three names (`main.py:116`). The
start-up loop would also fail on an extra key, since it indexes
`servo_pins[name]` (`main.py:58`).

Three details of main.py shape what the model does:

- The routes are matched anywhere in the decoded request, not only on its
  first line.
- A width outside 1000–2000 µs is rejected, and the map is left as it was.
- The query ends at the next `GET /set?` as well as at the first space,
  because the code splits the request on `GET /set?` and takes the second
  piece.

## Model

| member | source | states |
|---|---|---|
| Servo.LoadValues | main.py:45-49 | With nothing saved, the map has exactly the keys tilt, zoom and focus, every width is 1500, and so inside the 1000–2000 µs window. With a saved map, that map is used as loaded. |
| Servo.Duty | main.py:53-54 | The duty value of `us` µs is the exact quotient us·65535/20000 truncated toward zero. For us ≥ 0, d·20000 ≤ us·65535 < (d+1)·20000; for negative widths it is the mirror image. |
| Servo.DutyMonotone | main.py:54 | A longer pulse never gets a smaller duty value. |
| Servo.DutyRange | main.py:54 | A pulse of 0 to 20000 µs gets a duty value that the 16-bit output accepts (0 to 65535). |
| Servo.DutyWindow | main.py:143-145 | The window's ends get duty values 3276 and 6553, and every accepted width lies between them. |
| Text.IndexOf | main.py:129-140 | The leftmost-match search behind `in` (main.py:129, 138) and `split` (main.py:140): a match ends inside the text. IndexOfSpec characterises the result as the leftmost match. |
| Text.Contains | main.py:129 | Python's `in` on bytes and on strings, characterised by ContainsIff. |
| Text.IndexOfSpec | main.py:129 | The search gives the leftmost occurrence: there is a match at the returned index and none before it. `None` means there is no match anywhere. |
| Text.ContainsIff | main.py:138 | Python's `p in s` holds exactly when `p` occurs somewhere in `s`. |
| Text.IndexOfSkip | main.py:138 | Text that cannot start the pattern can be skipped: the first match in `u + x` is the first match in `x`, moved by `|u|`. |
| Text.PrefixBeforeFirst | main.py:140 | The text before the first match holds no match, and every match in it is a match in the whole. |
| Text.Split | main.py:140-141 | `str.split(sep)` returns at least one piece. |
| Text.SplitOne | main.py:140-141 | `split` gives a single piece exactly when the separator does not occur. |
| Text.JoinSplit | main.py:140-141 | Joining the pieces of a split with the separator gives back the original text. |
| Text.SplitPiecesFree | main.py:140-141 | No piece of a split contains the separator. |
| Text.SplitJoin | main.py:140-141 | Splitting a join of pieces that do not contain the separator's first character gives back those pieces. |
| Text.CountAppend | main.py:141 | The number of occurrences of a character in a concatenation is the sum for the two parts. |
| Text.SplitPieces | main.py:141 | Splitting on one character gives one piece more than the number of times that character occurs. |
| Text.ParseInt | main.py:142 | `int()` on text: ASCII whitespace around an optional sign and decimal digits, `None` where Python raises. ParseIntShow, StripLeftSpec and StripRightSpec characterise it. |
| Text.StripLeftSpec | main.py:142 | `int()` drops exactly the leading whitespace: it removes a prefix of whitespace and stops at the first character that is not whitespace. |
| Text.StripRightSpec | main.py:142 | Likewise for the trailing whitespace. |
| Text.StripPadded | main.py:142 | Stripping text padded with whitespace on both sides gives back text that neither starts nor ends with whitespace. |
| Text.ShowNat | main.py:66-68 | `%d` of a count is a non-empty run of digits with no leading zero. |
| Text.Show | main.py:95-96 | A formatted integer is an optional minus sign, then digits, with no whitespace at either end. |
| Text.DecimalShowNat | main.py:66-68 | Reading back the digits of a formatted count gives the count. |
| Text.ParseSignedShow | main.py:142 | Reading back a formatted integer, sign included, gives the integer. |
| Text.ParseIntShow | main.py:142 | `int()` of a formatted integer, with any whitespace around it, gives the integer back. |
| Text.ParseIntShowNat | main.py:66-68 | `int()` of the `%d` text of a count gives the count back. |
| Utf8.Encode | main.py:70 | `str.encode()`, the concatenation of every character's UTF-8 encoding. EncodeAppend and DecodeEncode characterise it. |
| Utf8.Decode | main.py:132 | `bytes.decode("utf-8")`, `None` where Python raises. DecodeSound, DecodeEncode and DecodedAvoids characterise it. |
| Utf8.EncodeChar | main.py:70 | A character encodes to one to four bytes, and to one byte exactly when it is ASCII. |
| Utf8.EncodeAppend | main.py:70 | Encoding distributes over concatenation. |
| Utf8.DecodeFirst | main.py:132 | A decoded character consumes between one byte and all the bytes that are left. |
| Utf8.DecodeFirstSound | main.py:132 | The bytes a decoded character consumed are exactly its encoding. |
| Utf8.DecodeFirstEncodeChar | main.py:132 | Decoding the encoding of a character, whatever follows it, gives the character back and consumes exactly its encoding. |
| Utf8.DecodeSound | main.py:131-135 | Whatever decoding returns encodes back to the bytes it was given, so no bytes are lost or made up. |
| Utf8.DecodeEncode | main.py:131-135 | Decoding the encoding of any text gives the text back. |
| Utf8.DecodedAvoids | main.py:131-135 | Bytes that the model's strict decoder accepts hold no 0xC0, 0xC1 or 0xF5–0xFF. |
| Http.TextResponse | main.py:60-69 | A text/plain reply: the status line and four header fields, each ended by CRLF, an empty line and the body, with `%d` of `len(body)` as Content-Length. TextResponseParts and TextResponseFraming characterise it. |
| Http.OkResponse | main.py:60-69 | The reply to every set request, with body `OK`. OkResponseText gives its text; OkResponseFraming gives what a client reads from it. |
| Http.HeaderEnd | main.py:62-68 | In CR-free lines each ended by CRLF and followed by an empty line, the first empty line is the one after the last line. |
| Http.FramingBody | main.py:62-68 | A client finds exactly the body after the empty line. |
| Http.FramingHeader | main.py:62-68 | A client finds exactly the header lines before the empty line. |
| Http.TextHeaderLinesAreLines | main.py:63-67 | Every header line of the reply is non-empty and free of CR. |
| Http.FixedLinesAreNotContentLength | main.py:63-65 | None of the first three lines is a Content-Length field. |
| Http.FieldValueContentLength | main.py:66 | The Content-Length field a client finds holds `%d` of the body length. |
| Http.TextResponseParts | main.py:60-69 | The reply splits back into its five header lines and its body. |
| Http.TextResponseFraming | main.py:60-69 | A client reading the reply gets the body back unchanged, and reads a Content-Length equal to the body's length. |
| Http.OkResponseText | main.py:61-68 | The reply is the status line, Content-Type, Cache-Control, `Content-Length: 2` and Connection lines, each ended by CRLF, then an empty line and `OK`. |
| Http.OkResponseFraming | main.py:61-68 | A client reading that reply finds the body `OK` and a Content-Length of 2, the length of `OK`. |
| Server.OkBytesDecode | main.py:70 | The bytes written for the reply decode back to exactly the reply text. |
| Server.QueryOf | main.py:140 | `request.split("GET /set?")[1].split(" ")[0]`, `None` where there is no second piece. QueryOfSetRequest characterises it. |
| Server.ParseSetQuery | main.py:141-142 | `param, val = query.split("=")` and `int(val)`, `None` where Python raises. ParseSetRequest and SetQueryOneEquals characterise it. |
| Server.Update | main.py:141-143 | Both directions: an accepted update is what the query parsed to, names a channel already in the map and carries a width inside 1000–2000; and every parsed query with a known name and a width inside the window is accepted. |
| Server.SetRequest | main.py:95-96 | The request line a slider sends for its integer value (a number box may also send other text, such as `1500.5` or nothing, which takes `ParseInt`'s failure path), `/set?` + name + `=` + value, after `GET ` and before the protocol. QueryOfSetRequest, ParseSetRequest and SetRequestStep are stated about it. |
| Server.QueryOfSetRequest | main.py:140 | For the request a slider sends, the query is exactly `name=value`, whatever the rest of the request holds. |
| Server.ParseSetRequest | main.py:140-142 | Round trip: the handler reads back exactly the channel name and the width that the page put in the request. |
| Server.SetQueryOneEquals | main.py:141 | A query parses only if it holds exactly one `=`. A query with any other number of `=` is rejected. |
| Server.ShowPlain | main.py:96 | A formatted number holds neither `=` nor a space, so it cannot end the query early. |
| Server.Handle | main.py:138-152 | Routing of one decoded request: the new map and the actions. HandleReplies, HandleUpdates, HandleKeepsChannels and HandleEffectsAgree characterise it. |
| Server.HandleReplies | main.py:138-152 | A set request always gets exactly one OK reply, last, whether or not it was accepted. Otherwise a request for `/` gets the page for the current map, and anything else gets no reply. Only writes come before a reply. |
| Server.HandleUpdates | main.py:138-149 | The map changes exactly when a set request carries an accepted update, and then only the named channel changes, to the requested width. |
| Server.HandleKeepsChannels | main.py:143-144 | Handling a request keeps the key set and keeps every width inside the window. |
| Server.HandleEffectsAgree | main.py:144-146 | Every PWM write carries the duty value of the width now stored for its channel. Every save writes the map now held. |
| Server.StepSpec | main.py:126-154 | One pass of the loop over a chunk: the new buffer, the new map and the actions. StepFraming, TrailingBytesDropped, UndecodableIgnored, Regroup and StepKeepsChannels characterise it. |
| Server.Run | main.py:125-154 | The loop over a sequence of chunks, with the actions in order. RunCollects, RunAppend, SplitDelivery and RunKeepsChannels characterise it. |
| Server.StepFraming | main.py:127-129 | Without CR LF CR LF the chunk is only appended, with nothing done and the map unchanged. With it, the buffer ends empty. Either way the buffer holds no complete request afterwards. |
| Server.TrailingBytesDropped | main.py:154 | Bytes that follow the terminator in the same chunk are dropped with the request, not kept for the next one. |
| Server.UndecodableIgnored | main.py:131-135 | A complete request that does not decode as UTF-8 gets no reply, leaves the map unchanged and empties the buffer. |
| Server.BadBytesIgnored | main.py:131-135 | In particular, a complete request holding a byte 0xF8 to 0xFF, which no UTF-8 decoder accepts as part of a character, is dropped that way. |
| Server.StepKeepsChannels | main.py:143-144 | One pass of the loop keeps the key set and the window. |
| Server.RunKeepsChannels | main.py:125-154 | Over any input the loop keeps the key set the same and every width inside the window, so a loop started from the defaults (main.py:49) never leaves it. |
| Server.RunCollects | main.py:126-129 | With no terminator anywhere in the input, the loop only collects the bytes. |
| Server.RunAppend | main.py:126 | Running over two batches of chunks is running over the first, then over the second from the state the first left. |
| Server.Regroup | main.py:128 | Only the bytes received so far matter to a step, not where the previous chunk ended. |
| Server.SplitDelivery | main.py:126-129 | However the bytes of a request are cut into chunks, up to the chunk that completes it, the loop acts as if they arrived at once. |
| Server.SetRequestFramed | main.py:129 | The bytes of a slider's request hold CR LF CR LF once the client's part of it holds an empty line. |
| Server.SetRequestStep | main.py:125-154 | End to end: the bytes of a slider's request, on an empty buffer, store the width and drive the channel exactly when the channel exists and the width is in the window. They are answered OK either way, and the buffer is emptied. |
| Server.Controller.constructor | main.py:49-51 | Start-up: an empty buffer and the loaded map, which has exactly the three channels. |
| Server.Controller.Step | main.py:126-154 | One pass of the loop updates `buffer` and `values` in place and returns the actions, all equal to `StepSpec`. It keeps the invariant: no complete request waits in the buffer, and the map has exactly the three channels. |
| Server.Controller.HandleRequest | main.py:138-152 | Routes one decoded request, updating the stored width in place for an accepted set request, as `Handle` states. |
| Server.Controller.Serve | main.py:125-154 | The loop over every chunk in turn ends in the state, and with the actions, that `Run` gives. It keeps the invariant and keeps the window. |

## Left out

- The configuration of the serial-to-Ethernet bridge (`main.py:8-28`) is not modelled. It is pin toggles, fixed command bytes and sleeps.
- The PWM set-up (`main.py:31-38`) and the `duty_u16` call (`main.py:55`) are not modelled. They are hardware calls; the model keeps the duty value as a `PwmWrite` action.
- The initial PWM writes for every stored channel (`main.py:57-58`) are not modelled. They happen before the loop, in the map's iteration order. The model starts the loop from the loaded map.
- Reading and writing the JSON file (`main.py:41-48`) is reduced to the `saved` parameter and the `Save` action. A failing save is not modelled. In the source it would be swallowed by the `except` (`main.py:148-149`) after the map and the PWM output had already changed.
- The control page (`main.py:74-121`) is reduced to `SendPage` with the map it shows. Its markup, including its header lines ended by bare LF, is not modelled.
- The sleeps and the `uart.read()` drains after each reply (`main.py:71-72`, `main.py:112-113`) are not modelled. Bytes that arrive during such a drain are lost in the source but not in the model.
- `uart.any()` polling is not modelled: the input is the sequence of chunks read. The `print` logging is left out.
- Servo.Duty is exact integer arithmetic, not the floating-point expression. It does not model single-precision rounding: MicroPython computes `us * 65535 / 20000` in single precision on this board, and for some widths outside the 1000–2000 µs window (2757 µs, for one) the float result truncates to one more than the exact quotient. Inside the window, the only widths a set request stores, the two coincide; with double precision they coincide for every width from 0 to 20000 µs.
- Text.ParseInt accepts only ASCII whitespace (tab to CR, and space), an optional sign and ASCII digits. Underscores, non-ASCII digits and other whitespace that `int()` may accept are treated as failures.
- Utf8.Decode is strict UTF-8 (RFC 3629). MicroPython's own check tests only the pattern of lead and continuation bytes. So it also accepts overlong forms (lead bytes 0xC0 and 0xC1), encoded surrogates, and lead bytes 0xF5 to 0xF7 followed by three continuation bytes. The source decodes and routes a request holding such bytes; the model drops it unanswered.
- Utf8.DecodedAvoids is a fact about the model's strict decoder only: bytes that MicroPython decodes may hold 0xC0, 0xC1 or 0xF5 to 0xF7.
- Server.UndecodableIgnored covers the requests the strict decoder rejects, a larger set than those MicroPython rejects (see Utf8.Decode above).
- Server.BadBytesIgnored is stated for bytes 0xF8 to 0xFF only, which both decoders reject. For 0xF5 to 0xF7 the model drops a request that the source may route.
- Server.Controller.constructor requires a saved map with exactly the three channels. Any other saved map makes the source fail at start-up or when the page is built.
