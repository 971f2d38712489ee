# Temperature-frame decoder and BART departure matcher

This project is a Dafny model of the algorithmic core of a set of IoT tutorial programs. It has two parts.

**Temperature decoder** (`temperature.dfy`, module `Temperature`). This is the Node-RED function node that takes the raw data of the Bluetooth Health Thermometer "Temperature Measurement" characteristic (UUID `2a1c`) and builds a record with these fields:

- `temperatureTime`: the capture time, supplied by the caller.
- `temperatureUnits`: bit 0 of byte 0.
- `temperatureLocation`: byte 5. Code 6 is the mouth and code 4 is a finger. Any other code leaves the field unset.
- `temperatureValue`: the mantissa from bytes 1..3, little-endian, times 10 to the power of the exponent from byte 4.

The method `FromBinaryToText` follows the code step by step:

- the mantissa is rebuilt by successive reassignment;
- the exponent is rebuilt by flipping the bits, adding one and negating;
- reads past the end of the array give JavaScript's `undefined`.

Its result is proved equal to the specification function `Decode`. Lemmas about `Decode` and its parts state what each field means. They also give a round trip with an encoder `EncodeFrame`, in both directions.

**Departure matcher** (`departures.dfy`, `bart_web_service.dfy`, `bart_poller.dfy`). Both BART clients take the parsed estimated departures of the origin station and look for the configured destination.

- The match ignores case.
- The loop runs to the end of the list, so the last matching departure decides `min`.
- For each match, the console gets either "Leaving" or exactly one of four advisory bands.
- The web service answers the HTTP request with exactly one body: `{"Arrival":"<minutes>"}`, `{"Arrival":"Leaving"}`, or `{"Arrival":"-1"}` when nothing matches.
- The console client reports "not found" instead.

A client-side reading of the reply (`ArrivalField`) is proved to recover the minutes that were sent.

## Where the code and the FLOAT format differ

The model follows the code, not IEEE 11073-20601.

- The format's mantissa is a signed 24-bit number. The code reads it unsigned, with no sign extension.
- The format's exponent is a signed byte. The code keeps byte 4 only when its top bit is set; a positive exponent byte becomes 0.
- `AgreesWithStandardIff` states exactly when the two readings agree. The mantissa's top bit must be clear, and the exponent byte must be 0 or have its top bit set.
- The code never checks the frame's length:
  - a four-byte frame still gives a record, with the value equal to the mantissa and the location unset;
  - a frame shorter than four bytes gives NaN, and only those do (`ShortFramesAreNaN`).
  
  No length error is modelled, because the code raises none.
- The reserved FLOAT codes for NaN and the infinities are decoded as ordinary numbers, as in the code.

## Model

| member | source | states |
|---|---|---|
| Temperature.FromBinaryToText | Ch09_code/FromBinaryToText.js:35-82 | The record built by the step-by-step JavaScript equals `Decode`: unit from `arrObj[0] & 1`, location from `arrObj[5] ===` 6 or 4, mantissa by three reassignments (NaN when a byte is undefined), exponent by flip-add-one-negate only when `& 0x80` is set; deterministic in the bytes and the supplied time |
| Temperature.RunFunctionNode | Ch09_code/FromBinaryToText.js:21-89 | The message payload is overwritten with the decoded record of the `2a1c` data array; when the payload has no such characteristic (the code throws) the message is unchanged |
| Temperature.UnitFromLowBit | Ch09_code/FromBinaryToText.js:41-46 | Fahrenheit iff byte 0 exists and `byte0 & 1 == 1`; frames whose byte 0 agrees on bit 0 get the same unit whatever the other bits |
| Temperature.LowBit | Ch09_code/FromBinaryToText.js:41 | `b & 1 == 1` iff the byte is odd |
| Temperature.LocationCodes | Ch09_code/FromBinaryToText.js:50-55 | Location is mouth iff byte 5 is 6, finger iff it is 4, and absent for any other code or a missing byte 5 |
| Temperature.Mantissa | Ch09_code/FromBinaryToText.js:59-61 | The assembled mantissa is a non-negative number below 2^24 |
| Temperature.MantissaIsLittleEndian | Ch09_code/FromBinaryToText.js:57-61 | `b1 + 256*b2 + 65536*b3` is the little-endian reading of bytes 1..3 |
| Temperature.SignedByte | Ch09_code/FromBinaryToText.js:63-66 | The two's-complement reading of a byte lies in -128..127 and is congruent to the byte modulo 256 |
| Temperature.FlipAndAddOne | Ch09_code/FromBinaryToText.js:71-77 | `b & 0x80 != 0` iff the byte is negative as a signed byte, and then `-((b ^ 0xFF) + 1) == b - 256`, its two's-complement value |
| Temperature.ExponentDecoding | Ch09_code/FromBinaryToText.js:67-79 | The exponent lies in -128..0; it is `b4 - 256` when bit 7 of byte 4 is set, and 0 when that bit is clear or byte 4 is missing |
| Temperature.OnlyFirstSixBytesRead | Ch09_code/FromBinaryToText.js:41-82 | Frames that agree on their first six bytes decode to the same record |
| Temperature.DecodeEncode | Ch09_code/FromBinaryToText.js:41-82 | Decoding the frame encoded from a unit, an optional location, a 24-bit mantissa and an exponent in -128..0 gives back all four |
| Temperature.EncodeDecode | Ch09_code/FromBinaryToText.js:41-82 | A six-byte frame with flags 0 or 1, exponent byte 0 or negative and location code 0, 4 or 6 is rebuilt exactly by encoding its decoding |
| Temperature.RoundTripOnlyCanonical | Ch09_code/FromBinaryToText.js:41-82 | Conversely, a six-byte frame that encoding its decoding rebuilds has flags 0 or 1, exponent byte 0 or negative and location code 0, 4 or 6 |
| Temperature.StandardMantissa | Ch09_code/FromBinaryToText.js:57-61 | The FLOAT format's signed mantissa lies in -2^23..2^23-1 and agrees with the code's unsigned one modulo 2^24 |
| Temperature.AgreesWithStandardIff | Ch09_code/FromBinaryToText.js:59-79 | The code's (mantissa, exponent) equals the FLOAT format's iff the mantissa's top bit is clear and the exponent byte is 0 or negative |
| Temperature.Pow10Step | Ch09_code/FromBinaryToText.js:82 | Raising the exponent by one multiplies 10^e by ten, for negative e too |
| Temperature.Pow10Reciprocal | Ch09_code/FromBinaryToText.js:82 | 10^e × 10^-e = 1 for every integer e, so a negative exponent divides by a power of ten |
| Temperature.ExampleCelsiusMouth | Ch09_code/FromBinaryToText.js:41-82 | `[00 DC 00 00 FF 06]` decodes to 220 × 10^-1 = 22.0, Celsius, mouth |
| Temperature.ExampleFahrenheitFinger | Ch09_code/FromBinaryToText.js:41-82 | `[01 64 00 00 00 04]` decodes to 100 × 10^0 = 100.0, Fahrenheit, finger |
| Temperature.ExampleUnknownLocation | Ch09_code/FromBinaryToText.js:41-82 | `[00 0A 00 00 FE 09]` decodes to 10 × 10^-2 = 0.1 with the location unset |
| Temperature.ExamplePositiveExponentDropped | Ch09_code/FromBinaryToText.js:67-79 | Exponent byte 0x01 is read as exponent 0 |
| Temperature.ExampleShortFrames | Ch09_code/FromBinaryToText.js:41-82 | A four-byte frame yields a record with exponent 0 and no location; a three-byte and an empty frame yield a NaN value |
| Temperature.ShortFramesAreNaN | Ch09_code/FromBinaryToText.js:41-82 | For every frame, the value is NaN exactly when it has fewer than four bytes, and the location is unset whenever it has fewer than six |
| Departures.ToUpper | Ch04_code/VisitBARTWebService.js:136 | Upper-casing keeps the length and upper-cases each character in place |
| Departures.ToUpperIdempotent | Ch04_code/VisitBARTWebService.js:136 | Upper-casing an upper-cased string changes nothing |
| Departures.MatchesIffSameIgnoringCase | Ch04_code/VisitBARTWebService.js:136 | A departure matches iff its abbreviation and the destination have equal length and agree character by character up to case |
| Departures.MatchIgnoresDestinationCase | Ch04_code/VisitBART.js:92 | Matching against the destination or against its upper-cased form gives the same answer |
| Departures.LastMatchFoundIff | Ch04_code/VisitBARTWebService.js:129-154 | A departure is found iff some entry's abbreviation matches |
| Departures.LastMatchIsLast | Ch04_code/VisitBARTWebService.js:134-154 | The minutes found are those of a matching entry with no matching entry after it |
| Departures.LaterMatchWins | Ch04_code/VisitBART.js:90-110 | With two entries for the destination, the later one's minutes (18) are taken, not the first one's (3) |
| Departures.ExactlyOneBand | Ch04_code/VisitBARTWebService.js:148-151 | Of the four independent advisory tests exactly one fires, and each fires on exactly its range: ≥15, [10,15), [5,10) or <5 |
| Departures.NoteFor | Ch04_code/VisitBART.js:98-107 | "Leaving" gets the leaving note and no band; a count gets its minutes and exactly one band |
| Departures.NotesFollowLastMatch | Ch04_code/VisitBART.js:90-110 | Notes are printed iff a departure is found, and the last note describes the minutes found |
| Departures.ScanDepartures | Ch04_code/VisitBARTWebService.js:129-154 | The loop sets `found` iff some entry matches; `min` is then the last match's minutes, otherwise it stays 0; the notes are one per match in order |
| BartWebService.NatToString | Ch04_code/VisitBARTWebService.js:157 | The minutes are written as a non-empty string of decimal digits |
| BartWebService.ParseNatToString | Ch04_code/VisitBARTWebService.js:157 | Reading the written digits back gives the minutes |
| BartWebService.ArrivalTextDistinct | Ch04_code/VisitBARTWebService.js:157-160 | Different minutes give different reply texts, and no found reply text is "-1" |
| BartWebService.ArrivalFieldRoundTrip | Ch04_code/VisitBARTWebService.js:157 | The Arrival field read from `{"Arrival":"<text>"}` is exactly `<text>` |
| BartWebService.NotFoundReplyIff | Ch04_code/VisitBARTWebService.js:129-162 | The reply is `{"Arrival":"-1"}` iff the station has no etd list or no entry matches |
| BartWebService.FoundReplyCarriesMinutes | Ch04_code/VisitBARTWebService.js:157 | When an entry matches, the reply's Arrival field is the last match's minutes or "Leaving" |
| BartWebService.HttpResponse.Send | Ch04_code/VisitBARTWebService.js:157 | Sending appends one body to what the response has sent |
| BartWebService.HandleBartResponse | Ch04_code/VisitBARTWebService.js:107-163 | On an error message the program halts with nothing sent; otherwise exactly one body, the `ReplyBody` for the station, is sent, and the notes are those of the scan |
| BartPoller.HandleBartResponse | Ch04_code/VisitBART.js:65-116 | Halts iff the reply carries an error; otherwise "not found" is reported iff there is no etd list or no match, iff no note was printed, and the notes are those of the scan |

## Left out

- JSON parsing and serialisation (`JSON.parse`, `JSON.stringify`) are left out. The payload is taken as the parsed characteristics map, and the output as the record value. A NaN value stands for the `null` that `JSON.stringify` writes.
- `new Date()` is left out. The capture time is a parameter.
- `Math.pow` and floating-point multiplication are left out. The value is kept as the exact (mantissa, exponent) pair, and `ValueOf` gives its exact rational value.
- The data array is taken to hold numbers 0..255, as the BLE characteristic's bytes are. Other JSON values in the array are not modelled.
- Temperature.RunFunctionNode: throwing inside the node is modelled as the message being left unchanged. Node-RED's error reporting is not modelled.
- Departures.ToUpper: only ASCII letters are upper-cased. JavaScript's `toUpperCase` also maps non-ASCII letters; station abbreviations are ASCII.
- Departures.Minutes: a count of minutes is taken as the decimal numeral BART sends. JavaScript's coercion of other strings in `min >= 15` is not modelled.
- The HTTP client and server, `process.argv`, and `https.get` are left out, as are the `data`/`error` stream handlers and the 15-second `setInterval` polling. These are I/O and timers. The handlers take the parsed reply and the destination as parameters.
- `process.exit` on an error message in the reply is modelled only as a `halted` outcome. The request-error handler that also exits is not modelled.
- An empty `station` list or an empty `estimate` list would make the code throw. These are not modelled: a station is its first station, and an entry carries its first estimate.
- The shared `httpResponse` global, and VisitBART.js's implicit global `min`, are not modelled. In VisitBARTWebService.js, concurrent requests can overwrite `httpResponse`; the model passes the response to the handler, so it does not capture that overwriting. In VisitBART.js, `min` is read only after it is set in the same call, so leaving it out changes nothing observable.
- Console output is modelled only as the per-match notes, and, for Ch04_code/VisitBART.js only, the "not found" outcome. In Ch04_code/VisitBARTWebService.js the "no destination train" console line is not modelled; only its "-1" reply is. The echoed departure objects and the fixed banner lines are not modelled.
