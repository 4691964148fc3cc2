# Noise-level subscriber: a Dafny model

The subscriber listens for noise-level readings and stores them in a SQLite
table. It also answers HTTP requests about a time range. This project models
its core and proves properties of it. The core is `subscriber/src/main.rs`:

- `parse_query` reads the `from` and `to` bounds out of a URL query string.
- `Server::call` turns a request into a response.
- `parse_noise_level` reads a 4-byte big-endian word from a message payload.
- `on_message` stores a payload in the `noise_levels` table.
- The `BETWEEN` range query selects rows of that table.

The modules are:

| file | module | models |
|---|---|---|
| `wrappers.dfy` | `Wrappers` | `Option` and `Result` |
| `bytes.dfy` | `Bytes` | bytes, ASCII constants and decimal digits |
| `int64.dfy` | `Int64` | `str::parse::<i64>` and the decimal `Display` of an `i64` |
| `form_urlencoded.dfy` | `FormUrlencoded` | `form_urlencoded::parse` of the `url` crate, with a serializer (section 5.2 of the WHATWG URL Standard) as its inverse |
| `range_query.dfy` | `RangeQuery` | `parse_query`: a declarative specification (`RangeOf`) and the loop of the source (`ScanPairs`) |
| `http_service.dfy` | `HttpService` | `Server::call` |
| `noise_level.dfy` | `NoiseLevel` | `parse_noise_level` |
| `noise_store.dfy` | `NoiseStore` | the `noise_levels` table as a class, its `INSERT`, the `BETWEEN` filter, and `on_message` |

Modelling choices:

- **Query strings are bytes.** The `url` crate decodes a pair's name and value lossily as UTF-8. ASCII bytes survive that decoding unchanged, and no other byte turns into ASCII. So comparing a name with `from` or `to`, and parsing a value as an `i64`, give the same answers on the raw bytes.
- **`i64` parsing rejects overflow.** A literal is an optional `+` or `-` followed by at least one digit. The parse fails on overflow, as Rust's checked accumulation does. `FromDecimal` states which literals parse. `ParseI64` is the digit-by-digit loop that is proved to agree with it.
- **The response is a value.** It has a status, an optional `Content-Length` and a body. `Response::new()` has status 200, no headers and an empty body.
- **The table is a map.** It maps an arrival instant, in nanoseconds since the epoch, to the raw payload bytes. `unix_time` is the `PRIMARY KEY`, so inserting at an existing instant fails and leaves the table as it was.
- **The range filter works in whole seconds.** SQLite's `datetime()` keeps whole seconds, so `BETWEEN` compares the seconds of the instants, with both ends included. The filter returns a map: the query has no `ORDER BY`, so no order is promised.
- **The clock is a parameter.** `Utc::now()` becomes the `now` argument of `OnMessage`.
- **The logger's level is a parameter.** `on_message` decodes the payload only inside `debug!(...)`. The `log` macros evaluate their arguments only when the logger admits the Debug level. `env_logger::init()` admits only errors unless `RUST_LOG` says otherwise, and `kankyo::load()` runs after it, so a `RUST_LOG` in `.env` has no effect. `OnMessage` therefore takes `debugEnabled`. When it is false, every payload goes straight to the `INSERT`, whatever its length. When it is true, a payload shorter than 4 bytes fails before any write.

The model also follows these behaviours of the code:

- there is a single table for every topic;
- the HTTP body echoes the two bounds; it does not list rows;
- any method other than `GET` on the route gets 404;
- the raw payload is stored, not the decoded value;
- with debug logging on, a payload of 4 bytes or more passes the decoding and any extra bytes are ignored; with it off, no length is checked;
- a second insert at the same instant is refused; the stored row is not overwritten.

`subscriber/src/error.rs` converts only I/O and MQTT errors into its `Error`. Several `?` operators need conversions that are not in that file:
- the `?` operators of `parse_query` at `subscriber/src/main.rs:186-192`, which need `ParseIntError` and the `NoneError` that `from?` produces;
- the `?` after the `INSERT` in `on_message` at `subscriber/src/main.rs:130-132`, which needs the SQLite error;
- the `?` in `open_connection` at `subscriber/src/main.rs:117`, which needs the environment-variable error.

The model gives all of them their evident meaning: return an error. For the `INSERT` that is `OnMessage`'s `Failure(Store(...))`.

## Model

| member | source | states |
|---|---|---|
| `Int64.FromDecimal` | subscriber/src/main.rs:186-187 | A value parses only if it is an optional `+` or `-` followed by at least one digit, and fits in 64 bits. The empty value and a bare sign never parse. |
| `Int64.ParseI64` | subscriber/src/main.rs:186-187 | The checked digit-by-digit parse returns exactly what `FromDecimal` says: `None` at a stray byte or on overflow, otherwise the value. |
| `Int64.StrayByteRejected` | subscriber/src/main.rs:186-187 | A non-digit anywhere after the sign makes the value unparsable. |
| `Int64.OverflowRejected` | subscriber/src/main.rs:186-187 | If a prefix of the digits already leaves the `i64` range, so does the whole value. |
| `Int64.SignedSnoc` | subscriber/src/main.rs:186-187 | Appending a digit multiplies the signed accumulator by ten and adds or subtracts the digit, which is the checked step of the parse. |
| `Int64.ToDecimal` | subscriber/src/main.rs:163-164 | The printed number starts with `-` exactly when it is negative and is otherwise digits. The digits spell the magnitude and have no leading zero; 0 prints as the single digit `0`. There is no `+` and no newline, `&` or `=`. |
| `Int64.ToDecimalRoundTrip` | subscriber/src/main.rs:163-164 | Parsing the printed form of any `i64` gives the same number back. |
| `Int64.ToDecimalInjective` | subscriber/src/main.rs:163-164 | Distinct `i64` values print differently. |
| `FormUrlencoded.IndexOf` | subscriber/src/main.rs:179 | The split point is the first occurrence of the byte, or the end when there is none. |
| `FormUrlencoded.ReplacePlus` | subscriber/src/main.rs:179 | Keeps the length, leaves no `+`, and keeps every other byte in place. |
| `FormUrlencoded.PercentDecode` | subscriber/src/main.rs:179 | Decoding never lengthens the input, and leaves input without `%` unchanged. |
| `FormUrlencoded.Decode` | subscriber/src/main.rs:179 | Decoding a name or value never lengthens it, and text without `+` or `%` decodes to itself. |
| `FormUrlencoded.SplitPair` | subscriber/src/main.rs:179 | A piece without `=` is a name with an empty value. A pair is never longer than its piece. |
| `FormUrlencoded.Parse` | subscriber/src/main.rs:179 | `form_urlencoded::parse`: the empty query has no pairs. `ParseLength`, `ParseOnePiece`, `ParseConcat` and `ParseSerialize` pin down the rest. |
| `FormUrlencoded.ParseLength` | subscriber/src/main.rs:179 | Empty pieces give no pair, so a query never has more pairs than bytes. |
| `FormUrlencoded.ParseOnePiece` | subscriber/src/main.rs:179 | Input without `&` is one piece: either no pair (empty input) or one name/value pair. |
| `FormUrlencoded.ParseConcat` | subscriber/src/main.rs:179 | Parsing `a&b` gives the pairs of `a` followed by the pairs of `b`. |
| `FormUrlencoded.DecodeEncode` | subscriber/src/main.rs:179 | Percent-decoding undoes the serializer's encoding of any byte string. |
| `FormUrlencoded.SplitPairSerialize` | subscriber/src/main.rs:179 | A serialized `name=value` splits back into the same pair. |
| `FormUrlencoded.ParseSerialize` | subscriber/src/main.rs:179 | Parsing the serialization of any list of pairs gives the same list back, in order. |
| `RangeQuery.LastIndex` | subscriber/src/main.rs:184-190 | The index found is that of the last pair with the given name, or -1 when no pair has it. |
| `RangeQuery.RangeOf` | subscriber/src/main.rs:181-192 | The declarative `parse_query` over the parsed pairs. It succeeds only when every bound is valid and a `from` is present. Both results are `i64` values, and no pairs means `MissingFrom`. |
| `RangeQuery.QueryRange` | subscriber/src/main.rs:178-193 | `parse_query` on a query string. A success holds two `i64` values, and the empty query fails with `MissingFrom`. |
| `RangeQuery.ParseQuery` | subscriber/src/main.rs:178-193 | `parse_query` returns exactly `RangeOf` of the parsed pairs. |
| `RangeQuery.ScanPairs` | subscriber/src/main.rs:181-192 | The loop over the pairs agrees with the declarative `RangeOf`. It fails at the first invalid `from` or `to` value, and otherwise keeps the last value of each. |
| `RangeQuery.InvalidBoundSpoils` | subscriber/src/main.rs:186-187 | One invalid `from` or `to` value anywhere makes the whole parse fail with `InvalidNumber`. |
| `RangeQuery.RangeOfValid` | subscriber/src/main.rs:192 | When every bound is valid, a missing `from` fails. Otherwise the result is the last `from` and the last `to`, or 0 when there is no `to`. |
| `RangeQuery.MissingFromFails` | subscriber/src/main.rs:181-192 | A query with no `from` pair always fails. |
| `RangeQuery.MissingToIsZero` | subscriber/src/main.rs:182-192 | With valid bounds, a `from` and no `to`, the result is the parsed `from` and 0. |
| `RangeQuery.InvalidBoundNotRescued` | subscriber/src/main.rs:184-187 | An invalid `from` or `to` pair fails the query whatever comes before or after it, including a later valid pair for the same name. |
| `RangeQuery.LastValueSkip` | subscriber/src/main.rs:184-190 | A pair with another name does not change the last value of a name. |
| `RangeQuery.OtherNamesIgnored` | subscriber/src/main.rs:188 | Removing a pair whose name is neither `from` nor `to` does not change the result, so such pairs can never cause a failure. |
| `RangeQuery.LastBoundWins` | subscriber/src/main.rs:186-187 | Appending a valid `from` or `to` pair makes the parse succeed with that value for that bound, so the last occurrence wins. |
| `RangeQuery.FromThenTo` | subscriber/src/main.rs:184-192 | A valid `from` pair followed by a valid `to` pair gives their two values. |
| `RangeQuery.WellFormedQuery` | subscriber/src/main.rs:178-193 | The query `from=<a>&to=<b>` of any two `i64` values gives `(a, b)`. |
| `RangeQuery.FromOnlyQuery` | subscriber/src/main.rs:182-192 | The query `from=<a>` gives `(a, 0)`. |
| `HttpService.Call` | subscriber/src/main.rs:145-175 | 404 exactly off `GET /noise_levels`. 400 exactly on the route with no query or an unparsable one. Otherwise 200 with the echo body and a `Content-Length` equal to its byte length. Error responses have no header and no body. |
| `HttpService.Body` | subscriber/src/main.rs:163-164 | The `format!` text starts with `Hello world!\nfrom: ` and is long enough for both labels plus at least one character per number. `BodyInjective` shows that it determines the range. |
| `HttpService.EchoInjective` | subscriber/src/main.rs:163-164 | The echo text splits back into the two printed numbers, because the first one has no newline. |
| `HttpService.BodyInjective` | subscriber/src/main.rs:163-164 | The echo body determines both bounds. |
| `HttpService.RangeRequestAnswered` | subscriber/src/main.rs:155-168 | `GET /noise_levels?from=<a>&to=<b>` is answered 200 with the body that echoes `a` and `b`. |
| `HttpService.OtherMethodsNotFound` | subscriber/src/main.rs:146-173 | Any method other than `GET` on `/noise_levels` gets an empty 404, whatever the query. |
| `HttpService.InvalidFromRejected` | subscriber/src/main.rs:155-160 | A `from` value that is not an `i64` gets an empty 400. |
| `HttpService.MissingQueryRejected` | subscriber/src/main.rs:148-152 | `GET /noise_levels` with no query string gets an empty 400. |
| `NoiseLevel.ParseNoiseLevel` | subscriber/src/main.rs:120-122 | Decoding succeeds exactly when the payload has at least 4 bytes. |
| `NoiseLevel.DecodeEncode` | subscriber/src/main.rs:120-122 | Decoding the big-endian encoding of any 32-bit word gives that word. |
| `NoiseLevel.EncodeDecode` | subscriber/src/main.rs:120-122 | The decoded word re-encodes to the first four bytes of the payload, so it is exactly those bytes read big-endian. |
| `NoiseLevel.TrailingBytesIgnored` | subscriber/src/main.rs:120-122 | Bytes after the fourth do not change the result. |
| `NoiseStore.WholeSecond` | subscriber/src/main.rs:63 | SQLite's `datetime()` truncates an instant to its second: the floor of the instant divided by 10^9 nanoseconds. |
| `NoiseStore.Between` | subscriber/src/main.rs:62-63 | A row is selected exactly when its second lies between the seconds of the two bounds, inclusive, and it keeps its payload. |
| `NoiseStore.NoiseLevelTable.constructor` | subscriber/src/main.rs:54-57 | A freshly created table is empty. |
| `NoiseStore.NoiseLevelTable.Insert` | subscriber/src/main.rs:54-57 | An insert at a new instant adds exactly that row. One at an existing instant fails with a key conflict and changes nothing. |
| `NoiseStore.OnMessage` | subscriber/src/main.rs:124-135 | With debug logging on, a payload under 4 bytes fails before any write. With it off, or for a longer payload, the raw payload is stored under the arrival instant, or the insert fails on the key and the table is unchanged. No other row changes. |
| `NoiseStore.BetweenAfterInsert` | subscriber/src/main.rs:62-63 | After an insert, a range holds the new row exactly when its seconds cover the new instant, and every other row is as before. |
| `NoiseStore.BetweenWiden` | subscriber/src/main.rs:62-63 | Widening the range never drops a row. |
| `NoiseStore.ReversedRangeEmpty` | subscriber/src/main.rs:62-63 | A range whose end second precedes its start second is empty. |
| `NoiseStore.SingleSecondRange` | subscriber/src/main.rs:62-63 | A range from an instant to itself holds every row of that second. |
| `NoiseStore.SameSecondArrivals` | subscriber/src/main.rs:62-63 | Two messages in the same second are two rows, and a query for that second finds both payloads. |

## Left out

- MQTT client setup, subscription, keep-alive and reconnect (`subscriber/src/main.rs:82-92`): network I/O.
- Loading the environment, logger initialisation, and the tokio/hyper event loop that spawns connections (`subscriber/src/main.rs:47-48`, `95-111`): process setup and asynchronous plumbing. `Server::call` is modelled as a function from request to response.
- Opening the database connection (`open_connection`, `subscriber/src/main.rs:116-118`) and its failure: environment and file I/O.
- The startup loop that reads back the last two minutes and only logs them (`subscriber/src/main.rs:62-77`). The `BETWEEN` filter it uses is modelled by `NoiseStore.Between`.
- The `f32` reading of the 32-bit word: floating point. The model keeps the word as an unsigned integer, which fixes the bits.
- The panics of `.expect(...)` in `on_message`: with debug logging on, `OnMessage` fails before any write instead of ending the process.
- The text format chrono gives a timestamp, and how `datetime()` parses it. Instants are integers, and `datetime()` is modelled as their whole second. Years outside 0000-9999, where `datetime()` gives NULL, are not modelled.
- The `url` crate's lossy UTF-8 decoding of names and values: it cannot change a comparison with `from` or `to` or an `i64` parse, for the reason given above.
- The text that logging writes (`debug!`, `error!`, `info!`) and the `Debug` formatting of errors. Whether Debug is enabled is modelled, as the `debugEnabled` parameter of `OnMessage`, because it decides whether the payload is decoded.
- `subscriber/src/error.rs`: an error enum with no behaviour worth stating.
- `frontend/src/App.js` and `frontend/src/config.example.js`: the browser front end is not part of this model.
- `subscriber/test_publisher.py`: a publisher that loops forever over the network.
