# SharpSerial in Dafny

SharpSerial is a bridge between a serial port and standard input/output. A
client process writes one command per line on the bridge's standard input:

- `$name=value` changes a port setting;
- `$r,size,eop,toms` reads from the port;
- `>hex` writes bytes to the port;
- a blank line, or the end of input, ends the session.

Each read is answered with one line: `<`, then two upper-case hex digits per
byte. Any malformed line, and any failure of the port, ends the process with
exit code 1.

The model has two parts.

**The read engine (`SerialDevice.dfy`, module `Device`).**
- `SerialDevice` is a class with the fields of `SerialDevice.cs`:
  - `queue`, the FIFO of received bytes;
  - `list`, the accumulator of the current read;
  - the 256-byte `buffer` the asynchronous port read fills;
  - `sent`, an abstract log of the bytes written.
- `ReadCallback` appends a completed chunk to the queue and says whether to re-arm.
- `ReadByte` dequeues one byte, or returns -1 on an empty queue.
- `Read(size, eop, toms)` is the rolling-deadline loop. It is proved equal to the
  specification function `ReadRun`, which runs the loop on values. The clock and
  the background reader are given to `Read` as a schedule:
  - `start` is the clock reading taken when the call begins;
  - `polls[k]` holds the bytes enqueued before iteration `k`, and the clock
    reading that iteration takes;
  - after the schedule, no bytes arrive and every deadline has passed.
- The lemmas are about `ReadRun`: FIFO conservation, the terminator rule, the
  size rule (including its `size = 0` quirk) and the time-out rule.
- The rolling deadline is stated with a count model that says, from the bytes
  queued and arriving alone, which iterations take a byte (`Takes`) and which was
  the last one to (`LastTake`). A time-out inside the schedule happens at the
  deadline `toms` after the clock reading of the last iteration that took a byte,
  or `toms` after `start` when none did. Whatever its size and terminator, a read
  does not time out during the first `n` iterations when the clock keeps each empty
  poll among them within `toms` of the last byte. Without a size or terminator it
  then runs past all `n` and ends by a later time-out.

**The line protocol.**
- `Common.dfy` (module `Common`) holds the byte type, `Option`, `Result` and the
  errors the command loop can raise.
- `Text.dfy` (module `Text`) models the .NET string operations the loop relies on:
  - `string.IsNullOrWhiteSpace`, with the Unicode white-space set of `char.IsWhiteSpace`;
  - ordinal `StartsWith` and `Contains`;
  - `Split(',')`;
  - `int.TryParse` with `NumberStyles.Integer` and invariant-culture signs.
- `HexCodec.dfy` (module `HexCodec`) holds the two hex routines.
  - The `AnswerHex` method builds the response string in a loop; it is proved
    equal to `EncodeHex`.
  - The `ParseHex` method fills a byte array in a loop; it is proved equal to
    `DecodeHex`. `Convert.ToByte(pair, 16)` is `PairValue`: two hex digits in
    either case, or `+` followed by one digit. Decoding a line and its ASCII
    upper-cased form give the same bytes.
  - The lemmas give the shape of both, and the round trips between them.
- `CommandLoop.dfy` (module `CommandLoop`) holds `Main`.
  - `Classify` is the chain of tests `Main` applies to a line. `Step` and
    `Session` give the effect of a line and of a whole run.
  - `Run` is the imperative loop: the startup arguments first, then one line at
    a time through `Handle`. It is proved equal to `Session`.
  - The serial wrapper is a `Port`: a function that gives the wrapper's reply to
    the last call of every history of calls, either the bytes read or a fault.

Where the code and its documentation differ, the model follows the code.
- `$r` needs *at least* four comma-separated parts; any further parts are ignored.
- An `=` anywhere in a `$` line makes it a setting, even `$r,1,2,3=`.
- `size = 0` still reads one byte, because the size check comes after the byte is added.

## Model

| member | source | states |
|---|---|---|
| Device.SerialDevice.constructor | SharpSerial/SerialDevice.cs:20-24 | the queue, the accumulator and the write log start empty, and the buffer is a fresh array of 256 bytes |
| Device.SerialDevice.ReadByte | SharpSerial/SerialDevice.cs:74-81 | on an empty queue: -1, and the queue stays empty; otherwise: the head of the queue, and the queue becomes its tail |
| Device.SerialDevice.ReadCallback | SharpSerial/SerialDevice.cs:83-101 | the queue becomes the old queue followed by `buffer[0..count)` in order, through `Enqueue`; it re-arms exactly when `count > 0` |
| Device.SerialDevice.Enqueue | SharpSerial/SerialDevice.cs:93-96 | enqueuing a chunk byte by byte leaves the old queue followed by the chunk, in order; nothing else changes |
| Device.SerialDevice.Write | SharpSerial/SerialDevice.cs:42-48 | the bytes are appended to the log of bytes sent, unchanged and in order |
| Device.ReadLoop | SharpSerial/SerialDevice.cs:54-69 | the loop from iteration `k` on values: an empty poll stops at the deadline or waits, a byte is taken and stops the loop on the terminator or the size, or renews the deadline to `toms` after that iteration's clock reading |
| Device.ReadRun | SharpSerial/SerialDevice.cs:52-71 | a read is the loop from an empty accumulator, the first iteration and the deadline `start + toms` |
| Device.SerialDevice.Read | SharpSerial/SerialDevice.cs:50-72 | the bytes returned equal `list` and the result of `ReadRun` on the queue at entry; the queue left behind equals the rest computed by `ReadRun`; nothing else changes |
| Device.ReadLoopConserves | SharpSerial/SerialDevice.cs:56-69 | from any point in the loop, the result followed by the queue left equals the bytes collected, then the bytes queued, then the bytes that arrived during the remaining iterations |
| Device.ReadIsFifo | SharpSerial/SerialDevice.cs:52-79 | no byte is lost, duplicated or reordered: result ++ queue left == queue at entry ++ bytes that arrived during the call; the result starts from an empty accumulator |
| Device.ReadLoopTerminator | SharpSerial/SerialDevice.cs:65-66 | for any accumulator free of the terminator, the loop stops on the terminator exactly when the last byte taken is `eop`, and no earlier byte is |
| Device.ReadTerminator | SharpSerial/SerialDevice.cs:66 | a read stops on the terminator iff `eop >= 0` and the result is non-empty and ends in `eop`; with `eop >= 0` no earlier byte of the result is `eop` |
| Device.ReadLoopSize | SharpSerial/SerialDevice.cs:65-67 | for any accumulator below the limit, the loop keeps the result at most `max(size, 1)` long; it stops on the size exactly at that length, and a time-out leaves it shorter |
| Device.ReadSize | SharpSerial/SerialDevice.cs:65-67 | with `size >= 0` the result has at most `max(size, 1)` bytes; stopping on the size means exactly `max(size, 1)` bytes; a time-out with `size >= 0` returns fewer |
| Device.ReadSizeZero | SharpSerial/SerialDevice.cs:65-67 | `size = 0` returns at most one byte; the result is empty exactly on a time-out; with a non-empty queue it is the head of the queue |
| Device.ReadLoopStopsOnEmpty | SharpSerial/SerialDevice.cs:56-62 | from any point in the loop, a time-out happens only at an iteration that finds the queue empty and the clock at or past the deadline then in force (or the schedule used up), leaving the queue empty |
| Device.LastTakeIsLast | SharpSerial/SerialDevice.cs:56-65 | in the count model, `LastTake` is an iteration that takes a byte, and no later iteration before `i` takes one |
| Device.ReadLoopExtends | SharpSerial/SerialDevice.cs:65 | from any point in the loop, the result starts with the bytes already collected |
| Device.ReadLoopDeadline | SharpSerial/SerialDevice.cs:53-68 | from any point in the loop, a time-out found no byte at its iteration; the result is the accumulator iff no iteration took a byte; inside the schedule the deadline that expired is `toms` after the clock reading of the last iteration that took a byte, or the deadline in force at the start when none did |
| Device.ReadTimeout | SharpSerial/SerialDevice.cs:53-68 | a read that times out leaves the queue empty and found no byte at its last iteration; its result is empty iff no iteration took a byte; inside the schedule the deadline that expired is `toms` after the clock reading of the last iteration that took a byte, or `start + toms` when none did, and the clock had moved at least `toms` past that reading |
| Device.ReadLoopSilent | SharpSerial/SerialDevice.cs:57-62 | with no bytes queued or arriving, the loop returns what it had collected, never moves the deadline, and stops at the first clock reading at or past it |
| Device.SilentRead | SharpSerial/SerialDevice.cs:53-62 | with nothing queued and nothing arriving, a read returns no bytes, times out at the deadline `start + toms`, polls while the clock is before it, and stops at the first reading at or past it |
| Device.ReadLoopNoWait | SharpSerial/SerialDevice.cs:53-68 | with `toms <= 0` and a clock that never goes back, every iteration takes a byte, except one final iteration that times out |
| Device.ReadNoWait | SharpSerial/SerialDevice.cs:53-68 | with `toms <= 0` and a monotone clock, a read runs one iteration per byte returned, plus one if it timed out: it never waits for more bytes |
| Device.RollingDeadline | SharpSerial/SerialDevice.cs:53-68 | for any size and terminator, if each of the first `n` iterations that finds no byte reads the clock less than `toms` after the last byte taken (or after `start`), none of them times out: a time-out comes only after all `n` |
| Device.RollingDeadlineNoLimit | SharpSerial/SerialDevice.cs:53-68 | under the same clock condition and with neither a size nor a terminator, the read runs past all `n` iterations and ends by a time-out |
| Device.ReadSizePrefix | SharpSerial/SerialDevice.cs:54-67 | a read stopped by its size returns the first `max(size, 1)` bytes of the queue followed by the bytes that arrived during the call, none of them the terminator |
| Device.ReadTerminatorPrefix | SharpSerial/SerialDevice.cs:54-66 | a read stopped by its terminator returns the queue followed by the bytes that arrived during the call, up to and including the first terminator among them |
| Device.ArrivedSplit | SharpSerial/SerialDevice.cs:93-96 | the bytes that arrive over a span of polls are those of its first part followed by those of the rest |
| Device.ArrivedAgree | SharpSerial/SerialDevice.cs:93-96 | the queue followed by the bytes arrived over a shorter span is a prefix of the queue followed by those of a longer one |
| Device.ReadArrivedFirstBytes | SharpSerial/SerialDevice.cs:54-67 | a size-bounded read with no terminator, during which enough bytes are present before the clock gives up, stops by its size and returns exactly the first `size` of the queue followed by the arrived bytes |
| Device.ReadArrivedThroughTerminator | SharpSerial/SerialDevice.cs:54-66 | an unbounded read, during which a terminator is present before the clock gives up, stops by that terminator and returns exactly the bytes up to and including its first occurrence |
| Device.ReadUntilSilence | SharpSerial/SerialDevice.cs:54-69 | without a size or terminator, a read times out and returns everything queued or arriving until then, leaving the queue empty |
| Device.ReadLoopFirstBytes | SharpSerial/SerialDevice.cs:65-67 | with no terminator and at least `size - |acc|` bytes queued, the loop stops on the size after taking exactly those bytes |
| Device.ReadFirstBytes | SharpSerial/SerialDevice.cs:65-67 | with no terminator and `1 <= size <= |queue|`, a read returns exactly the first `size` queued bytes |
| Device.ReadLoopThroughTerminator | SharpSerial/SerialDevice.cs:65-66 | with no size limit and the first terminator at queue position `i`, the loop stops on it after taking `queue[..i+1]` |
| Device.ReadThroughTerminator | SharpSerial/SerialDevice.cs:65-66 | with no size limit and the first `eop` of the queue at position `i`, a read returns the queue up to and including it |
| Text.IsBlank | SharpSerial/Program.cs:24-25 | a blank line never starts with `$` or `>`, so the blank test comes first without hiding a command |
| Text.Split | SharpSerial/Program.cs:30 | a split always has at least one part |
| Text.SplitJoin | SharpSerial/Program.cs:30 | joining the parts of `Split(line, ',')` with `,` gives `line` back, and no part contains a comma |
| Text.SplitHead | SharpSerial/Program.cs:30-31 | the first part is the text before the first comma, or the whole line when it has none |
| Text.SplitAfter | SharpSerial/Program.cs:30 | splitting `a , b` where `a` has no comma gives `a` followed by the parts of `b` |
| Text.TryParseInt32 | SharpSerial/Program.cs:61 | a parsed value always lies in the 32-bit range, and a text without a decimal digit never parses |
| Text.TryParseInt32Shape | SharpSerial/Program.cs:61 | a text parses only if it is number white space, an optional sign, one or more digits, number white space and then only `'\0'`, and its value is the signed value of those digits |
| Text.TryParseInt32OfShape | SharpSerial/Program.cs:61 | every text of that form parses, to the signed value of its digits, exactly when that value fits in 32 bits |
| Text.ParseDecimal | SharpSerial/Program.cs:61 | `int.TryParse` reads back the decimal rendering of every 32-bit integer |
| HexCodec.HexDigit | SharpSerial/Program.cs:69 | every nibble is rendered as an upper-case hex digit |
| HexCodec.AnswerHex | SharpSerial/Program.cs:65-71 | the string built is `EncodeHex(data)` |
| HexCodec.HexPairsAt | SharpSerial/Program.cs:69 | the pairs have two characters per byte, the high nibble's digit first, in byte order |
| HexCodec.EncodeHexShape | SharpSerial/Program.cs:67-70 | the line has length `1 + 2n`, starts with `<`, characters `1+2i` and `2+2i` are byte `i`'s digits, and every other character is an upper-case hex digit |
| HexCodec.EncodeHexEmpty | SharpSerial/Program.cs:67-70 | no data gives the line `<` |
| HexCodec.DigitValue | SharpSerial/Program.cs:80 | exactly `0`-`9`, `A`-`F` and `a`-`f` have a value, and it is a nibble; every other character is refused |
| HexCodec.PairValue | SharpSerial/Program.cs:80 | a pair converts iff its second character is a hex digit and its first is a hex digit or `+`; the second digit is the low nibble, the first the high nibble, and a `+` gives a byte below 16 |
| HexCodec.DigitValueIgnoresCase | SharpSerial/Program.cs:80 | a digit and its ASCII upper-case form have the same value; `a`-`f` are worth 10-15 like `A`-`F` |
| HexCodec.PairValueIgnoresCase | SharpSerial/Program.cs:80 | a pair and its upper-cased form convert to the same byte, or both fail |
| HexCodec.DecodeHexIgnoresCase | SharpSerial/Program.cs:75-82 | a line and its upper-cased form both decode, to the same bytes, or both fail |
| HexCodec.ParseHex | SharpSerial/Program.cs:73-83 | the result is `DecodeHex(text)`: the even-length error, the first pair refused, or the bytes |
| HexCodec.DecodeRejectsEvenLength | SharpSerial/Program.cs:75 | any text of even length is refused with its length and text |
| HexCodec.DecodeFromSucceeds | SharpSerial/Program.cs:77-81 | decoding from pair `i` on succeeds exactly when every pair from `i` on converts |
| HexCodec.DecodeFromContents | SharpSerial/Program.cs:77-81 | a successful decoding from pair `i` has one byte per pair left, each the value of its pair |
| HexCodec.DecodeFromFirstFailure | SharpSerial/Program.cs:77-81 | a failed decoding names the first pair from `i` on that does not convert |
| HexCodec.DecodeHexShape | SharpSerial/Program.cs:75-82 | an odd-length text decodes iff every pair converts; it then gives `len/2` bytes, byte `i` being the value of characters `1+2i` and `2+2i`; otherwise the error names the first pair refused |
| HexCodec.DecodeFromIgnoresMarker | SharpSerial/Program.cs:79 | decoding from pair `i` reads nothing of the first character |
| HexCodec.DecodeHexIgnoresMarker | SharpSerial/Program.cs:79 | two texts that differ only in their first character decode alike |
| HexCodec.DigitValueOfHexDigit | SharpSerial/Program.cs:69-80 | the digit rendered for a nibble converts back to that nibble |
| HexCodec.PairOfUpperDigits | SharpSerial/Program.cs:69-80 | two upper-case digits convert to the byte whose `X2` rendering they are |
| HexCodec.HexRoundTrip | SharpSerial/Program.cs:65-83 | `ParseHex` of the `AnswerHex` line of any data gives that data back |
| HexCodec.EncodeOfDecode | SharpSerial/Program.cs:65-83 | a decodable text made of `<` and upper-case digits is the `AnswerHex` line of what it decodes to |
| CommandLoop.ParseInt | SharpSerial/Program.cs:59-63 | a parsed value lies in the 32-bit range; a failure names the parameter's position and the line |
| CommandLoop.ParseIntOfDecimal | SharpSerial/Program.cs:59-63 | a parameter written as a 32-bit decimal parses to its value |
| CommandLoop.ParseIntRejectsNoDigits | SharpSerial/Program.cs:59-63 | a parameter without a digit fails with the position and the line |
| CommandLoop.Classify | SharpSerial/Program.cs:24-53 | a line is blank iff `IsBlank`; a setting starts with `$`, contains `=` and is the line without its `$`; a read starts with `$`, has no `=`, first part `$r` and at least four parts; a write starts with `>` and carries what the line decodes to |
| CommandLoop.ReadHeadOfSplit | SharpSerial/Program.cs:30-33 | the first comma-separated part is `$r` iff the line is exactly `$r` or starts with `$r,` |
| CommandLoop.ClassifySetting | SharpSerial/Program.cs:24-27 | a line is a setting iff it starts with `$` and contains `=` anywhere; the setting is the line without its `$` |
| CommandLoop.ClassifyRead | SharpSerial/Program.cs:25-38 | a line is a read iff it starts with `$`, has no `=`, has first part exactly `$r`, has at least four parts and parts 1-3 parse; the read's parameters are their values |
| CommandLoop.ClassifyReadErrors | SharpSerial/Program.cs:34-37 | a `$r` line with fewer than four parts fails with that error; otherwise the first of parts 1-3 that does not parse fails, by its position |
| CommandLoop.ClassifyWrite | SharpSerial/Program.cs:46-48 | a line is a write iff it starts with `>` and decodes; the data is what it decodes to; a `>` line that does not decode fails with the decoding's error |
| CommandLoop.ClassifyUnknown | SharpSerial/Program.cs:41-53 | a line is an unknown command iff it is not blank and starts with neither marker, or is a `$` line without `=` whose first part is not `$r` |
| CommandLoop.ClassifyReadLine | SharpSerial/Program.cs:33-38 | the line `$r,size,eop,toms` written with 32-bit decimals asks for exactly that read |
| CommandLoop.ClassifyWriteLine | SharpSerial/Program.cs:46-48 | `>` followed by the `X2` pairs of some bytes asks to write exactly those bytes |
| CommandLoop.Handle | SharpSerial/Program.cs:24-53 | one pass of the loop body gives `Step(line)`: what classifying the line and making its call on the port does |
| CommandLoop.HandleCommand | SharpSerial/Program.cs:25-45 | on a `$` line, the loop body gives `Step(line)` |
| CommandLoop.Run | SharpSerial/Program.cs:15-57 | the whole run equals `Session(args, lines, port)` |
| CommandLoop.StepsAppend | SharpSerial/Program.cs:21-55 | running `pre + post` is running `pre`, then `post` from where `pre` left off, unless `pre` stopped |
| CommandLoop.SessionPrefix | SharpSerial/Program.cs:22-54 | once the loop has stopped, the lines after it make no difference |
| CommandLoop.BlankEndsSession | SharpSerial/Program.cs:22-56 | a blank line ends the session as the end of input would, with no output or call for it and whatever follows it unread; once reached, the session exits clean with exit code 0 and keeps the output and calls made so far |
| CommandLoop.EndOfInputClean | SharpSerial/Program.cs:22-56 | when startup and every line succeed, the end of input ends the session clean with exit code 0, keeping the output and calls made so far |
| CommandLoop.SessionStep | SharpSerial/Program.cs:21-55 | once the lines before are handled, a line's outcome decides the session: a line that stops it ends it there, otherwise the lines after run from the state it leaves |
| CommandLoop.StepSetting | SharpSerial/Program.cs:27 | a `$` line containing `=` makes exactly the call that sets the property named by the rest of the line, writes nothing, and ends the session on a port fault |
| CommandLoop.StepRead | SharpSerial/Program.cs:33-40 | a well-formed `$r` line makes exactly the read call with its size, terminator and timeout in that order and writes exactly the hexadecimal form of the bytes read, or ends the session on a port fault |
| CommandLoop.StepReadLine | SharpSerial/Program.cs:33-40 | the line `$r,size,eop,toms` for any 32-bit values makes the read call with those arguments and writes exactly the hexadecimal form of its answer, or ends the session on a port fault |
| CommandLoop.StepWrite | SharpSerial/Program.cs:46-48 | a `>` line that decodes makes exactly the write call with the decoded bytes and writes nothing, or ends the session on a port fault |
| CommandLoop.StepWriteLine | SharpSerial/Program.cs:46-48 | a `>` line holding the hexadecimal pairs of any bytes makes the write call with exactly those bytes and writes nothing |
| CommandLoop.StepOutput | SharpSerial/Program.cs:24-53 | only a read request adds output, exactly one line; every other line, and any line that stops the session, leaves the output as it was |
| CommandLoop.InvalidEndsSession | SharpSerial/Program.cs:8-56 | a line that does not classify, once reached, ends the session with its error and exit code 1, having done nothing for it; if it is not reached it changes nothing |
| CommandLoop.ConfigureDone | SharpSerial/Program.cs:20 | startup that succeeds hands every argument, unchanged and in order, to `SetProperty` and writes nothing |
| CommandLoop.ConfigureFault | SharpSerial/Program.cs:20 | startup that fails stops at the first call the port faults on: it has made the calls for the arguments up to it, the port answered every earlier one, and nothing is written |
| CommandLoop.SettingsPrefix | SharpSerial/Program.cs:20 | the first calls of startup are the first argument's call followed by the first calls for the remaining arguments |
| CommandLoop.SessionAnswers | SharpSerial/Program.cs:38-71 | the console output of any session is exactly one `AnswerHex` line per read the port answered, in order, and nothing else |
| CommandLoop.AnswersDecode | SharpSerial/Program.cs:65-83 | every answer line decodes, and it is the `AnswerHex` line of the bytes it decodes to |

## Left out

- Threads, locks and asynchronous I/O (`lock`, `BeginRead`/`EndRead`, the callback chain):
  the background reader's enqueues are the `arrived` part of the read schedule, made
  between the loop's iterations. `ReadCallback` models one completion on its own.
- Real time (`DateTime.Now`, `Thread.Sleep(1)`): the clock readings are the `now`
  part of the schedule, and the sleeps have no effect in the model.
- `DateTime.AddMilliseconds` overflow for a huge `toms` is not modelled: deadlines are
  unbounded integers.
- Device.SerialDevice.Read: the accumulated bytes are kept in a local sequence and
  stored in `list` when the loop ends, rather than appended to the field byte by byte.
  Nothing reads `list` while a call runs, so the result is the same.
- Opening the port (`new SerialPort`, `Open`, the first `BeginRead`), `stream.Write`/`Flush`
  and `Close`/`Dispose` are calls into System.IO.Ports. `Write` only appends to an abstract
  log of the bytes sent.
- `SerialSettings.CopyProperties` (SerialSettings.cs:34) and `Tools.Try` are the program's
  own helpers. Copying the settings onto the port is not modelled, and `Dispose`, which
  only wraps `Close`/`Dispose` in `Tools.Try`, is left out with them.
- Device.SerialDevice.ReadCallback: only a completion that returns a count is modelled. If
  `EndRead` throws (SerialDevice.cs:85-100), `Tools.Try` swallows the exception: nothing is
  enqueued and no read is re-armed, so no more bytes arrive. A schedule whose later
  polls bring no bytes describes what follows, but the callback has no fault path.
- Strings are sequences of Unicode scalar values, while .NET strings are UTF-16 code units.
  A character outside the Basic Multilingual Plane is one character here and two in the
  source, so lengths and pair positions differ for such text: on `>😀` the source sees
  length 3 and fails on the surrogate pair, while `DecodeHex` sees length 2 and gives
  `OddLengthExpected(2, …)`.
- `SerialWrapper` is not part of this model. Its `SetProperty`, `Read` and `Write` are
  the `Port` oracle, and any fault it raises is `PortFailure`.
- Message texts (`Make`, `Readable`, `Assert`) and the crash dump and log (`Dump`,
  `Exception`, Program.Logger.cs) are not modelled.
  - An error is the `Error` value with the data its message carries.
  - The handler's effect is exit code 1.
- `Environment.Exit` and the unhandled-exception hook are process wiring, represented
  only by `ExitCode`.
- Console I/O: the input is a sequence of lines and the output a sequence of strings.
  An exception raised by the console itself is not modelled.
- `StartsWith("$")` and `StartsWith(">")` are culture-sensitive in .NET. They are
  modelled as ordinal tests of the first character, which gives the same answer for
  these two characters except where a culture ignores characters placed before them.
- `int.TryParse` uses the current culture's sign symbols. The model uses the invariant
  culture's `+` and `-`.
- SerialSettings.cs, SerialException.cs and SerialStream.cs have no behaviour the loop
  depends on and are not part of this model.
