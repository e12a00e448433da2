/** Shared vocabulary of the serial bridge: bytes, optional values, results and
    the errors that end a session. */
module Common {

  /** A C# `byte`. */
  type byte = b: int | 0 <= b < 256

  datatype Option<+T> = None | Some(value: T)

  datatype Result<+T> = Success(value: T) | Failure(error: Error)

  /** What the command loop throws. Every one of them ends the process with exit code 1. */
  datatype Error =
    // protocol errors: the shape of the line is wrong
    | ExpectedFourParts(line: string)       // `$r` with fewer than four comma-separated parts
    | UnknownCommand(line: string)          // any line form the loop does not know
    // argument errors: a parameter does not parse
    | InvalidInt(index: int, line: string)  // parameter `index` (1, 2 or 3) of a `$r` line
    | OddLengthExpected(length: int, text: string)  // a `>` line of even length
    | InvalidHexPair(pair: string)          // two characters `Convert.ToByte(_, 16)` refuses
    // a fault raised by the port or the settings applier
    | PortFailure
}
