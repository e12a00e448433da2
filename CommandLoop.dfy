/** The command loop of `Program.Main`: startup arguments become settings, then
    each input line is a blank (stop), a `$name=value` setting, a `$r,size,eop,toms`
    read answered with a hex line, a `>hex` write, or a fatal error.

    The serial wrapper the loop drives is not part of the model: it is a `Port`, a
    function that gives the wrapper's answer to the latest operation of a history of
    operations. Console input is the sequence of lines, the end of the sequence
    being the end of input; console output is the sequence of lines written. */
module CommandLoop {
  import opened Common
  import opened Text
  import opened HexCodec

  /** `ParseInt(line, part, index)`: the parameter's value, or an error naming
      the parameter's position and the line. */
  function ParseInt(line: string, part: string, index: int): (r: Result<int>)
    ensures r.Success? ==> Int32Min <= r.value <= Int32Max
    ensures r.Failure? ==> r.error == InvalidInt(index, line)
  {
    match TryParseInt32(part)
    case Some(v) => Success(v)
    case None => Failure(InvalidInt(index, line))
  }

  /** A parameter written as `ToString()` writes a 32-bit value parses back to it. */
  lemma ParseIntOfDecimal(line: string, n: int, index: int)
    requires Int32Min <= n <= Int32Max
    ensures ParseInt(line, Decimal(n), index) == Success(n)
  {
    ParseDecimal(n);
  }

  /** A parameter without a single digit is refused, with the error naming its
      position and the line. */
  lemma ParseIntRejectsNoDigits(line: string, part: string, index: int)
    requires forall k :: 0 <= k < |part| ==> !IsDigit(part[k])
    ensures ParseInt(line, part, index) == Failure(InvalidInt(index, line))
  {
  }

  /** What one input line asks for. */
  datatype Command =
    | Blank
    | Setting(text: string)
    | ReadRequest(size: int, eop: int, toms: int)
    | WriteRequest(data: seq<byte>)
    | Invalid(error: Error)

  /** The tests `Main` applies to a line, in its order. */
  function Classify(line: string): (r: Command)
    ensures r.Blank? <==> IsBlank(line)
    ensures r.Setting? ==> StartsWith(line, '$') && '=' in line && r.text == line[1..]
    ensures r.ReadRequest? ==>
              StartsWith(line, '$') && '=' !in line && Split(line, ',')[0] == "$r" && |Split(line, ',')| >= 4
    ensures r.WriteRequest? ==> StartsWith(line, '>') && DecodeHex(line) == Success(r.data)
  {
    if IsBlank(line) then Blank
    else if StartsWith(line, '$') then
      if '=' in line then Setting(line[1..])
      else
        var parts := Split(line, ',');
        if parts[0] != "$r" then Invalid(UnknownCommand(line))
        else if |parts| < 4 then Invalid(ExpectedFourParts(line))
        else match ParseInt(line, parts[1], 1)
          case Failure(e) => Invalid(e)
          case Success(size) => match ParseInt(line, parts[2], 2)
            case Failure(e) => Invalid(e)
            case Success(eop) => match ParseInt(line, parts[3], 3)
              case Failure(e) => Invalid(e)
              case Success(toms) => ReadRequest(size, eop, toms)
    else if StartsWith(line, '>') then
      match DecodeHex(line)
      case Success(data) => WriteRequest(data)
      case Failure(e) => Invalid(e)
    else Invalid(UnknownCommand(line))
  }

  // ------------------------------------------------------------ the port

  /** The calls the loop makes on the serial wrapper. */
  datatype PortOp = SetProperty(text: string) | Write(data: seq<byte>) | Read(size: int, eop: int, toms: int)

  /** The wrapper's answer: the bytes read (ignored for other calls), or a fault. */
  datatype Reply = Done(data: seq<byte>) | Fault

  /** The wrapper, as the answer to the last call of every history of calls. */
  type Port = seq<PortOp> -> Reply

  datatype Exit = Clean | Fatal(error: Error)

  /** The process exit code: `Environment.Exit(0)` after the loop, 1 from the
      unhandled-exception handler. */
  function ExitCode(e: Exit): int {
    if e.Clean? then 0 else 1
  }

  /** The lines written, the calls made, and how the process ended. */
  datatype Outcome = Outcome(output: seq<string>, ops: seq<PortOp>, exit: Exit)

  datatype State = State(ops: seq<PortOp>, output: seq<string>)

  datatype Progress = Next(state: State) | Halt(outcome: Outcome)

  /** One call on the wrapper; a read is answered on the console. */
  function Apply(op: PortOp, st: State, port: Port): Progress {
    var h := st.ops + [op];
    match port(h)
    case Fault => Halt(Outcome(st.output, h, Fatal(PortFailure)))
    case Done(data) => Next(State(h, if op.Read? then st.output + [EncodeHex(data)] else st.output))
  }

  /** One pass of `Main`'s loop body. */
  function Step(line: string, st: State, port: Port): Progress {
    Perform(Classify(line), st, port)
  }

  /** What the loop body does for a classified line. */
  function Perform(c: Command, st: State, port: Port): Progress {
    match c
    case Blank => Halt(Outcome(st.output, st.ops, Clean))
    case Invalid(e) => Halt(Outcome(st.output, st.ops, Fatal(e)))
    case Setting(text) => Apply(SetProperty(text), st, port)
    case ReadRequest(size, eop, toms) => Apply(Read(size, eop, toms), st, port)
    case WriteRequest(data) => Apply(Write(data), st, port)
  }

  function Steps(lines: seq<string>, st: State, port: Port): Progress {
    if lines == [] then Next(st)
    else match Step(lines[0], st, port)
      case Halt(o) => Halt(o)
      case Next(st') => Steps(lines[1..], st', port)
  }

  /** The startup arguments, each handed to `SetProperty` as it is. */
  function Configure(args: seq<string>, st: State, port: Port): Progress {
    if args == [] then Next(st)
    else match Apply(SetProperty(args[0]), st, port)
      case Halt(o) => Halt(o)
      case Next(st') => Configure(args[1..], st', port)
  }

  /** Running out of input ends the loop like a blank line. */
  function Finish(p: Progress): Outcome {
    match p
    case Halt(o) => o
    case Next(st) => Outcome(st.output, st.ops, Clean)
  }

  /** A whole run of the process. */
  function Session(args: seq<string>, lines: seq<string>, port: Port): Outcome {
    match Configure(args, State([], []), port)
    case Halt(o) => o
    case Next(st) => Finish(Steps(lines, st, port))
  }

  /** One pass of `Main`'s loop body on the line read. */
  method Handle(line: string, st: State, port: Port) returns (p: Progress)
    ensures p == Step(line, st, port)
  {
    if IsBlank(line) {
      return Halt(Outcome(st.output, st.ops, Clean));
    } else if StartsWith(line, '$') {
      p := HandleCommand(line, st, port);
    } else if StartsWith(line, '>') {
      var bytes := ParseHex(line);
      if bytes.Failure? {
        return Halt(Outcome(st.output, st.ops, Fatal(bytes.error)));
      }
      var ops := st.ops + [Write(bytes.value)];
      if port(ops).Fault? {
        return Halt(Outcome(st.output, ops, Fatal(PortFailure)));
      }
      return Next(State(ops, st.output));
    } else {
      return Halt(Outcome(st.output, st.ops, Fatal(UnknownCommand(line))));
    }
  }

  /** The loop body on a `$` line: a setting, or the `$r` command. */
  method HandleCommand(line: string, st: State, port: Port) returns (p: Progress)
    requires StartsWith(line, '$')
    ensures p == Step(line, st, port)
  {
    if '=' in line {
      var ops := st.ops + [SetProperty(line[1..])];
      if port(ops).Fault? {
        return Halt(Outcome(st.output, ops, Fatal(PortFailure)));
      }
      return Next(State(ops, st.output));
    }
    var parts := Split(line, ',');
    if parts[0] != "$r" {
      return Halt(Outcome(st.output, st.ops, Fatal(UnknownCommand(line))));
    }
    if |parts| < 4 {
      return Halt(Outcome(st.output, st.ops, Fatal(ExpectedFourParts(line))));
    }
    var rSize := ParseInt(line, parts[1], 1);
    if rSize.Failure? {
      return Halt(Outcome(st.output, st.ops, Fatal(rSize.error)));
    }
    var rEop := ParseInt(line, parts[2], 2);
    if rEop.Failure? {
      return Halt(Outcome(st.output, st.ops, Fatal(rEop.error)));
    }
    var rToms := ParseInt(line, parts[3], 3);
    if rToms.Failure? {
      return Halt(Outcome(st.output, st.ops, Fatal(rToms.error)));
    }
    var ops := st.ops + [Read(rSize.value, rEop.value, rToms.value)];
    var reply := port(ops);
    if reply.Fault? {
      return Halt(Outcome(st.output, ops, Fatal(PortFailure)));
    }
    var answer := AnswerHex(reply.data);
    return Next(State(ops, st.output + [answer]));
  }

  /** `Main`: the startup arguments, then one line at a time until a blank line,
      the end of input or an error. */
  method Run(args: seq<string>, lines: seq<string>, port: Port) returns (o: Outcome)
    ensures o == Session(args, lines, port)
  {
    var st := State([], []);
    for i := 0 to |args|
      invariant Configure(args, State([], []), port) == Configure(args[i..], st, port)
    {
      assert args[i..][1..] == args[i + 1..];
      var ops := st.ops + [SetProperty(args[i])];
      if port(ops).Fault? {
        return Outcome(st.output, ops, Fatal(PortFailure));
      }
      st := State(ops, st.output);
    }
    assert args[|args|..] == [];
    var k := 0;
    while k < |lines|
      invariant 0 <= k <= |lines|
      invariant Session(args, lines, port) == Finish(Steps(lines[k..], st, port))
    {
      assert lines[k..][0] == lines[k] && lines[k..][1..] == lines[k + 1..];
      var p := Handle(lines[k], st, port);
      if p.Halt? {
        return p.outcome;
      }
      st := p.state;
      k := k + 1;
    }
    assert lines[k..] == [];
    return Outcome(st.output, st.ops, Clean);
  }

  // ------------------------------------------------------------ classification

  /** The first comma-separated part is exactly `$r`. */
  predicate ReadHead(line: string) {
    line == "$r" || (|line| >= 3 && line[..3] == "$r,")
  }

  lemma ReadHeadOfSplit(line: string)
    ensures Split(line, ',')[0] == "$r" <==> ReadHead(line)
  {
    SplitHead(line, ',');
    if ',' in line {
      var i := IndexOf(line, ',');
      assert forall k :: 0 <= k < i ==> line[k] != ',';
      if Split(line, ',')[0] == "$r" {
        assert i == 2 && line[..3] == line[..2] + [line[2]];
      }
      if |line| >= 3 && line[..3] == "$r," {
        assert line[0] == '$' && line[1] == 'r' && line[2] == ',';
        assert i == 2;
        assert line[..i] == "$r";
      }
    } else if |line| >= 3 {
      assert line[..3][2] == line[2] != ',';
    }
  }

  /** A `$` line with an `=` anywhere is a setting, handed on without the `$`. */
  lemma ClassifySetting(line: string)
    ensures Classify(line).Setting? <==> StartsWith(line, '$') && '=' in line
    ensures Classify(line).Setting? ==> Classify(line).text == line[1..]
  {
  }

  /** A read request is a `$` line without `=`, whose first part is `$r`, with at
      least four parts of which the second, third and fourth parse; further parts
      are ignored. */
  lemma ClassifyRead(line: string)
    ensures Classify(line).ReadRequest? <==>
              StartsWith(line, '$') && '=' !in line && ReadHead(line) &&
              |Split(line, ',')| >= 4 &&
              TryParseInt32(Split(line, ',')[1]).Some? &&
              TryParseInt32(Split(line, ',')[2]).Some? &&
              TryParseInt32(Split(line, ',')[3]).Some?
    ensures Classify(line).ReadRequest? ==>
              var parts := Split(line, ',');
              Classify(line) == ReadRequest(TryParseInt32(parts[1]).value,
                                            TryParseInt32(parts[2]).value,
                                            TryParseInt32(parts[3]).value)
  {
    ReadHeadOfSplit(line);
  }

  /** The errors of a `$r` line: too few parts, or the first parameter that does
      not parse, named by its position. */
  lemma ClassifyReadErrors(line: string)
    requires StartsWith(line, '$') && '=' !in line && ReadHead(line)
    ensures |Split(line, ',')| < 4 ==> Classify(line) == Invalid(ExpectedFourParts(line))
    ensures |Split(line, ',')| >= 4 ==>
              forall j :: 1 <= j <= 3 && TryParseInt32(Split(line, ',')[j]).None? &&
                          (forall k :: 1 <= k < j ==> TryParseInt32(Split(line, ',')[k]).Some?) ==>
                Classify(line) == Invalid(InvalidInt(j, line))
  {
    ReadHeadOfSplit(line);
  }

  /** A `>` line is a write of the bytes it decodes to, or fails as the decoding does. */
  lemma ClassifyWrite(line: string)
    ensures Classify(line).WriteRequest? <==> StartsWith(line, '>') && DecodeHex(line).Success?
    ensures Classify(line).WriteRequest? ==> Classify(line).data == DecodeHex(line).value
    ensures StartsWith(line, '>') && DecodeHex(line).Failure? ==>
              Classify(line) == Invalid(DecodeHex(line).error)
  {
  }

  /** The unknown commands are exactly the lines that are not blank and start with
      neither marker, and the `$` lines without `=` whose first part is not `$r`. */
  lemma ClassifyUnknown(line: string)
    ensures !IsBlank(line) && !StartsWith(line, '$') && !StartsWith(line, '>') ==>
              Classify(line) == Invalid(UnknownCommand(line))
    ensures StartsWith(line, '$') && '=' !in line && !ReadHead(line) ==>
              Classify(line) == Invalid(UnknownCommand(line))
    ensures Classify(line) == Invalid(UnknownCommand(line)) ==>
              (!IsBlank(line) && !StartsWith(line, '$') && !StartsWith(line, '>')) ||
              (StartsWith(line, '$') && '=' !in line && !ReadHead(line))
  {
    ReadHeadOfSplit(line);
    if StartsWith(line, '>') && |line| % 2 == 1 {
      DecodeHexShape(line);
    }
  }

  /** The `$r` line a client writes for a read. */
  function ReadLine(size: int, eop: int, toms: int): string {
    "$r," + Decimal(size) + "," + Decimal(eop) + "," + Decimal(toms)
  }

  /** The four parts of a read line whose parameters have no comma. */
  lemma ReadLineParts(a: string, b: string, c: string)
    requires ',' !in a && ',' !in b && ',' !in c
    ensures Split("$r," + a + "," + b + "," + c, ',') == ["$r", a, b, c]
  {
    var t1 := a + [','] + (b + [','] + c);
    ReadLineNested(a, b, c);
    assert ',' !in "$r";
    SplitAfter("$r", ',', t1);
    ThreeParts(a, b, c);
  }

  lemma ReadLineNested(a: string, b: string, c: string)
    ensures "$r," + a + "," + b + "," + c == "$r" + [','] + (a + [','] + (b + [','] + c))
  {
    assert "$r," == "$r" + [','];
    assert "," == [','];
  }

  lemma ThreeParts(a: string, b: string, c: string)
    requires ',' !in a && ',' !in b && ',' !in c
    ensures Split(a + [','] + (b + [','] + c), ',') == [a, b, c]
  {
    SplitHead(c, ',');
    SplitAfter(b, ',', c);
    SplitAfter(a, ',', b + [','] + c);
  }

  /** No `ToString()` of an integer has a comma or an `=` in it. */
  lemma DecimalNoSeparators(n: int)
    ensures ',' !in Decimal(n) && '=' !in Decimal(n)
  {
    DecimalChars(n);
  }

  /** A read line written with `ToString()` parameters asks for exactly that read. */
  lemma ClassifyReadLine(size: int, eop: int, toms: int)
    requires Int32Min <= size <= Int32Max && Int32Min <= eop <= Int32Max && Int32Min <= toms <= Int32Max
    ensures Classify(ReadLine(size, eop, toms)) == ReadRequest(size, eop, toms)
  {
    var d1, d2, d3 := Decimal(size), Decimal(eop), Decimal(toms);
    DecimalNoSeparators(size);
    DecimalNoSeparators(eop);
    DecimalNoSeparators(toms);
    ReadLineParts(d1, d2, d3);
    ParseDecimal(size);
    ParseDecimal(eop);
    ParseDecimal(toms);
    ReadLineShape(d1, d2, d3);
    ClassifyFourParts(ReadLine(size, eop, toms), d1, d2, d3);
  }

  lemma ReadLineShape(a: string, b: string, c: string)
    requires '=' !in a && '=' !in b && '=' !in c
    ensures var line := "$r," + a + "," + b + "," + c;
              StartsWith(line, '$') && '=' !in line
  {
    var line := "$r," + a + "," + b + "," + c;
    assert line == "$r," + (a + ("," + (b + ("," + c))));
  }

  lemma ClassifyFourParts(line: string, a: string, b: string, c: string)
    requires StartsWith(line, '$') && '=' !in line
    requires Split(line, ',') == ["$r", a, b, c]
    requires TryParseInt32(a).Some? && TryParseInt32(b).Some? && TryParseInt32(c).Some?
    ensures Classify(line) == ReadRequest(TryParseInt32(a).value, TryParseInt32(b).value, TryParseInt32(c).value)
  {
  }

  /** A write line made of a byte string's `X2` pairs asks to write exactly those bytes. */
  lemma ClassifyWriteLine(data: seq<byte>)
    ensures Classify(">" + HexPairs(data)) == WriteRequest(data)
  {
    var line, answer := ">" + HexPairs(data), EncodeHex(data);
    EncodeHexShape(data);
    assert line[1..] == answer[1..];
    DecodeHexIgnoresMarker(answer, line);
    HexRoundTrip(data);
  }

  // ------------------------------------------------------------ sessions

  /** Whether the settings and every line of `lines` were taken without the loop stopping. */
  predicate Reached(args: seq<string>, lines: seq<string>, port: Port) {
    Configure(args, State([], []), port).Next? &&
    Steps(lines, Configure(args, State([], []), port).state, port).Next?
  }

  lemma {:induction false} StepsAppend(pre: seq<string>, post: seq<string>, st: State, port: Port)
    ensures Steps(pre + post, st, port) ==
              match Steps(pre, st, port)
              case Halt(o) => Halt(o)
              case Next(s) => Steps(post, s, port)
    decreases |pre|
  {
    if pre == [] {
      assert pre + post == post;
    } else {
      assert (pre + post)[0] == pre[0] && (pre + post)[1..] == pre[1..] + post;
      match Step(pre[0], st, port)
      case Halt(o) =>
      case Next(s) => StepsAppend(pre[1..], post, s, port);
    }
  }

  /** Once the loop has stopped, the lines after it make no difference. */
  lemma SessionPrefix(args: seq<string>, pre: seq<string>, post: seq<string>, port: Port)
    requires !Reached(args, pre, port)
    ensures Session(args, pre + post, port) == Session(args, pre, port)
  {
    if Configure(args, State([], []), port).Next? {
      StepsAppend(pre, post, Configure(args, State([], []), port).state, port);
    }
  }

  /** Running out of input ends the session cleanly, with exit code 0: what was
      written and called so far stands. */
  lemma EndOfInputClean(args: seq<string>, lines: seq<string>, port: Port)
    ensures Reached(args, lines, port) ==>
              var st := Steps(lines, Configure(args, State([], []), port).state, port).state;
              Session(args, lines, port) == Outcome(st.output, st.ops, Clean) &&
              ExitCode(Session(args, lines, port).exit) == 0
  {
  }

  /** A blank line ends the session cleanly, as the end of input does: once the
      loop gets to it, with exit code 0 and with no output or call for it or for
      any later line. */
  lemma BlankEndsSession(args: seq<string>, pre: seq<string>, blank: string, post: seq<string>, port: Port)
    requires IsBlank(blank)
    ensures Session(args, pre + [blank] + post, port) == Session(args, pre, port)
    ensures Reached(args, pre, port) ==>
              var st := Steps(pre, Configure(args, State([], []), port).state, port).state;
              Session(args, pre + [blank] + post, port) == Outcome(st.output, st.ops, Clean) &&
              ExitCode(Session(args, pre + [blank] + post, port).exit) == 0
  {
    assert pre + [blank] + post == pre + ([blank] + post);
    if Configure(args, State([], []), port).Next? {
      var st := Configure(args, State([], []), port).state;
      StepsAppend(pre, [blank] + post, st, port);
      assert ([blank] + post)[0] == blank;
    }
  }

  /** A line that does not classify ends the session with its error and exit code
      1, having done nothing for that line, if the loop gets to it. */
  lemma InvalidEndsSession(args: seq<string>, pre: seq<string>, bad: string, post: seq<string>, port: Port)
    requires Classify(bad).Invalid?
    ensures Reached(args, pre, port) ==>
              var before := Session(args, pre, port);
              Session(args, pre + [bad] + post, port) ==
                Outcome(before.output, before.ops, Fatal(Classify(bad).error)) &&
              ExitCode(Session(args, pre + [bad] + post, port).exit) == 1
    ensures !Reached(args, pre, port) ==>
              Session(args, pre + [bad] + post, port) == Session(args, pre, port)
  {
    assert pre + [bad] + post == pre + ([bad] + post);
    if Configure(args, State([], []), port).Next? {
      var st := Configure(args, State([], []), port).state;
      StepsAppend(pre, [bad] + post, st, port);
      assert ([bad] + post)[0] == bad;
    }
  }

  /** The loop state once the startup arguments and the lines `pre` are done. */
  function StateAfter(args: seq<string>, pre: seq<string>, port: Port): State
    requires Reached(args, pre, port)
  {
    Steps(pre, Configure(args, State([], []), port).state, port).state
  }

  /** A line the loop gets to takes one step from the state the earlier lines
      left, and the session goes on from there. */
  lemma SessionStep(args: seq<string>, pre: seq<string>, line: string, post: seq<string>, port: Port)
    requires Reached(args, pre, port)
    ensures Session(args, pre + [line] + post, port) ==
              var p := Step(line, StateAfter(args, pre, port), port);
              if p.Halt? then p.outcome else Finish(Steps(post, p.state, port))
  {
    var st := Configure(args, State([], []), port).state;
    assert pre + [line] + post == pre + ([line] + post);
    StepsAppend(pre, [line] + post, st, port);
    assert ([line] + post)[0] == line && ([line] + post)[1..] == post;
  }

  /** A `$` line with an `=` makes one `SetProperty` call with the line less its
      `$`, and writes nothing; a fault of the wrapper ends the session. */
  lemma StepSetting(line: string, st: State, port: Port)
    requires StartsWith(line, '$') && '=' in line
    ensures var h := st.ops + [SetProperty(line[1..])];
            Step(line, st, port) ==
              if port(h).Fault? then Halt(Outcome(st.output, h, Fatal(PortFailure))) else Next(State(h, st.output))
  {
  }

  /** A read line makes one `Read` call whose size, terminator and time-out are
      its second, third and fourth parts, in that order, and writes exactly the
      response line for the bytes the wrapper returns. */
  lemma StepRead(line: string, st: State, port: Port)
    requires Classify(line).ReadRequest?
    ensures var parts := Split(line, ',');
            var h := st.ops + [Read(TryParseInt32(parts[1]).value, TryParseInt32(parts[2]).value, TryParseInt32(parts[3]).value)];
            Step(line, st, port) ==
              match port(h)
              case Fault => Halt(Outcome(st.output, h, Fatal(PortFailure)))
              case Done(data) => Next(State(h, st.output + [EncodeHex(data)]))
  {
    ClassifyRead(line);
  }

  /** The line `$r,size,eop,toms` calls `Read(size, eop, toms)`. */
  lemma StepReadLine(size: int, eop: int, toms: int, st: State, port: Port)
    requires Int32Min <= size <= Int32Max && Int32Min <= eop <= Int32Max && Int32Min <= toms <= Int32Max
    ensures var h := st.ops + [Read(size, eop, toms)];
            Step(ReadLine(size, eop, toms), st, port) ==
              match port(h)
              case Fault => Halt(Outcome(st.output, h, Fatal(PortFailure)))
              case Done(data) => Next(State(h, st.output + [EncodeHex(data)]))
  {
    ClassifyReadLine(size, eop, toms);
  }

  /** A `>` line that decodes makes one `Write` call with the bytes it decodes to,
      and writes nothing. */
  lemma StepWrite(line: string, st: State, port: Port)
    requires StartsWith(line, '>') && DecodeHex(line).Success?
    ensures var h := st.ops + [Write(DecodeHex(line).value)];
            Step(line, st, port) ==
              if port(h).Fault? then Halt(Outcome(st.output, h, Fatal(PortFailure))) else Next(State(h, st.output))
  {
  }

  /** The line `>` followed by the `X2` pairs of `data` calls `Write(data)`. */
  lemma StepWriteLine(data: seq<byte>, st: State, port: Port)
    ensures var h := st.ops + [Write(data)];
            Step(">" + HexPairs(data), st, port) ==
              if port(h).Fault? then Halt(Outcome(st.output, h, Fatal(PortFailure))) else Next(State(h, st.output))
  {
    ClassifyWriteLine(data);
  }

  /** Only an answered read writes to the console, one line; nothing else a line
      does, and no way of stopping, writes anything. */
  lemma StepOutput(line: string, st: State, port: Port)
    ensures Step(line, st, port).Halt? ==> Step(line, st, port).outcome.output == st.output
    ensures Step(line, st, port).Next? && !Classify(line).ReadRequest? ==>
              Step(line, st, port).state.output == st.output
    ensures Step(line, st, port).Next? && Classify(line).ReadRequest? ==>
              |Step(line, st, port).state.output| == |st.output| + 1 &&
              Step(line, st, port).state.output[..|st.output|] == st.output
  {
  }

  /** The settings calls for the startup arguments, in order. */
  function Settings(args: seq<string>): (ops: seq<PortOp>)
    ensures |ops| == |args|
  {
    if args == [] then [] else [SetProperty(args[0])] + Settings(args[1..])
  }

  /** Startup that gets through hands every argument to `SetProperty` in order and
      writes nothing. */
  lemma {:induction false} ConfigureDone(args: seq<string>, st: State, port: Port)
    requires Configure(args, st, port).Next?
    ensures Configure(args, st, port).state == State(st.ops + Settings(args), st.output)
    decreases |args|
  {
    if args == [] {
      assert st.ops + Settings(args) == st.ops;
    } else {
      var h := st.ops + [SetProperty(args[0])];
      assert Configure(args, st, port) == Configure(args[1..], State(h, st.output), port);
      ConfigureDone(args[1..], State(h, st.output), port);
      assert Settings(args) == [SetProperty(args[0])] + Settings(args[1..]);
      assert st.ops + Settings(args) == h + Settings(args[1..]);
    }
  }

  /** The first `j` settings calls are the first argument's, then the first
      `j - 1` of the rest. */
  lemma SettingsPrefix(ops: seq<PortOp>, args: seq<string>, j: nat)
    requires 0 < j <= |args|
    ensures ops + Settings(args)[..j] == ops + [SetProperty(args[0])] + Settings(args[1..])[..j - 1]
  {
    var head, rest := [SetProperty(args[0])], Settings(args[1..]);
    assert Settings(args) == head + rest;
    assert (head + rest)[..j] == head + rest[..j - 1];
    assert ops + (head + rest[..j - 1]) == ops + head + rest[..j - 1];
  }

  /** Startup that stops does so at the first call the wrapper faults on, having
      handed on the arguments up to that one, and writes nothing. */
  lemma {:induction false} ConfigureFault(args: seq<string>, st: State, port: Port)
    requires Configure(args, st, port).Halt?
    ensures var o := Configure(args, st, port).outcome;
              o.output == st.output && o.exit == Fatal(PortFailure) &&
              |st.ops| < |o.ops| <= |st.ops| + |args| &&
              o.ops == st.ops + Settings(args)[..|o.ops| - |st.ops|] &&
              port(o.ops).Fault? &&
              forall j :: 0 < j < |o.ops| - |st.ops| ==> port(st.ops + Settings(args)[..j]).Done?
    decreases |args|
  {
    var h := st.ops + [SetProperty(args[0])];
    assert Settings(args) == [SetProperty(args[0])] + Settings(args[1..]);
    if port(h).Done? {
      assert Configure(args, st, port) == Configure(args[1..], State(h, st.output), port);
      ConfigureFault(args[1..], State(h, st.output), port);
      var o := Configure(args, st, port).outcome;
      var n := |o.ops| - |h|;
      SettingsPrefix(st.ops, args, n + 1);
      forall j | 0 < j < |o.ops| - |st.ops|
        ensures port(st.ops + Settings(args)[..j]).Done?
      {
        SettingsPrefix(st.ops, args, j);
      }
    } else {
      assert Settings(args)[..1] == [SetProperty(args[0])];
    }
  }

  /** The console output a history of calls calls for: one response line per read,
      in order, for each read the wrapper answered. */
  function Answers(ops: seq<PortOp>, port: Port): seq<string> {
    if ops == [] then []
    else
      Answers(ops[..|ops| - 1], port) +
      (if ops[|ops| - 1].Read? && port(ops).Done? then [EncodeHex(port(ops).data)] else [])
  }

  predicate Consistent(st: State, port: Port) {
    st.output == Answers(st.ops, port)
  }

  lemma ApplyAnswers(op: PortOp, st: State, port: Port)
    requires Consistent(st, port)
    ensures Apply(op, st, port).Next? ==> Consistent(Apply(op, st, port).state, port)
    ensures Apply(op, st, port).Halt? ==>
              Apply(op, st, port).outcome.output == Answers(Apply(op, st, port).outcome.ops, port)
  {
    var h := st.ops + [op];
    assert h[..|h| - 1] == st.ops;
  }

  lemma PerformAnswers(c: Command, st: State, port: Port)
    requires Consistent(st, port)
    ensures Perform(c, st, port).Next? ==> Consistent(Perform(c, st, port).state, port)
    ensures Perform(c, st, port).Halt? ==>
              Perform(c, st, port).outcome.output == Answers(Perform(c, st, port).outcome.ops, port)
  {
    match c
    case Blank =>
    case Invalid(e) =>
    case Setting(text) => ApplyAnswers(SetProperty(text), st, port);
    case ReadRequest(size, eop, toms) => ApplyAnswers(Read(size, eop, toms), st, port);
    case WriteRequest(data) => ApplyAnswers(Write(data), st, port);
  }

  lemma {:induction false} StepsAnswers(lines: seq<string>, st: State, port: Port)
    requires Consistent(st, port)
    ensures Finish(Steps(lines, st, port)).output == Answers(Finish(Steps(lines, st, port)).ops, port)
    decreases |lines|
  {
    if lines != [] {
      PerformAnswers(Classify(lines[0]), st, port);
      if Step(lines[0], st, port).Next? {
        StepsAnswers(lines[1..], Step(lines[0], st, port).state, port);
      }
    }
  }

  lemma {:induction false} ConfigureAnswers(args: seq<string>, st: State, port: Port)
    requires Consistent(st, port)
    ensures Finish(Configure(args, st, port)).output == Answers(Finish(Configure(args, st, port)).ops, port)
    ensures Configure(args, st, port).Next? ==> Consistent(Configure(args, st, port).state, port)
    decreases |args|
  {
    if args != [] {
      ApplyAnswers(SetProperty(args[0]), st, port);
      if Apply(SetProperty(args[0]), st, port).Next? {
        ConfigureAnswers(args[1..], Apply(SetProperty(args[0]), st, port).state, port);
      }
    }
  }

  /** The console carries exactly the answers to the session's reads, one line per
      read the wrapper answered, in the order of the reads, whatever else the
      session did and however it ended. */
  lemma SessionAnswers(args: seq<string>, lines: seq<string>, port: Port)
    ensures Session(args, lines, port).output == Answers(Session(args, lines, port).ops, port)
  {
    ConfigureAnswers(args, State([], []), port);
    if Configure(args, State([], []), port).Next? {
      StepsAnswers(lines, Configure(args, State([], []), port).state, port);
    }
  }

  /** Every answer line is a response a client decodes back to the bytes it renders. */
  lemma {:induction false} AnswersDecode(ops: seq<PortOp>, port: Port)
    ensures forall i :: 0 <= i < |Answers(ops, port)| ==>
              DecodeHex(Answers(ops, port)[i]).Success? &&
              Answers(ops, port)[i] == EncodeHex(DecodeHex(Answers(ops, port)[i]).value)
    decreases |ops|
  {
    if ops != [] {
      AnswersDecode(ops[..|ops| - 1], port);
      if ops[|ops| - 1].Read? && port(ops).Done? {
        HexRoundTrip(port(ops).data);
      }
    }
  }
}
