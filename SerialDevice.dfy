/** The buffered read engine of `SerialDevice`: a FIFO byte queue that the
    background reader fills chunk by chunk, drained one byte at a time by `Read`
    under a size limit, a terminator byte and a rolling deadline.

    The clock and the concurrently running background reader are not part of the
    model; `Read` is given them as a schedule. The clock reading taken when the call
    starts is `start`, and `polls[k]` describes iteration `k` of the loop: the bytes
    the background reader enqueued since the previous iteration, and the clock
    reading the iteration takes (where the queue is found empty, or where the
    deadline is reset). Once the schedule is used up no more bytes arrive and the
    clock has run past any deadline, so a read always ends: it ends once the flow of
    bytes stops for longer than its timeout. */
module Device {
  import opened Common

  datatype Poll = Poll(arrived: seq<byte>, now: int)

  /** The rule that ended a read. */
  datatype Stop = Terminator | SizeReached | Timeout

  /** What one `Read` call does: the bytes it returns, the queue it leaves, the
      number of loop iterations it ran, the deadline in force when it stopped and
      why it stopped. */
  datatype ReadOutcome = ReadOutcome(result: seq<byte>, rest: seq<byte>, steps: nat, deadline: int, reason: Stop)

  function Max(a: int, b: int): int {
    if a < b then b else a
  }

  /** The read loop from iteration `k` on, with `queue` the bytes queued, `acc`
      the bytes collected so far and `dl` the deadline. */
  function ReadLoop(size: int, eop: int, toms: int, polls: seq<Poll>,
                    queue: seq<byte>, acc: seq<byte>, dl: int, k: nat): ReadOutcome
    decreases if k < |polls| then |polls| - k else 0, |queue|
  {
    var q := if k < |polls| then queue + polls[k].arrived else queue;
    if q == [] then
      if k >= |polls| || polls[k].now >= dl then ReadOutcome(acc, [], k + 1, dl, Timeout)
      else ReadLoop(size, eop, toms, polls, q, acc, dl, k + 1)
    else
      var acc' := acc + [q[0]];
      if eop >= 0 && q[0] == eop then ReadOutcome(acc', q[1..], k + 1, dl, Terminator)
      else if size >= 0 && |acc'| >= size then ReadOutcome(acc', q[1..], k + 1, dl, SizeReached)
      else ReadLoop(size, eop, toms, polls, q[1..], acc', if k < |polls| then polls[k].now + toms else dl, k + 1)
  }

  /** A whole `Read(size, eop, toms)` call on the queue `queue`: an empty
      accumulator and the deadline `start + toms`. */
  function ReadRun(size: int, eop: int, toms: int, start: int, polls: seq<Poll>, queue: seq<byte>): ReadOutcome {
    ReadLoop(size, eop, toms, polls, queue, [], start + toms, 0)
  }

  /** The bytes delivered at iterations `k` up to (not including) `n`. */
  function Arrived(polls: seq<Poll>, k: nat, n: nat): seq<byte>
    decreases n - k
  {
    if k >= n || k >= |polls| then [] else polls[k].arrived + Arrived(polls, k + 1, n)
  }

  /** The clock never goes back, from iteration `k` on. */
  ghost predicate MonotoneFrom(polls: seq<Poll>, k: nat) {
    forall i, j :: k <= i <= j < |polls| ==> polls[i].now <= polls[j].now
  }

  // When the read is not stopped by a size or a terminator, which iterations take a
  // byte depends only on how many bytes there are, one byte per iteration at most.
  // This count model says which iterations take one, without any clock.

  /** The bytes iteration `k` can take from, with `n` queued before it. */
  function Available(n: nat, polls: seq<Poll>, k: int): nat {
    n + if 0 <= k < |polls| then |polls[k].arrived| else 0
  }

  /** The bytes still queued after iteration `k`: it took one if there was one. */
  function Drain(n: nat, polls: seq<Poll>, k: nat): nat {
    if Available(n, polls, k) > 0 then Available(n, polls, k) - 1 else 0
  }

  /** The bytes queued when iteration `i` starts, with `n` queued when iteration
      `k` started. */
  function Backlog(n: nat, polls: seq<Poll>, k: nat, i: int): nat
    decreases i - k
  {
    if i <= k then n else Backlog(Drain(n, polls, k), polls, k + 1, i)
  }

  /** Iteration `i` finds a byte to take. */
  predicate Takes(n: nat, polls: seq<Poll>, k: nat, i: int) {
    Available(Backlog(n, polls, k, i), polls, i) > 0
  }

  /** The last iteration from `k` up to (not including) `i` that takes a byte, or
      -1 when none does. */
  function LastTake(n: nat, polls: seq<Poll>, k: nat, i: int): (j: int)
    ensures j == -1 || k <= j < i
    decreases i - k
  {
    if i <= k then -1
    else
      var j := LastTake(Drain(n, polls, k), polls, k + 1, i);
      if j != -1 then j else if Available(n, polls, k) > 0 then k else -1
  }

  /** Past iteration `k`, the count model goes on from what `k` left queued. */
  lemma TakesLater(n: nat, polls: seq<Poll>, k: nat, i: int)
    ensures Takes(n, polls, k, k) <==> Available(n, polls, k) > 0
    ensures forall m :: k < m < i ==> (Takes(n, polls, k, m) <==> Takes(Drain(n, polls, k), polls, k + 1, m))
  {
    forall m | k < m < i
      ensures Backlog(n, polls, k, m) == Backlog(Drain(n, polls, k), polls, k + 1, m)
    {
    }
  }

  /** `LastTake` is an iteration that takes a byte, and no later one before `i` does. */
  lemma {:induction false} LastTakeIsLast(n: nat, polls: seq<Poll>, k: nat, i: int)
    ensures var j := LastTake(n, polls, k, i);
            (j == -1 || (k <= j < i && Takes(n, polls, k, j))) &&
            (forall m :: k <= m < i && j < m ==> !Takes(n, polls, k, m))
    decreases i - k
  {
    if i > k {
      TakesLater(n, polls, k, i);
      LastTakeIsLast(Drain(n, polls, k), polls, k + 1, i);
    }
  }

  /** The deadline in force at iteration `i` by the rolling-deadline rule: `dl`, the
      one in force at iteration `k`, until an iteration takes a byte, and `toms` after
      the clock reading of the last one that did from then on. */
  function DeadlineAt(n: nat, polls: seq<Poll>, k: nat, i: int, dl: int, toms: int): int
    requires i <= |polls|
  {
    var j := LastTake(n, polls, k, i);
    if j == -1 then dl else polls[j].now + toms
  }

  lemma DeadlineStep(n: nat, polls: seq<Poll>, k: nat, i: int, dl: int, toms: int)
    requires k < i <= |polls|
    ensures DeadlineAt(n, polls, k, i, dl, toms) ==
              DeadlineAt(Drain(n, polls, k), polls, k + 1, i, if Available(n, polls, k) > 0 then polls[k].now + toms else dl, toms)
  {
    CountStep(n, polls, k, i);
  }

  /** The clock reading at the last iteration before `i` that took a byte, or the
      reading taken when the call started if none did. */
  function LastByteClock(n: nat, polls: seq<Poll>, start: int, i: int): int
    requires i <= |polls|
  {
    var j := LastTake(n, polls, 0, i);
    if j == -1 then start else polls[j].now
  }

  class SerialDevice {
    /** Bytes received and not yet read. */
    var queue: seq<byte>
    /** The accumulator of the current `Read`. */
    var list: seq<byte>
    /** The scratch buffer each asynchronous read of the port fills. */
    const buffer: array<byte>
    /** Everything written to the port, in order. */
    var sent: seq<byte>

    /** The buffers start empty; opening the port is not modelled. */
    constructor ()
      ensures queue == [] && list == [] && sent == []
      ensures fresh(buffer) && buffer.Length == 256
    {
      buffer := new byte[256];
      queue, list, sent := [], [], [];
    }

    /** `-1` on an empty queue, and otherwise the head of the queue, removed. */
    method ReadByte() returns (b: int)
      modifies this`queue
      ensures old(queue) == [] ==> b == -1 && queue == []
      ensures old(queue) != [] ==> b == old(queue)[0] && queue == old(queue)[1..]
    {
      if |queue| == 0 {
        return -1;
      }
      b := queue[0];
      queue := queue[1..];
    }

    /** The completion of an asynchronous read of `count` bytes into `buffer`:
        they are enqueued in order and the next read is issued (`rearm`); a count
        of zero means the port was closed, and nothing is enqueued or issued. */
    method ReadCallback(count: nat) returns (rearm: bool)
      requires count <= buffer.Length
      modifies this`queue
      ensures queue == old(queue) + buffer[..count]
      ensures rearm <==> count > 0
    {
      rearm := false;
      if count > 0 {
        Enqueue(buffer[..count]);
        rearm := true;
      }
    }

    /** The bytes of a completed read go to the back of the queue one by one. */
    method Enqueue(chunk: seq<byte>)
      modifies this`queue
      ensures queue == old(queue) + chunk
    {
      for i := 0 to |chunk|
        invariant queue == old(queue) + chunk[..i]
      {
        assert chunk[..i + 1] == chunk[..i] + [chunk[i]];
        queue := queue + [chunk[i]];
      }
      assert chunk[..|chunk|] == chunk;
    }

    /** The bytes go to the port as they are. */
    method Write(data: seq<byte>)
      modifies this`sent
      ensures sent == old(sent) + data
    {
      sent := sent + data;
    }

    /** `Read(size, eop, toms)`. */
    method Read(size: int, eop: int, toms: int, start: int, polls: seq<Poll>) returns (data: seq<byte>)
      modifies this`queue, this`list
      ensures data == list
      ensures data == ReadRun(size, eop, toms, start, polls, old(queue)).result
      ensures queue == ReadRun(size, eop, toms, start, polls, old(queue)).rest
    {
      ghost var target := ReadRun(size, eop, toms, start, polls, queue);
      list := [];
      // the bytes taken so far; nothing reads `list` before the call returns
      var acc: seq<byte> := [];
      var dl := start + toms;
      var k: nat := 0;
      while true
        invariant ReadLoop(size, eop, toms, polls, queue, acc, dl, k) == target
        decreases if k < |polls| then |polls| - k else 0, |queue|
      {
        ghost var before := queue;
        // what the background reader enqueued since the previous iteration
        // (the effect of its `Enqueue` calls)
        if k < |polls| {
          queue := queue + polls[k].arrived;
        }
        ghost var q := queue;
        var b := ReadByte();
        if b == -1 {
          ReadLoopIdle(size, eop, toms, polls, before, acc, dl, k);
          // `toms = 0` returns at once with what is there
          if k >= |polls| || polls[k].now >= dl {
            break;
          }
        } else {
          ReadLoopTake(size, eop, toms, polls, q, before, acc, dl, k);
          acc := acc + [b];
          if eop >= 0 && b == eop {
            break;
          }
          if size >= 0 && |acc| >= size {
            break;
          }
          if k < |polls| {
            dl := polls[k].now + toms;
          }
        }
        k := k + 1;
      }
      list := acc;
      data := acc;
    }
  }

  // ------------------------------------------------------------ the read policy

  /** An iteration that finds the queue empty either times out or waits. */
  lemma ReadLoopIdle(size: int, eop: int, toms: int, polls: seq<Poll>,
                     queue: seq<byte>, acc: seq<byte>, dl: int, k: nat)
    requires (if k < |polls| then queue + polls[k].arrived else queue) == []
    ensures ReadLoop(size, eop, toms, polls, queue, acc, dl, k) ==
              if k >= |polls| || polls[k].now >= dl then ReadOutcome(acc, [], k + 1, dl, Timeout)
              else ReadLoop(size, eop, toms, polls, [], acc, dl, k + 1)
  {
  }

  /** An iteration that finds a byte `q[0]` takes it, then stops on the terminator
      or the size, or goes on with a fresh deadline. */
  lemma ReadLoopTake(size: int, eop: int, toms: int, polls: seq<Poll>, q: seq<byte>,
                     queue: seq<byte>, acc: seq<byte>, dl: int, k: nat)
    requires q == (if k < |polls| then queue + polls[k].arrived else queue) && q != []
    ensures ReadLoop(size, eop, toms, polls, queue, acc, dl, k) ==
              if eop >= 0 && q[0] == eop then ReadOutcome(acc + [q[0]], q[1..], k + 1, dl, Terminator)
              else if size >= 0 && |acc| + 1 >= size then ReadOutcome(acc + [q[0]], q[1..], k + 1, dl, SizeReached)
              else ReadLoop(size, eop, toms, polls, q[1..], acc + [q[0]], if k < |polls| then polls[k].now + toms else dl, k + 1)
  {
  }

  lemma {:induction false} ReadLoopSteps(size: int, eop: int, toms: int, polls: seq<Poll>,
                                         queue: seq<byte>, acc: seq<byte>, dl: int, k: nat)
    ensures ReadLoop(size, eop, toms, polls, queue, acc, dl, k).steps > k
    decreases if k < |polls| then |polls| - k else 0, |queue|
  {
    var q := if k < |polls| then queue + polls[k].arrived else queue;
    if q == [] {
      if !(k >= |polls| || polls[k].now >= dl) {
        ReadLoopSteps(size, eop, toms, polls, q, acc, dl, k + 1);
      }
    } else if !(eop >= 0 && q[0] == eop) && !(size >= 0 && |acc| + 1 >= size) {
      ReadLoopSteps(size, eop, toms, polls, q[1..], acc + [q[0]], if k < |polls| then polls[k].now + toms else dl, k + 1);
    }
  }

  /** The bytes of iterations `k` to `n` are those of `k` to `m`, then those of
      `m` to `n`. */
  lemma {:induction false} ArrivedSplit(polls: seq<Poll>, k: nat, m: nat, n: nat)
    requires k <= m <= n
    ensures Arrived(polls, k, n) == Arrived(polls, k, m) + Arrived(polls, m, n)
    decreases m - k
  {
    if k < m {
      ArrivedStep(polls, k, n);
      ArrivedStep(polls, k, m);
      ArrivedSplit(polls, k + 1, m, n);
    }
  }

  lemma ArrivedStep(polls: seq<Poll>, k: nat, n: nat)
    requires k < n
    ensures Arrived(polls, k, n) == (if k < |polls| then polls[k].arrived else []) + Arrived(polls, k + 1, n)
  {
    if k >= |polls| {
      assert Arrived(polls, k + 1, n) == [];
    }
  }

  /** No byte is lost, duplicated or reordered: what the loop returns followed by
      what it leaves queued is what was collected, then what was queued, then what
      arrived while it ran. */
  lemma {:induction false} ReadLoopConserves(size: int, eop: int, toms: int, polls: seq<Poll>,
                                             queue: seq<byte>, acc: seq<byte>, dl: int, k: nat)
    ensures var o := ReadLoop(size, eop, toms, polls, queue, acc, dl, k);
            o.result + o.rest == acc + queue + Arrived(polls, k, o.steps)
    decreases if k < |polls| then |polls| - k else 0, |queue|
  {
    var o := ReadLoop(size, eop, toms, polls, queue, acc, dl, k);
    var arrived := if k < |polls| then polls[k].arrived else [];
    var q := if k < |polls| then queue + polls[k].arrived else queue;
    assert q == queue + arrived;
    ReadLoopSteps(size, eop, toms, polls, queue, acc, dl, k);
    ArrivedStep(polls, k, o.steps);
    var later := Arrived(polls, k + 1, o.steps);
    assert acc + queue + Arrived(polls, k, o.steps) == acc + q + later;
    if q == [] {
      if !(k >= |polls| || polls[k].now >= dl) {
        assert o == ReadLoop(size, eop, toms, polls, q, acc, dl, k + 1);
        ReadLoopConserves(size, eop, toms, polls, q, acc, dl, k + 1);
      } else {
        assert o == ReadOutcome(acc, [], k + 1, dl, Timeout);
      }
    } else {
      var acc' := acc + [q[0]];
      assert acc + q == acc' + q[1..];
      if !(eop >= 0 && q[0] == eop) && !(size >= 0 && |acc'| >= size) {
        var dl' := if k < |polls| then polls[k].now + toms else dl;
        assert o == ReadLoop(size, eop, toms, polls, q[1..], acc', dl', k + 1);
        ReadLoopConserves(size, eop, toms, polls, q[1..], acc', dl', k + 1);
      } else {
        assert o.result == acc' && o.rest == q[1..] && o.steps == k + 1;
      }
    }
  }

  /** The bytes a read returns are a prefix, in FIFO order, of the queue followed
      by what arrives during the call, and the queue afterwards is the rest of
      it; in particular no byte of an earlier call appears in the result. */
  lemma ReadIsFifo(size: int, eop: int, toms: int, start: int, polls: seq<Poll>, queue: seq<byte>)
    ensures var o := ReadRun(size, eop, toms, start, polls, queue);
            o.result + o.rest == queue + Arrived(polls, 0, o.steps)
  {
    ReadLoopConserves(size, eop, toms, polls, queue, [], start + toms, 0);
  }

  /** No byte of `s` is the terminator. */
  predicate EopFree(s: seq<byte>, eop: int) {
    forall i :: 0 <= i < |s| ==> s[i] != eop
  }

  lemma {:induction false} ReadLoopTerminator(size: int, eop: int, toms: int, polls: seq<Poll>,
                                              queue: seq<byte>, acc: seq<byte>, dl: int, k: nat)
    requires eop >= 0 ==> EopFree(acc, eop)
    ensures var o := ReadLoop(size, eop, toms, polls, queue, acc, dl, k);
            (o.reason == Terminator <==> eop >= 0 && |o.result| > 0 && o.result[|o.result| - 1] == eop) &&
            (eop >= 0 && |o.result| > 0 ==> EopFree(o.result[..|o.result| - 1], eop))
    decreases if k < |polls| then |polls| - k else 0, |queue|
  {
    var o := ReadLoop(size, eop, toms, polls, queue, acc, dl, k);
    var q := if k < |polls| then queue + polls[k].arrived else queue;
    if q == [] {
      ReadLoopIdle(size, eop, toms, polls, queue, acc, dl, k);
      if !(k >= |polls| || polls[k].now >= dl) {
        ReadLoopTerminator(size, eop, toms, polls, [], acc, dl, k + 1);
      } else if eop >= 0 && |acc| > 0 {
        assert acc[|acc| - 1] != eop;
        assert EopFree(acc[..|acc| - 1], eop);
      }
    } else {
      ReadLoopTake(size, eop, toms, polls, q, queue, acc, dl, k);
      var acc' := acc + [q[0]];
      assert acc'[..|acc'| - 1] == acc;
      if !(eop >= 0 && q[0] == eop) && !(size >= 0 && |acc'| >= size) {
        if eop >= 0 {
          assert EopFree(acc', eop);
        }
        ReadLoopTerminator(size, eop, toms, polls, q[1..], acc', if k < |polls| then polls[k].now + toms else dl, k + 1);
      }
    }
  }

  /** With a terminator set, a read stops on it exactly when the last byte of the
      result is the terminator, and no earlier byte of the result is; without
      one the terminator rule never fires. */
  lemma ReadTerminator(size: int, eop: int, toms: int, start: int, polls: seq<Poll>, queue: seq<byte>)
    ensures var o := ReadRun(size, eop, toms, start, polls, queue);
            (o.reason == Terminator <==> eop >= 0 && |o.result| > 0 && o.result[|o.result| - 1] == eop) &&
            (eop >= 0 ==> forall i :: 0 <= i < |o.result| - 1 ==> o.result[i] != eop)
  {
    ReadLoopTerminator(size, eop, toms, polls, queue, [], start + toms, 0);
  }

  lemma {:induction false} ReadLoopSize(size: int, eop: int, toms: int, polls: seq<Poll>,
                                        queue: seq<byte>, acc: seq<byte>, dl: int, k: nat)
    requires size >= 0 ==> |acc| < Max(size, 1)
    ensures var o := ReadLoop(size, eop, toms, polls, queue, acc, dl, k);
            (size >= 0 ==> |o.result| <= Max(size, 1)) &&
            (o.reason == SizeReached ==> size >= 0 && |o.result| == Max(size, 1)) &&
            (o.reason == Timeout && size >= 0 ==> |o.result| < Max(size, 1))
    decreases if k < |polls| then |polls| - k else 0, |queue|
  {
    var q := if k < |polls| then queue + polls[k].arrived else queue;
    if q == [] {
      if !(k >= |polls| || polls[k].now >= dl) {
        ReadLoopSize(size, eop, toms, polls, q, acc, dl, k + 1);
      }
    } else {
      var acc' := acc + [q[0]];
      if !(eop >= 0 && q[0] == eop) && !(size >= 0 && |acc'| >= size) {
        ReadLoopSize(size, eop, toms, polls, q[1..], acc', if k < |polls| then polls[k].now + toms else dl, k + 1);
      }
    }
  }

  /** With a size limit, a read returns at most `max(size, 1)` bytes, exactly
      that many when the limit stopped it, and fewer when it timed out: the size
      is checked only after a byte has been added, so `size = 0` still takes one
      byte. */
  lemma ReadSize(size: int, eop: int, toms: int, start: int, polls: seq<Poll>, queue: seq<byte>)
    ensures var o := ReadRun(size, eop, toms, start, polls, queue);
            (size >= 0 ==> |o.result| <= Max(size, 1)) &&
            (o.reason == SizeReached ==> size >= 0 && |o.result| == Max(size, 1)) &&
            (o.reason == Timeout && size >= 0 ==> |o.result| < Max(size, 1))
  {
    ReadLoopSize(size, eop, toms, polls, queue, [], start + toms, 0);
  }

  lemma {:induction false} ReadLoopStopsOnEmpty(size: int, eop: int, toms: int, polls: seq<Poll>,
                                                queue: seq<byte>, acc: seq<byte>, dl: int, k: nat)
    ensures var o := ReadLoop(size, eop, toms, polls, queue, acc, dl, k);
            o.reason == Timeout ==>
              o.rest == [] && o.steps > 0 && (o.steps > |polls| || polls[o.steps - 1].now >= o.deadline)
    decreases if k < |polls| then |polls| - k else 0, |queue|
  {
    var q := if k < |polls| then queue + polls[k].arrived else queue;
    if q == [] {
      if !(k >= |polls| || polls[k].now >= dl) {
        ReadLoopStopsOnEmpty(size, eop, toms, polls, q, acc, dl, k + 1);
      }
    } else {
      var acc' := acc + [q[0]];
      if !(eop >= 0 && q[0] == eop) && !(size >= 0 && |acc'| >= size) {
        ReadLoopStopsOnEmpty(size, eop, toms, polls, q[1..], acc', if k < |polls| then polls[k].now + toms else dl, k + 1);
      }
    }
  }

  /** The loop only ever adds to the bytes collected. */
  lemma {:induction false} ReadLoopExtends(size: int, eop: int, toms: int, polls: seq<Poll>,
                                           queue: seq<byte>, acc: seq<byte>, dl: int, k: nat)
    ensures acc <= ReadLoop(size, eop, toms, polls, queue, acc, dl, k).result
    decreases if k < |polls| then |polls| - k else 0, |queue|
  {
    var q := if k < |polls| then queue + polls[k].arrived else queue;
    if q == [] {
      ReadLoopIdle(size, eop, toms, polls, queue, acc, dl, k);
      if !(k >= |polls| || polls[k].now >= dl) {
        ReadLoopExtends(size, eop, toms, polls, [], acc, dl, k + 1);
      }
    } else {
      ReadLoopTake(size, eop, toms, polls, q, queue, acc, dl, k);
      if !(eop >= 0 && q[0] == eop) && !(size >= 0 && |acc| + 1 >= size) {
        ReadLoopExtends(size, eop, toms, polls, q[1..], acc + [q[0]], if k < |polls| then polls[k].now + toms else dl, k + 1);
      }
    }
  }

  /** One step of the count model: iteration `k` takes a byte if there is one, and
      the model goes on from what it left queued. */
  lemma CountStep(n: nat, polls: seq<Poll>, k: nat, i: int)
    requires k < i
    ensures Takes(n, polls, k, i) == Takes(Drain(n, polls, k), polls, k + 1, i)
    ensures LastTake(n, polls, k, i) ==
              var j := LastTake(Drain(n, polls, k), polls, k + 1, i);
              if j != -1 then j else if Available(n, polls, k) > 0 then k else -1
  {
    assert Backlog(n, polls, k, i) == Backlog(Drain(n, polls, k), polls, k + 1, i);
  }

  /** What a time-out at the end of `o` says about the count model from iteration
      `k` with `n` bytes queued; `acc` is what was collected before iteration `k`. */
  ghost predicate IdleEnd(o: ReadOutcome, n: nat, polls: seq<Poll>, acc: seq<byte>, k: nat) {
    o.reason == Timeout ==>
      !Takes(n, polls, k, o.steps - 1) && (LastTake(n, polls, k, o.steps - 1) == -1 <==> o.result == acc)
  }

  /** What a time-out inside the schedule says about the deadline by the count model. */
  ghost predicate DeadlineEnd(o: ReadOutcome, n: nat, polls: seq<Poll>, k: nat, dl: int, toms: int) {
    o.reason == Timeout && o.steps <= |polls| ==> o.deadline == DeadlineAt(n, polls, k, o.steps - 1, dl, toms)
  }

  /** An iteration `k` with nothing to take leaves both facts as the next one has them. */
  lemma IdleCase(o: ReadOutcome, n: nat, polls: seq<Poll>, acc: seq<byte>, k: nat, dl: int, toms: int)
    requires Available(n, polls, k) == 0 && o.steps > k + 1
    requires IdleEnd(o, 0, polls, acc, k + 1) && DeadlineEnd(o, 0, polls, k + 1, dl, toms)
    ensures IdleEnd(o, n, polls, acc, k) && DeadlineEnd(o, n, polls, k, dl, toms)
  {
    CountStep(n, polls, k, o.steps - 1);
    if o.steps <= |polls| {
      DeadlineStep(n, polls, k, o.steps - 1, dl, toms);
    }
  }

  /** An iteration `k` that takes a byte `x` makes itself the last byte taken, unless
      a later one takes another. */
  lemma TakeCase(o: ReadOutcome, n: nat, polls: seq<Poll>, acc: seq<byte>, x: byte, k: nat, dl: int, toms: int)
    requires Available(n, polls, k) > 0 && o.steps > k + 1 && acc + [x] <= o.result
    requires k < |polls| ==> IdleEnd(o, n - 1 + |polls[k].arrived|, polls, acc + [x], k + 1) &&
                             DeadlineEnd(o, n - 1 + |polls[k].arrived|, polls, k + 1, polls[k].now + toms, toms)
    requires k >= |polls| ==> IdleEnd(o, n - 1, polls, acc + [x], k + 1)
    ensures IdleEnd(o, n, polls, acc, k) && DeadlineEnd(o, n, polls, k, dl, toms)
  {
    CountStep(n, polls, k, o.steps - 1);
    if o.steps <= |polls| {
      DeadlineStep(n, polls, k, o.steps - 1, dl, toms);
    }
  }

  /** A read that times out does so at an iteration with nothing to take, having
      taken no byte at all exactly when the count model has no iteration taking one;
      inside the schedule its deadline is the one the rolling-deadline rule gives:
      the one it started with if it never took a byte, and otherwise `toms` after
      the clock reading of the iteration that took its last byte. */
  lemma {:induction false} ReadLoopDeadline(size: int, eop: int, toms: int, polls: seq<Poll>,
                                            queue: seq<byte>, acc: seq<byte>, dl: int, k: nat)
    ensures var o := ReadLoop(size, eop, toms, polls, queue, acc, dl, k);
            IdleEnd(o, |queue|, polls, acc, k) && DeadlineEnd(o, |queue|, polls, k, dl, toms)
    decreases if k < |polls| then |polls| - k else 0, |queue|, 1
  {
    var q := if k < |polls| then queue + polls[k].arrived else queue;
    if q == [] {
      ReadLoopIdle(size, eop, toms, polls, queue, acc, dl, k);
      if !(k >= |polls| || polls[k].now >= dl) {
        DeadlineWait(size, eop, toms, polls, queue, acc, dl, k);
      }
    } else {
      ReadLoopTake(size, eop, toms, polls, q, queue, acc, dl, k);
      if !(eop >= 0 && q[0] == eop) && !(size >= 0 && |acc| + 1 >= size) {
        DeadlineTake(size, eop, toms, polls, q, queue, acc, dl, k);
      }
    }
  }

  /** `ReadLoopDeadline` across an iteration that waits. */
  lemma {:induction false} DeadlineWait(size: int, eop: int, toms: int, polls: seq<Poll>,
                                        queue: seq<byte>, acc: seq<byte>, dl: int, k: nat)
    requires k < |polls| && queue + polls[k].arrived == [] && polls[k].now < dl
    ensures var o := ReadLoop(size, eop, toms, polls, queue, acc, dl, k);
            IdleEnd(o, |queue|, polls, acc, k) && DeadlineEnd(o, |queue|, polls, k, dl, toms)
    decreases |polls| - k, |queue|, 0
  {
    var o := ReadLoop(size, eop, toms, polls, queue, acc, dl, k);
    ReadLoopIdle(size, eop, toms, polls, queue, acc, dl, k);
    assert o == ReadLoop(size, eop, toms, polls, [], acc, dl, k + 1);
    ReadLoopDeadline(size, eop, toms, polls, [], acc, dl, k + 1);
    ReadLoopSteps(size, eop, toms, polls, [], acc, dl, k + 1);
    assert Available(|queue|, polls, k) == 0;
    IdleCase(o, |queue|, polls, acc, k, dl, toms);
  }

  /** `ReadLoopDeadline` across an iteration that takes a byte and goes on. */
  lemma {:induction false} DeadlineTake(size: int, eop: int, toms: int, polls: seq<Poll>, q: seq<byte>,
                                        queue: seq<byte>, acc: seq<byte>, dl: int, k: nat)
    requires q == (if k < |polls| then queue + polls[k].arrived else queue) && q != []
    requires !(eop >= 0 && q[0] == eop) && !(size >= 0 && |acc| + 1 >= size)
    ensures var o := ReadLoop(size, eop, toms, polls, queue, acc, dl, k);
            IdleEnd(o, |queue|, polls, acc, k) && DeadlineEnd(o, |queue|, polls, k, dl, toms)
    decreases if k < |polls| then |polls| - k else 0, |queue|, 0
  {
    var o := ReadLoop(size, eop, toms, polls, queue, acc, dl, k);
    var dl' := if k < |polls| then polls[k].now + toms else dl;
    ReadLoopTake(size, eop, toms, polls, q, queue, acc, dl, k);
    assert o == ReadLoop(size, eop, toms, polls, q[1..], acc + [q[0]], dl', k + 1);
    ReadLoopDeadline(size, eop, toms, polls, q[1..], acc + [q[0]], dl', k + 1);
    ReadLoopSteps(size, eop, toms, polls, q[1..], acc + [q[0]], dl', k + 1);
    ReadLoopExtends(size, eop, toms, polls, q[1..], acc + [q[0]], dl', k + 1);
    assert |q| == Available(|queue|, polls, k);
    TakeCase(o, |queue|, polls, acc, q[0], k, dl, toms);
  }

  /** A read that timed out did so at an iteration that found nothing to take and
      a deadline passed (or after the schedule); it returns what it had collected,
      possibly nothing, and is never an error. Inside the schedule its deadline is
      `toms` after the clock reading at its last byte, or `start + toms` if it took
      none: it gives up only once `toms` have passed with no byte to take. */
  lemma {:induction false} ReadTimeout(size: int, eop: int, toms: int, start: int, polls: seq<Poll>, queue: seq<byte>)
    ensures var o := ReadRun(size, eop, toms, start, polls, queue);
            o.reason == Timeout ==>
              o.rest == [] && o.steps > 0 && (o.steps > |polls| || polls[o.steps - 1].now >= o.deadline)
    ensures var o := ReadRun(size, eop, toms, start, polls, queue);
            o.reason == Timeout ==>
              !Takes(|queue|, polls, 0, o.steps - 1) &&
              (LastTake(|queue|, polls, 0, o.steps - 1) == -1 <==> o.result == []) &&
              (o.steps <= |polls| ==>
                 o.deadline == LastByteClock(|queue|, polls, start, o.steps - 1) + toms &&
                 polls[o.steps - 1].now - LastByteClock(|queue|, polls, start, o.steps - 1) >= toms)
  {
    var o := ReadRun(size, eop, toms, start, polls, queue);
    assert o == ReadLoop(size, eop, toms, polls, queue, [], start + toms, 0);
    ReadLoopStopsOnEmpty(size, eop, toms, polls, queue, [], start + toms, 0);
    ReadLoopDeadline(size, eop, toms, polls, queue, [], start + toms, 0);
    ReadLoopSteps(size, eop, toms, polls, queue, [], start + toms, 0);
    TimeoutClock(o, |queue|, polls, start, toms);
  }

  /** The deadline of a whole read, in terms of the clock reading at its last byte. */
  lemma TimeoutClock(o: ReadOutcome, n: nat, polls: seq<Poll>, start: int, toms: int)
    requires o.steps > 0 && DeadlineEnd(o, n, polls, 0, start + toms, toms)
    ensures o.reason == Timeout && o.steps <= |polls| ==>
              o.deadline == LastByteClock(n, polls, start, o.steps - 1) + toms
  {
  }

  /** No byte arrives from iteration `k` on. */
  ghost predicate SilentFrom(polls: seq<Poll>, k: nat) {
    forall i :: k <= i < |polls| ==> polls[i].arrived == []
  }

  lemma {:induction false} ReadLoopSilent(size: int, eop: int, toms: int, polls: seq<Poll>,
                                          acc: seq<byte>, dl: int, k: nat)
    requires SilentFrom(polls, k)
    ensures var o := ReadLoop(size, eop, toms, polls, [], acc, dl, k);
            o.result == acc && o.rest == [] && o.reason == Timeout && o.deadline == dl && o.steps > k &&
            (forall i :: k <= i < o.steps - 1 && i < |polls| ==> polls[i].now < dl) &&
            (o.steps <= |polls| ==> polls[o.steps - 1].now >= dl)
    decreases if k < |polls| then |polls| - k else 0
  {
    if k < |polls| {
      assert [] + polls[k].arrived == [];
      if polls[k].now < dl {
        ReadLoopSilent(size, eop, toms, polls, acc, dl, k + 1);
      }
    }
  }

  /** Against a silent port a read returns nothing, by timeout; its deadline
      stays `start + toms` throughout, and it stops at the first iteration whose
      clock reading reaches that deadline. */
  lemma SilentRead(size: int, eop: int, toms: int, start: int, polls: seq<Poll>)
    requires SilentFrom(polls, 0)
    ensures var o := ReadRun(size, eop, toms, start, polls, []);
            o.result == [] && o.rest == [] && o.reason == Timeout && o.deadline == start + toms &&
            (forall i :: 0 <= i < o.steps - 1 && i < |polls| ==> polls[i].now < start + toms) &&
            o.steps > 0 && (o.steps <= |polls| ==> polls[o.steps - 1].now >= start + toms)
  {
    ReadLoopSilent(size, eop, toms, polls, [], start + toms, 0);
  }

  lemma {:induction false} ReadLoopNoWait(size: int, eop: int, toms: int, polls: seq<Poll>,
                                          queue: seq<byte>, acc: seq<byte>, dl: int, k: nat)
    requires toms <= 0 && MonotoneFrom(polls, k)
    requires k < |polls| ==> dl <= polls[k].now
    ensures var o := ReadLoop(size, eop, toms, polls, queue, acc, dl, k);
            |o.result| >= |acc| &&
            o.steps - k == |o.result| - |acc| + (if o.reason == Timeout then 1 else 0)
    decreases if k < |polls| then |polls| - k else 0, |queue|
  {
    var q := if k < |polls| then queue + polls[k].arrived else queue;
    if q != [] {
      var acc' := acc + [q[0]];
      if !(eop >= 0 && q[0] == eop) && !(size >= 0 && |acc'| >= size) {
        var dl' := if k < |polls| then polls[k].now + toms else dl;
        assert k + 1 < |polls| ==> polls[k].now <= polls[k + 1].now;
        ReadLoopNoWait(size, eop, toms, polls, q[1..], acc', dl', k + 1);
      }
    }
  }

  /** With `toms <= 0` (and a clock that does not go back) a read never waits:
      every iteration takes a byte, except a final one that finds the queue empty
      and returns. */
  lemma ReadNoWait(size: int, eop: int, toms: int, start: int, polls: seq<Poll>, queue: seq<byte>)
    requires toms <= 0 && MonotoneFrom(polls, 0)
    requires |polls| > 0 ==> start <= polls[0].now
    ensures var o := ReadRun(size, eop, toms, start, polls, queue);
            o.steps == |o.result| + (if o.reason == Timeout then 1 else 0)
  {
    ReadLoopNoWait(size, eop, toms, polls, queue, [], start + toms, 0);
  }

  /** Each of the first `n` iterations that finds nothing to take reads the clock
      less than `toms` after the last byte taken (or after the call started, before
      any byte), with `q` bytes queued at the start. */
  ghost predicate LiveClock(q: nat, polls: seq<Poll>, start: int, toms: int, n: nat)
    requires n <= |polls|
  {
    forall i :: 0 <= i < n && !Takes(q, polls, 0, i) ==> polls[i].now < LastByteClock(q, polls, start, i) + toms
  }

  /** The rolling deadline: a read never times out at an iteration whose clock
      reading is less than `toms` after the last byte it took (or after the call
      started, before any byte). So when every iteration among the first `n` that
      finds nothing to take comes within `toms` of the previous byte, the read does
      not time out during them, however long they last in total; it may still stop
      on its size or its terminator. */
  lemma RollingDeadline(size: int, eop: int, toms: int, start: int, polls: seq<Poll>, queue: seq<byte>, n: nat)
    requires n <= |polls|
    requires LiveClock(|queue|, polls, start, toms, n)
    ensures var o := ReadRun(size, eop, toms, start, polls, queue);
            o.reason == Timeout ==> o.steps > n
  {
    ReadTimeout(size, eop, toms, start, polls, queue);
  }

  /** With neither a size nor a terminator, such a read runs past all the first
      `n` iterations and then ends by a time-out. */
  lemma RollingDeadlineNoLimit(size: int, eop: int, toms: int, start: int, polls: seq<Poll>, queue: seq<byte>, n: nat)
    requires size < 0 && eop < 0 && n <= |polls|
    requires LiveClock(|queue|, polls, start, toms, n)
    ensures var o := ReadRun(size, eop, toms, start, polls, queue);
            o.reason == Timeout && o.steps > n
  {
    RollingDeadline(size, eop, toms, start, polls, queue, n);
    ReadTerminator(size, eop, toms, start, polls, queue);
    ReadSize(size, eop, toms, start, polls, queue);
  }

  /** A read stopped by its size returns the first `max(size, 1)` bytes of the
      queue followed by what arrived during the call, whenever they arrived; with a
      terminator set, none of them is the terminator. */
  lemma ReadSizePrefix(size: int, eop: int, toms: int, start: int, polls: seq<Poll>, queue: seq<byte>)
    ensures var o := ReadRun(size, eop, toms, start, polls, queue);
            var all := queue + Arrived(polls, 0, o.steps);
            o.reason == SizeReached ==>
              Max(size, 1) <= |all| && o.result == all[..Max(size, 1)] &&
              (eop >= 0 ==> forall j :: 0 <= j < Max(size, 1) ==> all[j] != eop)
  {
    var o := ReadRun(size, eop, toms, start, polls, queue);
    var all := queue + Arrived(polls, 0, o.steps);
    ReadIsFifo(size, eop, toms, start, polls, queue);
    ReadSize(size, eop, toms, start, polls, queue);
    ReadTerminator(size, eop, toms, start, polls, queue);
    if o.reason == SizeReached {
      assert all[..|o.result|] == o.result;
    }
  }

  /** A read stopped by its terminator returns the queue followed by what arrived
      during the call, up to and including the first terminator among them. */
  lemma ReadTerminatorPrefix(size: int, eop: int, toms: int, start: int, polls: seq<Poll>, queue: seq<byte>)
    ensures var o := ReadRun(size, eop, toms, start, polls, queue);
            var all := queue + Arrived(polls, 0, o.steps);
            o.reason == Terminator ==>
              0 < |o.result| <= |all| && o.result == all[..|o.result|] && all[|o.result| - 1] == eop &&
              forall j :: 0 <= j < |o.result| - 1 ==> all[j] != eop
  {
    var o := ReadRun(size, eop, toms, start, polls, queue);
    var all := queue + Arrived(polls, 0, o.steps);
    ReadIsFifo(size, eop, toms, start, polls, queue);
    ReadTerminator(size, eop, toms, start, polls, queue);
    if o.reason == Terminator {
      assert all[..|o.result|] == o.result;
      assert forall j :: 0 <= j < |o.result| ==> all[j] == o.result[j];
    }
  }

  /** Two readings of the bytes queued and arrived, up to iteration `m` and up to
      iteration `n`, agree wherever both are defined. */
  lemma ArrivedAgree(polls: seq<Poll>, queue: seq<byte>, m: nat, n: nat)
    ensures var a, b := queue + Arrived(polls, 0, m), queue + Arrived(polls, 0, n);
            forall j :: 0 <= j < |a| && j < |b| ==> a[j] == b[j]
  {
    if m <= n {
      ArrivedSplit(polls, 0, m, n);
      assert queue + Arrived(polls, 0, n) == (queue + Arrived(polls, 0, m)) + Arrived(polls, m, n);
    } else {
      ArrivedSplit(polls, 0, n, m);
      assert queue + Arrived(polls, 0, m) == (queue + Arrived(polls, 0, n)) + Arrived(polls, n, m);
    }
  }

  /** A read of `size` bytes with no terminator returns exactly the first `size`
      bytes queued or arriving, when that many are there by iteration `n` and the
      clock keeps the read alive until then. */
  lemma ReadArrivedFirstBytes(size: int, toms: int, start: int, polls: seq<Poll>, queue: seq<byte>, n: nat)
    requires 1 <= size && n <= |polls| && size <= |queue + Arrived(polls, 0, n)|
    requires LiveClock(|queue|, polls, start, toms, n)
    ensures var o := ReadRun(size, -1, toms, start, polls, queue);
            o.reason == SizeReached && o.result == (queue + Arrived(polls, 0, n))[..size]
  {
    var o := ReadRun(size, -1, toms, start, polls, queue);
    var all, all' := queue + Arrived(polls, 0, n), queue + Arrived(polls, 0, o.steps);
    RollingDeadline(size, -1, toms, start, polls, queue, n);
    ReadTimeout(size, -1, toms, start, polls, queue);
    ReadIsFifo(size, -1, toms, start, polls, queue);
    ReadSize(size, -1, toms, start, polls, queue);
    ReadTerminator(size, -1, toms, start, polls, queue);
    ReadSizePrefix(size, -1, toms, start, polls, queue);
    ArrivedAgree(polls, queue, n, o.steps);
    if n <= o.steps {
      ArrivedSplit(polls, 0, n, o.steps);
      assert |all| <= |all'|;
    }
    assert o.reason == Timeout ==> o.result == o.result + o.rest == all';
    assert o.result == all'[..size] == all[..size];
  }

  /** A read with a terminator and no size returns the bytes queued or arriving up
      to and including the first terminator, when it is there by iteration `n` and
      the clock keeps the read alive until then. */
  lemma ReadArrivedThroughTerminator(eop: int, toms: int, start: int, polls: seq<Poll>, queue: seq<byte>, n: nat, i: nat)
    requires n <= |polls|
    requires i < |queue + Arrived(polls, 0, n)| && (queue + Arrived(polls, 0, n))[i] == eop
    requires forall j :: 0 <= j < i ==> (queue + Arrived(polls, 0, n))[j] != eop
    requires LiveClock(|queue|, polls, start, toms, n)
    ensures var o := ReadRun(-1, eop, toms, start, polls, queue);
            o.reason == Terminator && o.result == (queue + Arrived(polls, 0, n))[..i + 1]
  {
    var o := ReadRun(-1, eop, toms, start, polls, queue);
    var all, all' := queue + Arrived(polls, 0, n), queue + Arrived(polls, 0, o.steps);
    RollingDeadline(-1, eop, toms, start, polls, queue, n);
    ReadTimeout(-1, eop, toms, start, polls, queue);
    ReadIsFifo(-1, eop, toms, start, polls, queue);
    ReadSize(-1, eop, toms, start, polls, queue);
    ReadTerminator(-1, eop, toms, start, polls, queue);
    ReadTerminatorPrefix(-1, eop, toms, start, polls, queue);
    ArrivedAgree(polls, queue, n, o.steps);
    if n <= o.steps {
      ArrivedSplit(polls, 0, n, o.steps);
      assert |all| <= |all'|;
    }
    assert o.reason == Timeout ==> o.result == o.result + o.rest == all';
    assert o.result == all'[..i + 1] == all[..i + 1];
  }

  /** With neither a size nor a terminator a read runs until its deadline
      expires and returns everything queued and everything that arrived. */
  lemma ReadUntilSilence(size: int, eop: int, toms: int, start: int, polls: seq<Poll>, queue: seq<byte>)
    requires size < 0 && eop < 0
    ensures var o := ReadRun(size, eop, toms, start, polls, queue);
            o.reason == Timeout && o.rest == [] && o.result == queue + Arrived(polls, 0, o.steps)
  {
    var o := ReadRun(size, eop, toms, start, polls, queue);
    ReadTerminator(size, eop, toms, start, polls, queue);
    ReadSize(size, eop, toms, start, polls, queue);
    ReadTimeout(size, eop, toms, start, polls, queue);
    ReadIsFifo(size, eop, toms, start, polls, queue);
    assert o.result + [] == o.result;
  }

  lemma {:induction false} ReadLoopFirstBytes(size: int, toms: int, polls: seq<Poll>,
                                              queue: seq<byte>, acc: seq<byte>, dl: int, k: nat)
    requires |acc| < size <= |acc| + |queue|
    ensures var o := ReadLoop(size, -1, toms, polls, queue, acc, dl, k);
            o.reason == SizeReached && o.result == acc + queue[..size - |acc|]
    decreases if k < |polls| then |polls| - k else 0, |queue|
  {
    var q := if k < |polls| then queue + polls[k].arrived else queue;
    assert q[..|queue|] == queue;
    var acc' := acc + [q[0]];
    if |acc'| < size {
      var dl' := if k < |polls| then polls[k].now + toms else dl;
      ReadLoopFirstBytes(size, toms, polls, q[1..], acc', dl', k + 1);
      assert acc' + q[1..][..size - |acc'|] == acc + q[..size - |acc|];
    }
    assert q[..size - |acc|] == queue[..size - |acc|];
  }

  /** A read of `size` bytes with no terminator, asked when at least `size`
      bytes are already queued, returns exactly the first `size` of them. */
  lemma ReadFirstBytes(size: int, toms: int, start: int, polls: seq<Poll>, queue: seq<byte>)
    requires 1 <= size <= |queue|
    ensures var o := ReadRun(size, -1, toms, start, polls, queue);
            o.reason == SizeReached && o.result == queue[..size]
  {
    ReadLoopFirstBytes(size, toms, polls, queue, [], start + toms, 0);
  }

  lemma {:induction false} ReadLoopThroughTerminator(eop: int, toms: int, polls: seq<Poll>,
                                                     queue: seq<byte>, acc: seq<byte>, dl: int, k: nat, i: nat)
    requires i < |queue| && queue[i] == eop
    requires forall j :: 0 <= j < i ==> queue[j] != eop
    ensures var o := ReadLoop(-1, eop, toms, polls, queue, acc, dl, k);
            o.reason == Terminator && o.result == acc + queue[..i + 1]
    decreases if k < |polls| then |polls| - k else 0, |queue|
  {
    var q := if k < |polls| then queue + polls[k].arrived else queue;
    assert q[..|queue|] == queue;
    assert q[..i + 1] == queue[..i + 1];
    if q[0] != eop {
      var dl' := if k < |polls| then polls[k].now + toms else dl;
      var rest := q[1..];
      assert rest[i - 1] == queue[i];
      assert forall j :: 0 <= j < i - 1 ==> rest[j] == queue[j + 1];
      ReadLoopThroughTerminator(eop, toms, polls, rest, acc + [q[0]], dl', k + 1, i - 1);
      assert acc + [q[0]] + rest[..i] == acc + q[..i + 1];
    }
  }

  /** A read with a terminator and no size, asked when the terminator is already
      queued, returns the queue up to and including its first occurrence. */
  lemma ReadThroughTerminator(eop: int, toms: int, start: int, polls: seq<Poll>, queue: seq<byte>, i: nat)
    requires i < |queue| && queue[i] == eop
    requires forall j :: 0 <= j < i ==> queue[j] != eop
    ensures var o := ReadRun(-1, eop, toms, start, polls, queue);
            o.reason == Terminator && o.result == queue[..i + 1]
  {
    ReadLoopThroughTerminator(eop, toms, polls, queue, [], start + toms, 0, i);
  }

  /** `size = 0` does not mean "nothing": a read with `size = 0` returns the
      first byte it finds, and returns empty only by timeout. */
  lemma ReadSizeZero(eop: int, toms: int, start: int, polls: seq<Poll>, queue: seq<byte>)
    ensures var o := ReadRun(0, eop, toms, start, polls, queue);
            |o.result| <= 1 && (o.result == [] <==> o.reason == Timeout) &&
            (queue != [] ==> o.result == [queue[0]])
  {
    ReadSize(0, eop, toms, start, polls, queue);
    ReadTerminator(0, eop, toms, start, polls, queue);
  }
}
