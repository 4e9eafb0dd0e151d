/** The console producer's main routine: the argument check, then the
    prompt/read/split/publish/report loop that runs until the cancel flag
    is seen, the input ends, or a read is aborted. */
module ProducerLoop {
  import opened Wrappers
  import opened LineParser
  import opened Delivery

  const UsageLine: string := "Usage: .. brokerList topicName"

  /** What one console read returns: a line, end of input (null), or an
      abort (the IOException a cancelled read throws). */
  datatype ReadResult = Line(text: string) | EndOfInput | Aborted

  /** When the cancel flag is seen set: never, or at the top of iteration
      `iteration` and of every later one (the flag is never reset). */
  datatype CancelSchedule = Never | From(iteration: nat)

  /** A publish request: the topic and the split message. */
  datatype Request = Request(topic: string, message: Message)

  /** The broker: the report for the `n`-th publish (counting from 0). */
  type Oracle = (nat, Request) -> DeliveryReport

  /** Why the program stopped. */
  datatype Stop = BadUsage | Cancelled | InputEnded | ReadAborted

  /** What one run shows: the lines printed after the banner, the requests
      published in order, the number of console reads issued, and the stop
      reason. */
  datatype Session = Session(printed: seq<string>, published: seq<Request>, readCount: nat, stop: Stop)

  predicate CancelledAt(cancel: CancelSchedule, i: nat) {
    cancel.From? && cancel.iteration <= i
  }

  /** The `i`-th read; reading past the supplied results finds end of input. */
  function ReadAt(input: seq<ReadResult>, i: nat): ReadResult {
    if i < |input| then input[i] else EndOfInput
  }

  /** Reference for one iteration: whether iteration `i` stops the loop,
      and why. A cancel flag seen at the top wins over the read. */
  function Halt(input: seq<ReadResult>, cancel: CancelSchedule, i: nat): Option<Stop> {
    if CancelledAt(cancel, i) then Some(Cancelled)
    else
      match ReadAt(input, i)
      case EndOfInput => Some(InputEnded)
      case Aborted => Some(ReadAborted)
      case Line(_) => None
  }

  /** Reference for one completed iteration: iteration `i` read a line,
      published its split to `topic` as publish number `i`, and printed the
      rendering of the report. */
  predicate Completed(topic: string, input: seq<ReadResult>, cancel: CancelSchedule, oracle: Oracle,
                      i: nat, request: Request, line: string)
  {
    && Halt(input, cancel, i).None?
    && ReadAt(input, i).Line?
    && request == Request(topic, Split(ReadAt(input, i).text))
    && line == Render(oracle(i, request))
  }

  /** Iterations `i`, `i + 1`, ... each completed, printing `printed` and
      publishing `published`, one line per request. */
  predicate CompletedFrom(topic: string, input: seq<ReadResult>, cancel: CancelSchedule, oracle: Oracle,
                          i: nat, published: seq<Request>, printed: seq<string>)
  {
    && |printed| == |published|
    && forall j :: 0 <= j < |published| ==>
         Completed(topic, input, cancel, oracle, i + j, published[j], printed[j])
  }

  /** A completed iteration followed by completed iterations. */
  lemma CompletedCons(topic: string, input: seq<ReadResult>, cancel: CancelSchedule, oracle: Oracle,
                      i: nat, request: Request, line: string, published: seq<Request>, printed: seq<string>)
    requires Completed(topic, input, cancel, oracle, i, request, line)
    requires CompletedFrom(topic, input, cancel, oracle, i + 1, published, printed)
    ensures CompletedFrom(topic, input, cancel, oracle, i, [request] + published, [line] + printed)
  {
    var ps, ls := [request] + published, [line] + printed;
    forall j | 0 <= j < |ps|
      ensures Completed(topic, input, cancel, oracle, i + j, ps[j], ls[j])
    {
      if j > 0 {
        assert ps[j] == published[j - 1] && ls[j] == printed[j - 1];
        assert Completed(topic, input, cancel, oracle, (i + 1) + (j - 1), published[j - 1], printed[j - 1]);
      }
    }
  }

  /** The loop from iteration `i` on. It stops at the first iteration that
      halts; every earlier iteration completes and prints exactly one line;
      the terminating read, if any, prints nothing. */
  function Loop(topic: string, input: seq<ReadResult>, cancel: CancelSchedule, oracle: Oracle, i: nat): (s: Session)
    requires i <= |input|
    decreases |input| - i
    ensures CompletedFrom(topic, input, cancel, oracle, i, s.published, s.printed)
    ensures Halt(input, cancel, i + |s.published|) == Some(s.stop)
    ensures s.readCount == if s.stop == Cancelled then i + |s.published| else i + |s.published| + 1
  {
    if CancelledAt(cancel, i) then Session([], [], i, Cancelled)
    else
      match ReadAt(input, i)
      case EndOfInput => Session([], [], i + 1, InputEnded)
      case Aborted => Session([], [], i + 1, ReadAborted)
      case Line(text) =>
        var request := Request(topic, Split(text));
        var line := Render(oracle(i, request));
        var rest := Loop(topic, input, cancel, oracle, i + 1);
        CompletedCons(topic, input, cancel, oracle, i, request, line, rest.published, rest.printed);
        Session([line] + rest.printed, [request] + rest.published, rest.readCount, rest.stop)
  }

  /** The whole program: exactly two arguments (broker list, topic) or the
      usage line and nothing else. */
  function Run(args: seq<string>, input: seq<ReadResult>, cancel: CancelSchedule, oracle: Oracle): (s: Session)
    ensures s.stop == BadUsage <==> |args| != 2
    ensures s.stop == BadUsage ==> s.printed == [UsageLine] && s.published == [] && s.readCount == 0
    ensures s.stop != BadUsage ==>
              && CompletedFrom(args[1], input, cancel, oracle, 0, s.published, s.printed)
              && Halt(input, cancel, |s.published|) == Some(s.stop)
              && s.readCount == (if s.stop == Cancelled then |s.published| else |s.published| + 1)
  {
    if |args| != 2 then Session([UsageLine], [], 0, BadUsage)
    else Loop(args[1], input, cancel, oracle, 0)
  }

  /** `s` with lines and requests of earlier iterations in front. */
  function After(printed: seq<string>, published: seq<Request>, s: Session): Session {
    Session(printed + s.printed, published + s.published, s.readCount, s.stop)
  }

  /** An iteration that reads a line and is not cancelled puts its result
      line and request in front of the rest of the loop. */
  lemma LoopUnfold(topic: string, input: seq<ReadResult>, cancel: CancelSchedule, oracle: Oracle, i: nat)
    requires i <= |input| && Halt(input, cancel, i).None?
    ensures i < |input| && input[i].Line?
    ensures var request := Request(topic, Split(input[i].text));
            Loop(topic, input, cancel, oracle, i)
            == After([Render(oracle(i, request))], [request], Loop(topic, input, cancel, oracle, i + 1))
  {
  }

  /** Each completed iteration consumes one supplied line, so the loop
      publishes at most one request per line and reads at most once past
      the supplied results. */
  lemma {:induction false} LoopBounded(topic: string, input: seq<ReadResult>, cancel: CancelSchedule, oracle: Oracle, i: nat)
    requires i <= |input|
    ensures i + |Loop(topic, input, cancel, oracle, i).published| <= |input|
    ensures Loop(topic, input, cancel, oracle, i).readCount <= |input| + 1
    decreases |input| - i
  {
    var s := Loop(topic, input, cancel, oracle, i);
    if Halt(input, cancel, i).None? {
      LoopUnfold(topic, input, cancel, oracle, i);
      LoopBounded(topic, input, cancel, oracle, i + 1);
      var rest := Loop(topic, input, cancel, oracle, i + 1);
      assert |s.published| == 1 + |rest.published| && s.readCount == rest.readCount;
    } else {
      assert s.published == [] && s.readCount <= i + 1;
    }
  }

  /** One completed iteration moves its line and request from the rest of
      the loop to what has been printed and published. */
  lemma LoopStep(topic: string, input: seq<ReadResult>, cancel: CancelSchedule, oracle: Oracle, i: nat,
                 whole: Session, printed: seq<string>, published: seq<Request>)
    requires i < |input| && !CancelledAt(cancel, i) && input[i].Line?
    requires whole == After(printed, published, Loop(topic, input, cancel, oracle, i))
    ensures var request := Request(topic, Split(input[i].text));
            whole == After(printed + [Render(oracle(i, request))], published + [request],
                           Loop(topic, input, cancel, oracle, i + 1))
  {
    var request := Request(topic, Split(input[i].text));
    var rest := Loop(topic, input, cancel, oracle, i + 1);
    assert printed + ([Render(oracle(i, request))] + rest.printed)
        == (printed + [Render(oracle(i, request))]) + rest.printed;
    assert published + ([request] + rest.published) == (published + [request]) + rest.published;
  }

  /** A halting iteration ends the loop with nothing more printed. */
  lemma LoopStops(topic: string, input: seq<ReadResult>, cancel: CancelSchedule, oracle: Oracle, i: nat,
                  stop: Stop, whole: Session, printed: seq<string>, published: seq<Request>)
    requires i <= |input| && Halt(input, cancel, i) == Some(stop)
    requires whole == After(printed, published, Loop(topic, input, cancel, oracle, i))
    ensures whole == Session(printed, published, if stop == Cancelled then i else i + 1, stop)
  {
    assert printed + [] == printed && published + [] == published;
  }

  /** The program as the source writes it: a while loop on the cancel flag
      that breaks on end of input or an aborted read. */
  method Interact(args: seq<string>, input: seq<ReadResult>, cancel: CancelSchedule, oracle: Oracle)
    returns (printed: seq<string>, published: seq<Request>, readCount: nat, stop: Stop)
    ensures Run(args, input, cancel, oracle) == Session(printed, published, readCount, stop)
  {
    if |args| != 2 {
      return [UsageLine], [], 0, BadUsage;
    }
    var topic := args[1];
    printed, published, readCount, stop := [], [], 0, Cancelled;
    var cancelled := CancelledAt(cancel, 0);
    ghost var whole := Loop(topic, input, cancel, oracle, 0);
    assert whole == After(printed, published, whole);
    while !cancelled
      invariant readCount <= |input|
      invariant cancelled == CancelledAt(cancel, readCount)
      invariant stop == Cancelled
      invariant whole == After(printed, published, Loop(topic, input, cancel, oracle, readCount))
      decreases |input| - readCount
    {
      var i := readCount;
      var read := ReadAt(input, i);
      readCount := readCount + 1;
      if read.Aborted? {
        stop := ReadAborted;
        LoopStops(topic, input, cancel, oracle, i, stop, whole, printed, published);
        break;
      }
      if read.EndOfInput? {
        stop := InputEnded;
        LoopStops(topic, input, cancel, oracle, i, stop, whole, printed, published);
        break;
      }
      var request := Request(topic, Split(read.text));
      var report := oracle(i, request);
      LoopStep(topic, input, cancel, oracle, i, whole, printed, published);
      printed := printed + [Render(report)];
      published := published + [request];
      cancelled := CancelledAt(cancel, readCount);
    }
    if stop == Cancelled {
      LoopStops(topic, input, cancel, oracle, readCount, stop, whole, printed, published);
    }
  }
}
