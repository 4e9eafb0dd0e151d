/** Properties of the console producer's run that relate several runs:
    delivery outcomes never decide when the loop stops, input after the
    stopping read is never looked at, and cancellation only cuts the run
    short. */
module ProducerProperties {
  import opened Wrappers
  import opened LineParser
  import opened Delivery
  import opened ProducerLoop

  /** The broker's answers change what is printed, never what is read,
      published, or why the loop stops: a failed delivery is not fatal. */
  lemma {:induction false} LoopIgnoresOutcomes(topic: string, input: seq<ReadResult>, cancel: CancelSchedule,
                                               o1: Oracle, o2: Oracle, i: nat)
    requires i <= |input|
    ensures var s1, s2 := Loop(topic, input, cancel, o1, i), Loop(topic, input, cancel, o2, i);
            s1.published == s2.published && s1.readCount == s2.readCount && s1.stop == s2.stop
    decreases |input| - i
  {
    if !CancelledAt(cancel, i) && ReadAt(input, i).Line? {
      LoopIgnoresOutcomes(topic, input, cancel, o1, o2, i + 1);
    }
  }

  /** Whole-program form: two brokers, one failing where the other
      delivers, see the same requests and the same stop. */
  lemma RunIgnoresOutcomes(args: seq<string>, input: seq<ReadResult>, cancel: CancelSchedule, o1: Oracle, o2: Oracle)
    ensures var s1, s2 := Run(args, input, cancel, o1), Run(args, input, cancel, o2);
            s1.published == s2.published && s1.readCount == s2.readCount && s1.stop == s2.stop
            && |s1.printed| == |s2.printed|
  {
    if |args| == 2 {
      LoopIgnoresOutcomes(args[1], input, cancel, o1, o2, 0);
    }
  }

  /** The loop depends only on the reads it issues: another input that
      agrees on them gives the same run. */
  lemma {:induction false} LoopReadsOnlyWhatItUses(topic: string, input: seq<ReadResult>, other: seq<ReadResult>,
                                                    cancel: CancelSchedule, oracle: Oracle, i: nat)
    requires i <= |input| && i <= |other|
    requires forall j :: i <= j < Loop(topic, input, cancel, oracle, i).readCount ==> ReadAt(other, j) == ReadAt(input, j)
    ensures Loop(topic, other, cancel, oracle, i) == Loop(topic, input, cancel, oracle, i)
    decreases |input| - i
  {
    if Halt(input, cancel, i).None? {
      LoopUnfold(topic, input, cancel, oracle, i);
      assert ReadAt(other, i) == ReadAt(input, i);
      LoopUnfold(topic, other, cancel, oracle, i);
      LoopReadsOnlyWhatItUses(topic, input, other, cancel, oracle, i + 1);
    } else if !CancelledAt(cancel, i) {
      assert ReadAt(other, i) == ReadAt(input, i);
    }
  }

  /** Lines after the terminating read (end of input or an aborted read) or
      after the cancel flag is seen are never parsed or published. */
  lemma RunIgnoresLaterInput(args: seq<string>, input: seq<ReadResult>, more: seq<ReadResult>,
                             cancel: CancelSchedule, oracle: Oracle)
    requires Run(args, input, cancel, oracle).readCount <= |input|
    ensures var n := Run(args, input, cancel, oracle).readCount;
            Run(args, input[..n] + more, cancel, oracle) == Run(args, input, cancel, oracle)
  {
    var n := Run(args, input, cancel, oracle).readCount;
    var cut := input[..n] + more;
    if |args| == 2 {
      assert forall j :: 0 <= j < n ==> ReadAt(cut, j) == ReadAt(input, j);
      LoopReadsOnlyWhatItUses(args[1], input, cut, cancel, oracle, 0);
    }
  }

  /** Seeing the cancel flag from iteration `k` on keeps exactly the first
      `k - i` iterations of the uncancelled run, or all of it when that run
      stops sooner; cancelled at `i` already, it keeps nothing. */
  lemma {:induction false} LoopCancelTruncates(topic: string, input: seq<ReadResult>, k: nat, oracle: Oracle, i: nat)
    requires i <= |input|
    ensures var c, u := Loop(topic, input, From(k), oracle, i), Loop(topic, input, Never, oracle, i);
            && c.published <= u.published
            && c.printed <= u.printed
            && |c.published| == (if i <= k then Min(k - i, |u.published|) else 0)
    decreases |input| - i
  {
    var c, u := Loop(topic, input, From(k), oracle, i), Loop(topic, input, Never, oracle, i);
    if Halt(input, From(k), i).None? {
      LoopUnfold(topic, input, From(k), oracle, i);
      LoopUnfold(topic, input, Never, oracle, i);
      LoopCancelTruncates(topic, input, k, oracle, i + 1);
      var c', u' := Loop(topic, input, From(k), oracle, i + 1), Loop(topic, input, Never, oracle, i + 1);
      assert c.published == [c.published[0]] + c'.published && u.published == [c.published[0]] + u'.published;
      assert c.printed == [c.printed[0]] + c'.printed && u.printed == [c.printed[0]] + u'.printed;
      PrefixCons(c.published[0], c'.published, u'.published);
      PrefixCons(c.printed[0], c'.printed, u'.printed);
    } else if CancelledAt(From(k), i) {
      assert c.published == [] && c.printed == [];
    } else {
      assert c.published == [] && c.printed == [];
      assert u.published == [];
    }
  }

  /** Putting one element in front keeps the prefix order. */
  lemma PrefixCons<T>(x: T, a: seq<T>, b: seq<T>)
    requires a <= b
    ensures [x] + a <= [x] + b
  {
    assert ([x] + b)[..|a| + 1] == [x] + b[..|a|];
  }

  /** Whole-program form: a cancellation observed at iteration `k` shows
      the first lines of the uncancelled run, exactly `k` of its messages or
      all of them when there are fewer. */
  lemma RunCancelTruncates(args: seq<string>, input: seq<ReadResult>, k: nat, oracle: Oracle)
    ensures var c, u := Run(args, input, From(k), oracle), Run(args, input, Never, oracle);
            && c.published <= u.published && c.printed <= u.printed
            && |c.published| == Min(k, |u.published|)
  {
    if |args| == 2 {
      LoopCancelTruncates(args[1], input, k, oracle, 0);
    }
  }

  /** A flag seen before the first prompt stops the program before any read. */
  lemma CancelBeforeFirstRead(args: seq<string>, input: seq<ReadResult>, oracle: Oracle)
    requires |args| == 2
    ensures Run(args, input, From(0), oracle) == Session([], [], 0, Cancelled)
  {
  }

  /** Without cancellation, every line of an input that just ends is
      published as its split, in order, with one result line each, and the
      loop stops on the end of input. */
  lemma {:induction false} EveryLineReported(args: seq<string>, input: seq<ReadResult>, oracle: Oracle)
    requires |args| == 2
    requires forall j :: 0 <= j < |input| ==> input[j].Line?
    ensures var s := Run(args, input, Never, oracle);
            && s.stop == InputEnded
            && s.readCount == |input| + 1
            && |s.published| == |s.printed| == |input|
            && forall j :: 0 <= j < |input| ==>
                 && s.published[j] == Request(args[1], Split(input[j].text))
                 && s.printed[j] == Render(oracle(j, s.published[j]))
  {
    var s := Run(args, input, Never, oracle);
    LoopBounded(args[1], input, Never, oracle, 0);
    assert !ReadAt(input, |s.published|).Line?;
    forall j | 0 <= j < |input|
      ensures s.published[j] == Request(args[1], Split(input[j].text))
      ensures s.printed[j] == Render(oracle(j, s.published[j]))
    {
      assert Completed(args[1], input, Never, oracle, j, s.published[j], s.printed[j]);
    }
  }

  /** A broker that always fails with `reason` gets one failure line per
      input line, and the loop still reads to the end of input. */
  lemma EveryFailureReported(args: seq<string>, input: seq<ReadResult>, oracle: Oracle, reason: string)
    requires |args| == 2
    requires forall j :: 0 <= j < |input| ==> input[j].Line?
    requires forall n, r :: oracle(n, r).error.code != NoError && oracle(n, r).error.reason == reason
    ensures var s := Run(args, input, Never, oracle);
            && s.stop == InputEnded
            && s.printed == seq(|input|, _ => FailedPrefix + reason)
  {
    var s := Run(args, input, Never, oracle);
    EveryLineReported(args, input, oracle);
    forall j | 0 <= j < |input|
      ensures s.printed[j] == FailedPrefix + reason
    {
      var o := OutcomeOf(oracle(j, s.published[j]));
      ReadBackExact(s.printed[j], o);
    }
  }

  /** A broker that always delivers to `location` gets one "delivered to"
      line per input line. */
  lemma EveryDeliveryReported(args: seq<string>, input: seq<ReadResult>, oracle: Oracle, location: string)
    requires |args| == 2
    requires forall j :: 0 <= j < |input| ==> input[j].Line?
    requires forall n, r :: oracle(n, r).error.code == NoError && oracle(n, r).location == location
    ensures var s := Run(args, input, Never, oracle);
            && s.stop == InputEnded
            && s.printed == seq(|input|, _ => DeliveredPrefix + location)
  {
    var s := Run(args, input, Never, oracle);
    EveryLineReported(args, input, oracle);
    forall j | 0 <= j < |input|
      ensures s.printed[j] == DeliveredPrefix + location
    {
      var o := OutcomeOf(oracle(j, s.published[j]));
      ReadBackExact(s.printed[j], o);
    }
  }

  function Min(a: int, b: int): int {
    if a <= b then a else b
  }

  /** Two typed lines against a broker that always delivers to `location`
      give two "delivered to" lines, in input order, and the messages
      keyed "a" and "b". */
  lemma TwoLinesDelivered(brokers: string, topic: string, location: string)
    ensures var oracle: Oracle := (n, r) => DeliveryReport(location, Error(NoError, ""));
            var s := Run([brokers, topic], [Line("a 1"), Line("b 2")], Never, oracle);
            && s.printed == [DeliveredPrefix + location, DeliveredPrefix + location]
            && s.published == [Request(topic, Message(Some("a"), "1")), Request(topic, Message(Some("b"), "2"))]
            && s.stop == InputEnded
  {
    var oracle: Oracle := (n, r) => DeliveryReport(location, Error(NoError, ""));
    var input := [Line("a 1"), Line("b 2")];
    var s := Run([brokers, topic], input, Never, oracle);
    EveryLineReported([brokers, topic], input, oracle);
    EveryDeliveryReported([brokers, topic], input, oracle, location);
    SplitTwoLines();
    assert s.published[0] == Request(topic, Message(Some("a"), "1"));
    assert s.published[1] == Request(topic, Message(Some("b"), "2"));
    assert s.printed[0] == DeliveredPrefix + location && s.printed[1] == DeliveredPrefix + location;
  }

  /** The splits of the two lines above. */
  lemma SplitTwoLines()
    ensures Split("a 1") == Message(Some("a"), "1")
    ensures Split("b 2") == Message(Some("b"), "2")
  {
    var m1, m2 := Message(Some("a"), "1"), Message(Some("b"), "2");
    assert Join(m1) == "a 1" && Join(m2) == "b 2";
    SplitJoin(m1);
    SplitJoin(m2);
  }

  /** The cancel flag is never reset: once seen, it is seen at every later
      iteration. This holds by the shape of `CancelSchedule` (a flag that is
      either never set or set from one iteration on), just as the program's
      only write to the flag after it is declared sets it to true. */
  lemma CancelNeverReset(cancel: CancelSchedule, i: nat, j: nat)
    requires CancelledAt(cancel, i) && i <= j
    ensures CancelledAt(cancel, j)
  {
  }
}
