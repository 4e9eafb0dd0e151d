# Console producer: a Dafny model

This project models the interactive console producer of the Confluent Kafka
.NET client examples (`examples/Producer/Program.cs`). The program takes a
broker list and a topic name. It then loops: it prompts, reads one line,
splits the line into an optional key and a value at the first space, and
publishes the message. It waits for the delivery report and prints one
result line, either `delivered to: <location>` or
`failed to deliver message: <reason>`. It stops when the cancel flag is
set, when the input ends, or when a read is aborted.

Modules:

- `Wrappers`: the `Option` type, used for the key that may be null.
- `LineParser`: `IndexOf` (the first occurrence of a character, or -1) and
  `Split`, the key/value split. `Join` is its inverse, and the round trips
  are proved in both directions.
- `Delivery`: the delivery report (`ErrorCode` as an integer,
  `NoError` = 0), the result line `Render` prints, and `ReadBack`, which
  recovers the outcome from a result line.
- `ProducerLoop`: the reads (`Line`, `EndOfInput`, `Aborted`) and the cancel
  schedule (never, or from iteration k on). The broker is an oracle: a
  function from the publish number and the request to a delivery report.
  `Halt` says, for one iteration, whether the loop stops and why. `Loop` is
  the recursive model of the loop. `Run` is the whole program.
  `Interact` is the same program written as the source's `while` loop, and
  it is proved equal to `Run`.
- `ProducerProperties`: lemmas that compare runs. The broker's answers never
  decide when the loop stops. Input after the stopping read is never used.
  Cancellation only cuts the run short. With input that just ends, every
  line is reported.

Reading past the end of the given read results counts as end of input.
This is what `Console.ReadLine` returns (null) when standard input is
exhausted.

Two modelling decisions follow the code closely:

- An aborted read (the `IOException`) ends the loop at once. The flag is
  not checked again first (lines 70-74).
- The delivered line shows whatever text the report's
  `TopicPartitionOffset` formats to. The code does not fix a
  `topic/partition/offset` layout, so the location is opaque text here.

## Model

| member | source | states |
|---|---|---|
| LineParser.IndexOf | examples/Producer/Program.cs:86 | the result is -1 exactly when the line has no space; otherwise it is the position of a space with no space before it |
| LineParser.Split | examples/Producer/Program.cs:82-91 | a line without a space gives no key and the whole line as value (the empty line gives value ""); otherwise the key has no space and key + " " + value rebuilds the line |
| LineParser.JoinSplit | examples/Producer/Program.cs:82-91 | every line is rebuilt from its split, and the split is well formed (key without space, or keyless value without space) |
| LineParser.SplitJoin | examples/Producer/Program.cs:86-90 | for a key without spaces, splitting key + " " + value gives back that key and value, however many spaces the value holds |
| LineParser.SplitUnique | examples/Producer/Program.cs:82-91 | the split is the only well-formed message whose joined line is the input |
| LineParser.IndexOfAfterKey | examples/Producer/Program.cs:86 | in key + " " + value with a space-free key, the first space is at the key's length |
| LineParser.SplitExamplesWithoutKey | examples/Producer/Program.cs:82-87 | "" and "value" split to no key with the line as value |
| LineParser.SplitExampleKeyValue | examples/Producer/Program.cs:86-90 | "key value" splits to key "key", value "value" |
| LineParser.SplitExampleValueWithSpaces | examples/Producer/Program.cs:89-90 | "key value with spaces" keeps the later spaces in the value |
| LineParser.SplitExampleEmptyKey | examples/Producer/Program.cs:86-89 | a leading space gives an empty key, not a missing one |
| Delivery.Render | examples/Producer/Program.cs:98-102 | the line starts with "delivered to: " exactly when the code is NoError; otherwise it starts with "failed to deliver message: "; reading it back gives the location or reason |
| Delivery.ReadBackText | examples/Producer/Program.cs:98-102 | both kinds of result line read back as the outcome they print |
| Delivery.ReadBackExact | examples/Producer/Program.cs:98-102 | a line that reads back as an outcome is that outcome's text, so no two outcomes print the same line |
| ProducerLoop.Loop | examples/Producer/Program.cs:61-103 | the loop stops at the first iteration where the flag is set, or the read is end of input or aborted; each earlier iteration read a line, published its split as publish number i, and printed the rendering of that report; a cancelled stop issues no read, and a terminating read prints nothing |
| ProducerLoop.Run | examples/Producer/Program.cs:33-103 | with other than two arguments the only output is the usage line and nothing is read or published; with two, the loop publishes to the second argument as its topic, stops at the first halting iteration, and issues no read when it stops on the cancel flag (one read per published line, plus the terminating read otherwise) |
| ProducerLoop.Interact | examples/Producer/Program.cs:33-103 | the while loop on the cancel flag, with a break on an aborted read or end of input, produces exactly the run `Run` describes |
| ProducerLoop.LoopBounded | examples/Producer/Program.cs:63-91 | at most one request per supplied line, and at most one read past them |
| ProducerProperties.LoopIgnoresOutcomes | examples/Producer/Program.cs:61-103 | from any iteration, the requests, the read count and the stop reason are the same for any two brokers |
| ProducerProperties.RunIgnoresOutcomes | examples/Producer/Program.cs:97-103 | a failed delivery never ends the loop: any two brokers see the same requests and stop reason, and get the same number of result lines |
| ProducerProperties.LoopReadsOnlyWhatItUses | examples/Producer/Program.cs:63-80 | two inputs that agree on the reads the loop issues give the same run |
| ProducerProperties.RunIgnoresLaterInput | examples/Producer/Program.cs:66-80 | input after the stopping read, or after the flag is seen, is never parsed or published; replacing it changes nothing |
| ProducerProperties.LoopCancelTruncates | examples/Producer/Program.cs:55-61 | from iteration i, the cancelled run's requests and lines are prefixes of the uncancelled run's, cut at exactly min(k - i, length of the uncancelled run) messages, or none when i > k |
| ProducerProperties.RunCancelTruncates | examples/Producer/Program.cs:55-61 | a flag seen from iteration k leaves a prefix of the uncancelled output with exactly min(k, its length) messages |
| ProducerProperties.CancelBeforeFirstRead | examples/Producer/Program.cs:55-63 | a flag set before the first prompt stops the program with no read, no publish and no result line |
| ProducerProperties.EveryLineReported | examples/Producer/Program.cs:61-103 | if no cancel arrives and the input is lines followed by its end, each line is published in order as its split, with one result line, and the loop ends on end of input |
| ProducerProperties.EveryFailureReported | examples/Producer/Program.cs:97-102 | a broker that always fails with a reason gets "failed to deliver message: " + reason once per line, and the loop still reaches end of input |
| ProducerProperties.EveryDeliveryReported | examples/Producer/Program.cs:97-102 | a broker that always delivers to one location gets "delivered to: " + location once per line |
| ProducerProperties.TwoLinesDelivered | examples/Producer/Program.cs:82-102 | lines "a 1" and "b 2" give two delivered lines in input order, publishing keys "a" and "b" with values "1" and "2" |
| ProducerProperties.SplitTwoLines | examples/Producer/Program.cs:82-91 | "a 1" splits to key "a", value "1", and "b 2" to key "b", value "2" |
| ProducerProperties.CancelNeverReset | examples/Producer/Program.cs:55-61 | once the cancel flag is seen it stays set; this holds by the shape of the cancel schedule, as the flag's only later write sets it to true |

## Left out

- The Kafka `Producer`, its configuration dictionary and the broker list
  (`args[0]`), and `ProduceAsync(...).Result` (lines 42-44, 97): these are
  an external client. An oracle function replaces them. It gives the report
  for the n-th publish and may depend on the whole request.
- The oracle is total: the publish call is assumed always to yield a
  delivery report (line 97). A synchronous exception from `ProduceAsync`,
  or an `AggregateException` from `.Result` on a faulted task, would end the
  program mid-loop with no result line for that input. Nothing in `Main`
  catches it, and the model has no such path.
- The UTF-8 `StringSerializer` (line 44): it is a library call and is not
  part of this model. Keys and values stay strings.
- The `CancelKeyPress` handler (lines 56-59) runs concurrently. Only its
  effect is modelled: a flag seen set from some iteration on. `e.Cancel`
  (which stops the process from ending) has no counterpart.
- The banner, the prompt `"> "`, and `producer.Name` (lines 46-53, 63) are
  console text and are not part of the output. The session records the
  result lines and the usage line only.
- What makes a read throw `IOException` (line 70) is not modelled. Reads are
  given as a finite sequence of tagged results, so an input that never ends
  is not modelled.
- `string.IndexOf(string)` compares by culture (line 86). The model looks
  for the first ordinal space character.
- The text of `TopicPartitionOffset` (line 100) comes from a library
  `ToString`. The report carries that text as its location.
- `ErrorCode` is an enum whose other values are not listed here. Any code
  other than 0 (`NoError`) counts as a failure.
- Disposing the producer at the end of the `using` block (lines 105-109) is
  about resource lifetime, not logic. The model has no flush or release
  step.
