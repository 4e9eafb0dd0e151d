/** The key/value split the console producer applies to every line the
    operator types: the text before the first space is the key, the text
    after it is the value, and a line without a space has no key. */
module LineParser {
  import opened Wrappers

  const Space: char := ' '

  /** A message to publish: an optional key and a value. */
  datatype Message = Message(key: Option<string>, value: string)

  /** `string.IndexOf`: the position of the first occurrence of `c`, or -1. */
  function IndexOf(s: string, c: char): (r: int)
    ensures -1 <= r < |s|
    ensures r == -1 <==> c !in s
    ensures r != -1 ==> s[r] == c && forall j :: 0 <= j < r ==> s[j] != c
  {
    if |s| == 0 then -1
    else if s[0] == c then 0
    else
      var t := IndexOf(s[1..], c);
      if t == -1 then -1 else t + 1
  }

  /** Splits an input line at its first space. */
  function Split(text: string): (m: Message)
    ensures Space !in text ==> m == Message(None, text)
    ensures Space in text ==>
              && m.key.Some?
              && Space !in m.key.value
              && m.key.value + [Space] + m.value == text
  {
    var index := IndexOf(text, Space);
    if index != -1 then
      assert text == text[..index] + [Space] + text[index + 1..];
      Message(Some(text[..index]), text[index + 1..])
    else
      Message(None, text)
  }

  /** A message Split can produce: a key has no space, and a keyless
      value has no space either. */
  predicate WellFormed(m: Message) {
    match m.key
    case Some(k) => Space !in k
    case None => Space !in m.value
  }

  /** The line an operator types to obtain message `m`. */
  function Join(m: Message): string {
    match m.key
    case Some(k) => k + [Space] + m.value
    case None => m.value
  }

  /** Every line is the join of its split, and the split is well formed. */
  lemma JoinSplit(text: string)
    ensures WellFormed(Split(text))
    ensures Join(Split(text)) == text
  {
  }

  /** The first space of `k + " " + v` is the one after `k` when `k` has
      no space, however many spaces `v` holds. */
  lemma {:induction false} IndexOfAfterKey(k: string, v: string)
    requires Space !in k
    ensures IndexOf(k + [Space] + v, Space) == |k|
  {
    var text := k + [Space] + v;
    assert text[|k|] == Space;
    assert forall j :: 0 <= j < |k| ==> text[j] == k[j];
  }

  /** Split recovers every well-formed message from the line that joins it. */
  lemma {:induction false} SplitJoin(m: Message)
    requires WellFormed(m)
    ensures Split(Join(m)) == m
  {
    match m.key
    case None =>
    case Some(k) =>
      var text := k + [Space] + m.value;
      IndexOfAfterKey(k, m.value);
      assert text[..|k|] == k;
      assert text[|k| + 1..] == m.value;
  }

  /** The split is the only well-formed message whose join is the line. */
  lemma {:induction false} SplitUnique(text: string, m: Message)
    requires WellFormed(m) && Join(m) == text
    ensures Split(text) == m
  {
    SplitJoin(m);
  }

  /** The worked examples of the console's usage hints: a line without a
      space is all value. */
  lemma SplitExamplesWithoutKey()
    ensures Split("") == Message(None, "")
    ensures Split("value") == Message(None, "value")
  {
    assert Space !in "value";
  }

  /** A line with one space: key before it, value after it. */
  lemma SplitExampleKeyValue()
    ensures Split("key value") == Message(Some("key"), "value")
  {
    var m := Message(Some("key"), "value");
    assert Join(m) == "key value";
    SplitJoin(m);
  }

  /** Only the first space separates; the value keeps the later ones. */
  lemma SplitExampleValueWithSpaces()
    ensures Split("key value with spaces") == Message(Some("key"), "value with spaces")
  {
    var m := Message(Some("key"), "value with spaces");
    assert Join(m) == "key value with spaces";
    SplitJoin(m);
  }

  /** A leading space gives an empty key, not a missing one. */
  lemma SplitExampleEmptyKey()
    ensures Split(" value") == Message(Some(""), "value")
  {
  }
}
