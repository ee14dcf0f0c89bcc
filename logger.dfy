/** A model of the debug-gated logging facade `Logger`.
  *
  * The platform log sink is modelled by its effect: every entry point returns
  * the sequence of records it hands to the sink, in call order. The build-time
  * debug flag is an explicit parameter. Messages and tags are sequences of
  * UTF-16 code units, which is what `String.length` and `subText` count;
  * a code unit may be half of a surrogate pair.
  */
module Logger {

  /** The five platform log levels the facade forwards to. */
  datatype Level = Verbose | Debug | Info | Warn | Error

  datatype Option<+T> = None | Some(value: T)

  /** One UTF-16 code unit, surrogates included. */
  newtype CodeUnit = x: int | 0 <= x < 0x1_0000

  /** A JVM Text: a sequence of UTF-16 code units. */
  type Text = seq<CodeUnit>

  /** A throwable is opaque to the logger: it is only passed through. */
  datatype Throwable = Throwable(id: nat)

  /** One call into the platform sink. */
  datatype Record = Record(level: Level, tag: Text, message: Text, throwable: Option<Throwable>)

  /** Tag used by the overloads that take no tag. */
  const DefaultTag: Text := [0x4D, 0x79, 0x41, 0x70, 0x70, 0x44, 0x65, 0x62, 0x75, 0x67]  // "MyAppDebug"

  /** Longest message the debug level hands to the sink in one call. */
  const MaxLogLength: nat := 4000

  function Min(a: int, b: int): int { if a <= b then a else b }

  /** The concatenation of a sequence of message parts, in order. */
  function Flatten(parts: seq<Text>): Text
  {
    if parts == [] then [] else parts[0] + Flatten(parts[1..])
  }

  /** The messages of a trace, in order. */
  function Messages(trace: seq<Record>): seq<Text>
  {
    seq(|trace|, k requires 0 <= k < |trace| => trace[k].message)
  }

  /** One record per message, all at `level` with `tag` and no throwable. */
  function Records(level: Level, tag: Text, messages: seq<Text>): seq<Record>
  {
    seq(|messages|, k requires 0 <= k < |messages| => Record(level, tag, messages[k], None))
  }

  /** The consecutive slices that `logInChunks` cuts `message` into:
    * slice k covers positions [k * MaxLogLength, min((k + 1) * MaxLogLength, |message|)).
    */
  function Chunks(message: Text): (chunks: seq<Text>)
    ensures Flatten(chunks) == message
    ensures forall k :: 0 <= k < |chunks| ==> 0 < |chunks[k]| <= MaxLogLength
    ensures forall k :: 0 <= k < |chunks| - 1 ==> |chunks[k]| == MaxLogLength
    decreases |message|
  {
    if message == [] then []
    else
      var end := Min(MaxLogLength, |message|);
      assert message[..end] + message[end..] == message;
      [message[..end]] + Chunks(message[end..])
  }

  /** Number of chunks is the ceiling of |message| / MaxLogLength. */
  lemma {:induction false} ChunksCount(message: Text)
    ensures |Chunks(message)| == (|message| + MaxLogLength - 1) / MaxLogLength
    decreases |message|
  {
    if message != [] {
      var end := Min(MaxLogLength, |message|);
      ChunksCount(message[end..]);
    }
  }

  /** Chunks is the only way to cut a message into non-empty slices of at most
    * MaxLogLength, every slice but the last being full.
    */
  lemma {:induction false} ChunksUnique(message: Text, chunks: seq<Text>)
    requires Flatten(chunks) == message
    requires forall k :: 0 <= k < |chunks| ==> 0 < |chunks[k]| <= MaxLogLength
    requires forall k :: 0 <= k < |chunks| - 1 ==> |chunks[k]| == MaxLogLength
    ensures chunks == Chunks(message)
    decreases |chunks|
  {
    if chunks != [] {
      var rest := chunks[1..];
      assert message == chunks[0] + Flatten(rest);
      if rest == [] {
        assert message == chunks[0];
      } else {
        assert Flatten(rest) == rest[0] + Flatten(rest[1..]);
        assert |message| > MaxLogLength;
        assert message[..MaxLogLength] == chunks[0];
        assert message[MaxLogLength..] == Flatten(rest);
        ChunksUnique(Flatten(rest), rest);
        assert chunks == [chunks[0]] + rest;
      }
    }
  }

  /** Appending a final slice to a prefix made of whole chunks adds exactly that slice. */
  lemma {:induction false} ChunksSnoc(prefix: Text, chunk: Text)
    requires |prefix| % MaxLogLength == 0
    requires 0 < |chunk| <= MaxLogLength
    ensures Chunks(prefix + chunk) == Chunks(prefix) + [chunk]
    decreases |prefix|
  {
    if prefix == [] {
      assert prefix + chunk == chunk;
      assert chunk[..|chunk|] == chunk && chunk[|chunk|..] == [];
      assert Chunks(chunk) == [chunk] + Chunks([]);
    } else {
      var whole := prefix + chunk;
      assert whole[..MaxLogLength] == prefix[..MaxLogLength];
      assert whole[MaxLogLength..] == prefix[MaxLogLength..] + chunk;
      ChunksSnoc(prefix[MaxLogLength..], chunk);
    }
  }

  lemma MessagesOfRecords(level: Level, tag: Text, messages: seq<Text>)
    ensures Messages(Records(level, tag, messages)) == messages
  {
  }

  lemma RecordsSnoc(level: Level, tag: Text, messages: seq<Text>, last: Text)
    ensures Records(level, tag, messages + [last]) == Records(level, tag, messages) + [Record(level, tag, last, None)]
  {
  }

  /** `logInChunks`: hands `message` to the sink of `level` in consecutive
    * slices of at most MaxLogLength code units.
    */
  method LogInChunks(level: Level, tag: Text, message: Text) returns (emitted: seq<Record>)
    ensures emitted == Records(level, tag, Chunks(message))
    ensures Flatten(Messages(emitted)) == message
  {
    emitted := [];
    var i := 0;
    while i < |message|
      invariant 0 <= i && i % MaxLogLength == 0
      invariant emitted == Records(level, tag, Chunks(message[..Min(i, |message|)]))
      decreases |message| - i
    {
      var end := Min(i + MaxLogLength, |message|);
      var chunk := message[i..end];
      assert message[..end] == message[..i] + chunk;
      ChunksSnoc(message[..i], chunk);
      RecordsSnoc(level, tag, Chunks(message[..i]), chunk);
      emitted := emitted + [Record(level, tag, chunk, None)];
      i := i + MaxLogLength;
      assert Min(i, |message|) == end;
    }
    assert message[..|message|] == message;
    MessagesOfRecords(level, tag, Chunks(message));
  }

  /** `v(tag, message)` */
  function V(debug: bool, tag: Text, message: Text): (emitted: seq<Record>)
    ensures |emitted| == (if debug then 1 else 0)
    ensures forall r <- emitted :: r == Record(Verbose, tag, message, None)
  {
    if debug then [Record(Verbose, tag, message, None)] else []
  }

  /** `v(message)` */
  function VDefault(debug: bool, message: Text): (emitted: seq<Record>)
    ensures |emitted| == (if debug then 1 else 0)
    ensures forall r <- emitted :: r == Record(Verbose, DefaultTag, message, None)
  {
    V(debug, DefaultTag, message)
  }

  /** `d(tag, message)`: the only level that chunks long messages.
    * With the flag on, the records reassemble the message and each fits the sink.
    */
  function D(debug: bool, tag: Text, message: Text): (emitted: seq<Record>)
    ensures !debug ==> emitted == []
    ensures debug ==> |emitted| >= 1 && Flatten(Messages(emitted)) == message
    ensures debug ==> forall k :: 0 <= k < |emitted| ==>
      emitted[k] == Record(Debug, tag, emitted[k].message, None) && |emitted[k].message| <= MaxLogLength
  {
    if !debug then []
    else if |message| > MaxLogLength then
      MessagesOfRecords(Debug, tag, Chunks(message));
      Records(Debug, tag, Chunks(message))
    else
      assert Flatten([message]) == message + Flatten([]);
      [Record(Debug, tag, message, None)]
  }

  /** `d(tag, message)` as written, calling the loop of `logInChunks` for a
    * long message; it emits exactly what `D` describes.
    */
  method DByLoop(debug: bool, tag: Text, message: Text) returns (emitted: seq<Record>)
    ensures emitted == D(debug, tag, message)
  {
    emitted := [];
    if debug {
      if |message| > MaxLogLength {
        emitted := LogInChunks(Debug, tag, message);
      } else {
        emitted := [Record(Debug, tag, message, None)];
      }
    }
  }

  /** `d(message)` */
  function DDefault(debug: bool, message: Text): (emitted: seq<Record>)
    ensures !debug ==> emitted == []
    ensures debug ==> Flatten(Messages(emitted)) == message
    ensures forall r <- emitted :: r.level == Debug && r.tag == DefaultTag && r.throwable == None
  {
    D(debug, DefaultTag, message)
  }

  /** `i(tag, message)` */
  function I(debug: bool, tag: Text, message: Text): (emitted: seq<Record>)
    ensures |emitted| == (if debug then 1 else 0)
    ensures forall r <- emitted :: r == Record(Info, tag, message, None)
  {
    if debug then [Record(Info, tag, message, None)] else []
  }

  /** `i(message)` */
  function IDefault(debug: bool, message: Text): (emitted: seq<Record>)
    ensures |emitted| == (if debug then 1 else 0)
    ensures forall r <- emitted :: r == Record(Info, DefaultTag, message, None)
  {
    I(debug, DefaultTag, message)
  }

  /** `w(tag, message)` */
  function W(debug: bool, tag: Text, message: Text): (emitted: seq<Record>)
    ensures |emitted| == (if debug then 1 else 0)
    ensures forall r <- emitted :: r == Record(Warn, tag, message, None)
  {
    if debug then [Record(Warn, tag, message, None)] else []
  }

  /** `w(message)` */
  function WDefault(debug: bool, message: Text): (emitted: seq<Record>)
    ensures |emitted| == (if debug then 1 else 0)
    ensures forall r <- emitted :: r == Record(Warn, DefaultTag, message, None)
  {
    W(debug, DefaultTag, message)
  }

  /** `e(tag, message, throwable = null)`; a null throwable is `None`. */
  function E(debug: bool, tag: Text, message: Text, throwable: Option<Throwable> := None): (emitted: seq<Record>)
    ensures |emitted| == (if debug then 1 else 0)
    ensures forall r <- emitted :: r == Record(Error, tag, message, throwable)
  {
    if debug then [Record(Error, tag, message, throwable)] else []
  }

  /** `e(message, throwable = null)` */
  function EDefault(debug: bool, message: Text, throwable: Option<Throwable> := None): (emitted: seq<Record>)
    ensures |emitted| == (if debug then 1 else 0)
    ensures forall r <- emitted :: r == Record(Error, DefaultTag, message, throwable)
  {
    E(debug, DefaultTag, message, throwable)
  }

  /** In a release build no entry point reaches the sink. */
  lemma ReleaseIsSilent(tag: Text, message: Text, throwable: Option<Throwable>)
    ensures V(false, tag, message) == [] && VDefault(false, message) == []
    ensures D(false, tag, message) == [] && DDefault(false, message) == []
    ensures I(false, tag, message) == [] && IDefault(false, message) == []
    ensures W(false, tag, message) == [] && WDefault(false, message) == []
    ensures E(false, tag, message, throwable) == [] && EDefault(false, message, throwable) == []
  {
  }

  /** A debug message that fits is forwarded once, unchanged. */
  lemma DebugShortMessage(tag: Text, message: Text)
    requires |message| <= MaxLogLength
    ensures D(true, tag, message) == [Record(Debug, tag, message, None)]
  {
  }

  /** A debug message that does not fit is emitted as ceil(L / MaxLogLength) >= 2
    * DEBUG records with the caller's tag, full slices first, reassembling the message.
    */
  lemma DebugLongMessage(tag: Text, message: Text)
    requires |message| > MaxLogLength
    ensures var emitted := D(true, tag, message);
      && |emitted| == (|message| + MaxLogLength - 1) / MaxLogLength
      && |emitted| >= 2
      && Flatten(Messages(emitted)) == message
      && (forall k :: 0 <= k < |emitted| ==>
            emitted[k].level == Debug && emitted[k].tag == tag && emitted[k].throwable == None
            && 0 < |emitted[k].message| <= MaxLogLength)
      && (forall k :: 0 <= k < |emitted| - 1 ==> |emitted[k].message| == MaxLogLength)
  {
    ChunksCount(message);
  }

  /** 4001 code units at DEBUG: one full slice, then a single code unit. */
  lemma DebugExample4001(tag: Text, c: CodeUnit)
    ensures var message := seq(4001, _ => c);
      D(true, tag, message) == [Record(Debug, tag, seq(4000, _ => c), None), Record(Debug, tag, [c], None)]
  {
    var message := seq(4001, _ => c);
    assert message[..4000] == seq(4000, _ => c);
    assert message[4000..] == [c];
    assert [c][..1] == [c] && [c][1..] == [];
    assert Chunks([c]) == [[c]] + Chunks([]);
  }

  /** With the flag on, VERBOSE, INFO, WARN and ERROR forward one record with the
    * message unchanged, however long it is; ERROR passes its throwable through.
    */
  lemma OtherLevelsNeverChunk(tag: Text, message: Text, throwable: Option<Throwable>)
    ensures V(true, tag, message) == [Record(Verbose, tag, message, None)]
    ensures I(true, tag, message) == [Record(Info, tag, message, None)]
    ensures W(true, tag, message) == [Record(Warn, tag, message, None)]
    ensures E(true, tag, message, throwable) == [Record(Error, tag, message, throwable)]
  {
  }

  /** Each tag-less overload is the tagged form with DefaultTag, whose code
    * units spell "MyAppDebug"; `e` without a throwable is `e` with `None`.
    */
  lemma DefaultTagOverloads(debug: bool, message: Text, throwable: Option<Throwable>)
    ensures |DefaultTag| == |"MyAppDebug"|
    ensures forall k :: 0 <= k < |DefaultTag| ==> DefaultTag[k] as int == "MyAppDebug"[k] as int
    ensures VDefault(debug, message) == V(debug, DefaultTag, message)
    ensures DDefault(debug, message) == D(debug, DefaultTag, message)
    ensures IDefault(debug, message) == I(debug, DefaultTag, message)
    ensures WDefault(debug, message) == W(debug, DefaultTag, message)
    ensures EDefault(debug, message, throwable) == E(debug, DefaultTag, message, throwable)
    ensures EDefault(debug, message) == E(debug, DefaultTag, message, None)
    ensures E(debug, DefaultTag, message) == E(debug, DefaultTag, message, None)
  {
  }
}
