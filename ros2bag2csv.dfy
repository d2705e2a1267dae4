/**
 * The converter's driver: the message-type guess for custom message files,
 * the seven-way dispatch on the wire type, the per-topic, per-message loop
 * that builds the table, and the name of the CSV file it is written to.
 */
module Ros2Bag2Csv {
  import opened Wrappers
  import opened Strings
  import opened Messages
  import opened Rows
  import opened MsgParser

  // ---------------------------------------------------------------------------
  // guess_msgtype

  /**
   * `PurePath(name).with_suffix("")`: drops the suffix that starts at the last
   * '.', provided that '.' is neither the first nor the last character.
   */
  function Stem(name: string): (r: string)
    ensures |r| <= |name| && r == name[..|r|]
    ensures |r| < |name| ==>
      && 0 < |r| && |r| + 1 < |name|
      && name[|r|] == '.' && '.' !in name[|r| + 1..]
    ensures |r| == |name| ==>
      forall i :: 0 < i < |name| - 1 && name[i] == '.' ==> '.' in name[i + 1..]
  {
    var i := RFind(name, '.');
    if 0 < i < |name| - 1 then name[..i] else name
  }

  /**
   * `guess_msgtype` on the components of a path: the last three components
   * (`relative_to(path.parents[2])`, which fails with fewer than three), the
   * last one without its suffix, and "msg" inserted before it unless one of the
   * three is already "msg".
   */
  function GuessMsgtype(parts: seq<string>): (r: Option<seq<string>>)
    ensures r.None? <==> |parts| < 3
    ensures r.Some? ==>
      var n, name := |parts|, r.value;
      && 3 <= |name| <= 4
      && "msg" in name
      && name[..2] == parts[n - 3..n - 1]
      && name[|name| - 1] == Stem(parts[n - 1])
      && (|name| == 3 <==> "msg" in [parts[n - 3], parts[n - 2], Stem(parts[n - 1])])
      && (|name| == 4 <==> "msg" !in [parts[n - 3], parts[n - 2], Stem(parts[n - 1])])
      && (|name| == 4 ==> name[2] == "msg")
  {
    if |parts| < 3 then None
    else
      var n := |parts|;
      var name := [parts[n - 3], parts[n - 2], Stem(parts[n - 1])];
      if "msg" !in name then Some(name[..2] + ["msg"] + [name[2]]) else Some(name)
  }

  // ---------------------------------------------------------------------------
  // The CSV file name

  /** `bagfile.rstrip("/") + ".csv"`: every trailing '/' is dropped before the extension. */
  function CsvPath(bagfile: string): (r: string)
    ensures |r| >= 4 && r[|r| - 4..] == ".csv"
    ensures var base := r[..|r| - 4];
      && |base| <= |bagfile| && base == bagfile[..|base|]
      && (forall i :: |base| <= i < |bagfile| ==> bagfile[i] == '/')
      && (base == [] || base[|base| - 1] != '/')
  {
    RStrip(bagfile, '/') + ".csv"
  }

  /** A trailing '/' on the bag path does not change the CSV file name. */
  lemma CsvPathTrailingSlash(bagfile: string)
    ensures CsvPath(bagfile + "/") == CsvPath(bagfile)
  {
    var s := bagfile + "/";
    assert s[..|s| - 1] == bagfile;
  }

  // ---------------------------------------------------------------------------
  // Dispatch on the wire type

  /** What the if/elif chain does with one message. */
  datatype Flattened =
    | Parsed(row: Row)
    | Unsupported(msgType: string)
    | Failed(error: ParseError)

  /** The two foreign functions the converter calls, taken as parameters. */
  datatype Externals = Externals(
    euler: Quaternion -> EulerAngles,   // tf_transformations.euler_from_quaternion
    localTime: int -> Value)            // datetime.fromtimestamp(timestamp / 1e9)

  /**
   * The seven-way dispatch: a supported wire type goes to its parser; any other
   * gives `Unsupported` with that type's name. Only a Float32MultiArray whose
   * layout is not one-dimensional fails. Every row keeps the key discipline.
   */
  function Flatten(m: Msg, topicName: string, ext: Externals): (r: Flattened)
    ensures r.Unsupported? <==> MsgType(m) !in SupportedTypes
    ensures r.Unsupported? ==> r.msgType == MsgType(m)
    ensures r.Failed? <==> m.Float32MultiArrayMsg? && |m.multiArray.layout.dim| != 1
    ensures r.Parsed? ==> WellKeyed(r.row, topicName)
  {
    var msgType := MsgType(m);
    if msgType == BoolType then
      BoolWellKeyed(m.boolData, topicName);
      Parsed(ParseBool(m.boolData, topicName))
    else if msgType == Vector3Type then
      Vector3WellKeyed(m.vector3, topicName);
      Parsed(ParseVector3(m.vector3, topicName))
    else if msgType == PointType then
      PointWellKeyed(m.point, topicName);
      Parsed(ParsePoint(m.point, topicName))
    else if msgType == Float32Type then
      Float32WellKeyed(m.float32Data, topicName);
      Parsed(ParseFloat32(m.float32Data, topicName))
    else if msgType == Float32MultiArrayType then
      match ParseFloat32MultiArray(m.multiArray, topicName)
      case Success(row) =>
        Float32MultiArrayWellKeyed(m.multiArray, topicName);
        Parsed(row)
      case Failure(e) => Failed(e)
    else if msgType == PoseType then
      PoseWellKeyed(m.pose, topicName, ext.euler);
      Parsed(ParsePose(m.pose, topicName, ext.euler))
    else if msgType == PoseStampedType then
      PoseStampedWellKeyed(m.poseStamped, topicName, ext.euler);
      Parsed(ParsePoseStamped(m.poseStamped, topicName, ext.euler))
    else
      Unsupported(msgType)
  }

  /** Each supported wire type reaches its own parser; any other is reported with its name. */
  lemma DispatchRoutes(m: Msg, topicName: string, ext: Externals)
    ensures m.BoolMsg? ==> Flatten(m, topicName, ext) == Parsed(ParseBool(m.boolData, topicName))
    ensures m.Vector3Msg? ==> Flatten(m, topicName, ext) == Parsed(ParseVector3(m.vector3, topicName))
    ensures m.PointMsg? ==> Flatten(m, topicName, ext) == Parsed(ParsePoint(m.point, topicName))
    ensures m.Float32Msg? ==> Flatten(m, topicName, ext) == Parsed(ParseFloat32(m.float32Data, topicName))
    ensures m.Float32MultiArrayMsg? && |m.multiArray.layout.dim| == 1 ==>
      Flatten(m, topicName, ext) == Parsed(ParseFloat32MultiArray(m.multiArray, topicName).value)
    ensures m.PoseMsg? ==> Flatten(m, topicName, ext) == Parsed(ParsePose(m.pose, topicName, ext.euler))
    ensures m.PoseStampedMsg? ==>
      Flatten(m, topicName, ext) == Parsed(ParsePoseStamped(m.poseStamped, topicName, ext.euler))
    ensures m.OtherMsg? ==> Flatten(m, topicName, ext) == Unsupported(m.typeName)
  {
  }

  // ---------------------------------------------------------------------------
  // The table

  /** A message as the reader yields it: its receive time in nanoseconds and its decoded content. */
  datatype Entry = Entry(timestamp: int, msg: Msg)

  /**
   * The bag reader, per topic: the messages of all its connections in reader
   * order. A topic that is not a key has no connection.
   */
  type Reader = map<string, seq<Entry>>

  /** The two lines the converter prints while it builds the table. */
  datatype Diagnostic =
    | TopicNotFound(topic: string)
    | UnsupportedMsgType(msgType: string, topic: string)

  /**
   * The state of a run: the rows appended so far, the diagnostics printed so far,
   * and the assertion that stopped the run, if one did.
   */
  datatype Outcome = Outcome(table: seq<Row>, log: seq<Diagnostic>, failure: Option<ParseError>)

  const Start := Outcome([], [], None)

  /** `{"time": time, "timestamp": timestamp}` */
  function TimeDict(timestamp: int, ext: Externals): (r: Row)
    ensures Keys(r) == ["time", "timestamp"]
    ensures Get(r, "time") == Some(ext.localTime(timestamp))
    ensures Get(r, "timestamp") == Some(IntValue(timestamp))
  {
    FromPairs([("time", ext.localTime(timestamp)), ("timestamp", IntValue(timestamp))])
  }

  /**
   * `time_dict | parse_x(msg, topic_name)`: no parser key can be "time" or
   * "timestamp", so the row is the two time columns followed by the parser's row.
   */
  function MessageRow(timestamp: int, parsed: Row, topicName: string, ext: Externals): (r: Row)
    requires WellKeyed(parsed, topicName)
    ensures r == [("time", ext.localTime(timestamp)), ("timestamp", IntValue(timestamp))] + parsed
    ensures Keys(r) == ["time", "timestamp"] + Keys(parsed)
    ensures Distinct(Keys(r))
  {
    var time := [("time", ext.localTime(timestamp)), ("timestamp", IntValue(timestamp))];
    assert Keys(time) == ["time", "timestamp"];
    TimeKeysDisjoint(parsed, topicName);
    UnionConcat(time, parsed);
    Union(TimeDict(timestamp, ext), parsed)
  }

  lemma TimeKeysDisjoint(parsed: Row, topicName: string)
    requires WellKeyed(parsed, topicName)
    ensures Distinct(["time", "timestamp"] + Keys(parsed))
  {
    var ks := ["time", "timestamp"] + Keys(parsed);
    forall i, j | 0 <= i < j < |ks| ensures ks[i] != ks[j] {
      if i < 2 && 2 <= j {
        assert ks[j] in Keys(parsed);
        assert '.' in ks[j];
      }
    }
  }

  /** `b` after `a`; once a run has stopped nothing more happens. */
  function Then(a: Outcome, b: Outcome): Outcome {
    if a.failure.Some? then a else Outcome(a.table + b.table, a.log + b.log, b.failure)
  }

  /** One message of topic `topicName`: a row, a diagnostic, or the failed assertion. */
  function Step(topicName: string, e: Entry, ext: Externals): Outcome {
    match Flatten(e.msg, topicName, ext)
    case Parsed(row) => Outcome([MessageRow(e.timestamp, row, topicName, ext)], [], None)
    case Unsupported(t) => Outcome([], [UnsupportedMsgType(t, topicName)], None)
    case Failed(err) => Outcome([], [], Some(err))
  }

  /** The messages of one topic, in reader order. */
  function RunMessages(topicName: string, entries: seq<Entry>, ext: Externals): Outcome
    decreases |entries|
  {
    if |entries| == 0 then Start
    else Then(RunMessages(topicName, entries[..|entries| - 1], ext), Step(topicName, entries[|entries| - 1], ext))
  }

  /** One target topic: skipped with a diagnostic when it has no connection. */
  function RunTopic(topicName: string, reader: Reader, ext: Externals): Outcome {
    if topicName !in reader then Outcome([], [TopicNotFound(topicName)], None)
    else RunMessages(topicName, reader[topicName], ext)
  }

  /** The target topics, in list order. */
  function RunTopics(topics: seq<string>, reader: Reader, ext: Externals): Outcome
    decreases |topics|
  {
    if |topics| == 0 then Start
    else Then(RunTopics(topics[..|topics| - 1], reader, ext), RunTopic(topics[|topics| - 1], reader, ext))
  }

  lemma ThenAssociative(a: Outcome, b: Outcome, c: Outcome)
    ensures Then(Then(a, b), c) == Then(a, Then(b, c))
  {
  }

  lemma ThenStart(a: Outcome)
    ensures Then(a, Start) == a
    ensures Then(Start, a) == a
  {
  }

  /**
   * The nested loop of the converter. The table is a sequence of rows to which
   * each supported message appends one; the assertion of
   * `parse_float32_multiarray` ends the run where it fails.
   */
  method Convert(targetTopics: seq<string>, reader: Reader, ext: Externals) returns (outcome: Outcome)
    ensures outcome == RunTopics(targetTopics, reader, ext)
  {
    var table: seq<Row> := [];
    var log: seq<Diagnostic> := [];
    var i := 0;
    while i < |targetTopics|
      invariant 0 <= i <= |targetTopics|
      invariant RunTopics(targetTopics[..i], reader, ext) == Outcome(table, log, None)
    {
      var topicName := targetTopics[i];
      RunTopicsSnoc(targetTopics, i, reader, ext);
      if topicName !in reader {
        log := log + [TopicNotFound(topicName)];
      } else {
        outcome := ConvertTopic(topicName, reader[topicName], ext, table, log);
        if outcome.failure.Some? {
          RunTopicsStopped(targetTopics, i + 1, reader, ext);
          return;
        }
        table, log := outcome.table, outcome.log;
      }
      i := i + 1;
    }
    assert targetTopics[..i] == targetTopics;
    outcome := Outcome(table, log, None);
  }

  /**
   * The inner loop, over the messages of one connected topic, continuing the
   * table and log built so far.
   */
  method ConvertTopic(topicName: string, entries: seq<Entry>, ext: Externals, table0: seq<Row>, log0: seq<Diagnostic>)
    returns (outcome: Outcome)
    ensures outcome == Then(Outcome(table0, log0, None), RunMessages(topicName, entries, ext))
  {
    var table, log := table0, log0;
    var j := 0;
    while j < |entries|
      invariant 0 <= j <= |entries|
      invariant Then(Outcome(table0, log0, None), RunMessages(topicName, entries[..j], ext)) == Outcome(table, log, None)
    {
      var e := entries[j];
      RunMessagesSnoc(topicName, entries, j, ext);
      ThenAssociative(Outcome(table0, log0, None), RunMessages(topicName, entries[..j], ext), Step(topicName, e, ext));
      StepAfter(table, log, topicName, e, ext);
      match Flatten(e.msg, topicName, ext) {
        case Parsed(row) =>
          table := table + [MessageRow(e.timestamp, row, topicName, ext)];
        case Unsupported(msgType) =>
          log := log + [UnsupportedMsgType(msgType, topicName)];
        case Failed(err) =>
          outcome := Outcome(table, log, Some(err));
          RunMessagesStopped(topicName, entries, j + 1, ext);
          return;
      }
      j := j + 1;
    }
    assert entries[..j] == entries;
    outcome := Outcome(table, log, None);
  }

  /** What one message does to a run that has not stopped. */
  lemma StepAfter(table: seq<Row>, log: seq<Diagnostic>, topicName: string, e: Entry, ext: Externals)
    ensures Then(Outcome(table, log, None), Step(topicName, e, ext)) ==
      match Flatten(e.msg, topicName, ext)
      case Parsed(row) => Outcome(table + [MessageRow(e.timestamp, row, topicName, ext)], log, None)
      case Unsupported(t) => Outcome(table, log + [UnsupportedMsgType(t, topicName)], None)
      case Failed(err) => Outcome(table, log, Some(err))
  {
  }

  lemma RunTopicsSnoc(topics: seq<string>, i: nat, reader: Reader, ext: Externals)
    requires i < |topics|
    ensures RunTopics(topics[..i + 1], reader, ext) == Then(RunTopics(topics[..i], reader, ext), RunTopic(topics[i], reader, ext))
  {
    assert topics[..i + 1][..i] == topics[..i];
  }

  lemma RunMessagesSnoc(topicName: string, entries: seq<Entry>, j: nat, ext: Externals)
    requires j < |entries|
    ensures RunMessages(topicName, entries[..j + 1], ext)
         == Then(RunMessages(topicName, entries[..j], ext), Step(topicName, entries[j], ext))
  {
    assert entries[..j + 1][..j] == entries[..j];
  }

  /** A run that has stopped after the first `i` topics stays stopped. */
  lemma {:induction false} RunTopicsStopped(topics: seq<string>, i: nat, reader: Reader, ext: Externals)
    requires i <= |topics|
    requires RunTopics(topics[..i], reader, ext).failure.Some?
    ensures RunTopics(topics, reader, ext) == RunTopics(topics[..i], reader, ext)
    decreases |topics| - i
  {
    if i < |topics| {
      assert topics[..i + 1][..i] == topics[..i];
      RunTopicsStopped(topics, i + 1, reader, ext);
    } else {
      assert topics[..i] == topics;
    }
  }

  /** A topic whose run has stopped after its first `j` messages stays stopped. */
  lemma {:induction false} RunMessagesStopped(topicName: string, entries: seq<Entry>, j: nat, ext: Externals)
    requires j <= |entries|
    requires RunMessages(topicName, entries[..j], ext).failure.Some?
    ensures RunMessages(topicName, entries, ext) == RunMessages(topicName, entries[..j], ext)
    decreases |entries| - j
  {
    if j < |entries| {
      assert entries[..j + 1][..j] == entries[..j];
      RunMessagesStopped(topicName, entries, j + 1, ext);
    } else {
      assert entries[..j] == entries;
    }
  }

  // ---------------------------------------------------------------------------
  // What the loop promises about the table

  /** Running two lists of topics one after the other is running their concatenation. */
  lemma {:induction false} RunTopicsAppend(a: seq<string>, b: seq<string>, reader: Reader, ext: Externals)
    ensures RunTopics(a + b, reader, ext) == Then(RunTopics(a, reader, ext), RunTopics(b, reader, ext))
    decreases |b|
  {
    if |b| == 0 {
      assert a + b == a;
      ThenStart(RunTopics(a, reader, ext));
    } else {
      var b', t := b[..|b| - 1], b[|b| - 1];
      assert (a + b)[..|a + b| - 1] == a + b';
      RunTopicsAppend(a, b', reader, ext);
      ThenAssociative(RunTopics(a, reader, ext), RunTopics(b', reader, ext), RunTopic(t, reader, ext));
    }
  }

  lemma {:induction false} RunMessagesAppend(topicName: string, a: seq<Entry>, b: seq<Entry>, ext: Externals)
    ensures RunMessages(topicName, a + b, ext) ==
      Then(RunMessages(topicName, a, ext), RunMessages(topicName, b, ext))
    decreases |b|
  {
    if |b| == 0 {
      assert a + b == a;
      ThenStart(RunMessages(topicName, a, ext));
    } else {
      var b', e := b[..|b| - 1], b[|b| - 1];
      assert (a + b)[..|a + b| - 1] == a + b';
      RunMessagesAppend(topicName, a, b', ext);
      ThenAssociative(RunMessages(topicName, a, ext), RunMessages(topicName, b', ext), Step(topicName, e, ext));
    }
  }

  /** The rows one topic's messages contribute: one per parsed message, in reader order. */
  function MessageRows(topicName: string, entries: seq<Entry>, ext: Externals): seq<Row> {
    ConcatMap(RowsOf(topicName, ext), entries)
  }

  /** The row a message contributes, if its type is supported and it parses. */
  function EntryRows(topicName: string, e: Entry, ext: Externals): seq<Row> {
    match Flatten(e.msg, topicName, ext)
    case Parsed(row) => [MessageRow(e.timestamp, row, topicName, ext)]
    case _ => []
  }

  function RowsOf(topicName: string, ext: Externals): Entry -> seq<Row> {
    e => EntryRows(topicName, e, ext)
  }

  /** `f(xs[0]) + f(xs[1]) + ...` */
  function ConcatMap<T, U>(f: T -> seq<U>, xs: seq<T>): seq<U>
    decreases |xs|
  {
    if |xs| == 0 then [] else f(xs[0]) + ConcatMap(f, xs[1..])
  }

  lemma {:induction false} ConcatMapAppend<T, U>(f: T -> seq<U>, a: seq<T>, b: seq<T>)
    ensures ConcatMap(f, a + b) == ConcatMap(f, a) + ConcatMap(f, b)
    decreases |a|
  {
    if |a| == 0 {
      assert a + b == b;
    } else {
      assert (a + b)[0] == a[0] && (a + b)[1..] == a[1..] + b;
      ConcatMapAppend(f, a[1..], b);
    }
  }

  /** The expected table: the connected target topics in list order, each with its rows. */
  function ExpectedTable(topics: seq<string>, reader: Reader, ext: Externals): seq<Row>
    decreases |topics|
  {
    if |topics| == 0 then []
    else
      var first := if topics[0] in reader then MessageRows(topics[0], reader[topics[0]], ext) else [];
      first + ExpectedTable(topics[1..], reader, ext)
  }

  lemma {:induction false} ExpectedTableAppend(a: seq<string>, b: seq<string>, reader: Reader, ext: Externals)
    ensures ExpectedTable(a + b, reader, ext) == ExpectedTable(a, reader, ext) + ExpectedTable(b, reader, ext)
    decreases |a|
  {
    if |a| == 0 {
      assert a + b == b;
    } else {
      assert (a + b)[0] == a[0] && (a + b)[1..] == a[1..] + b;
      ExpectedTableAppend(a[1..], b, reader, ext);
    }
  }

  /** A completed run of one topic holds exactly that topic's rows, in reader order. */
  lemma {:induction false} RunMessagesTable(topicName: string, entries: seq<Entry>, ext: Externals)
    requires RunMessages(topicName, entries, ext).failure.None?
    ensures RunMessages(topicName, entries, ext).table == MessageRows(topicName, entries, ext)
    decreases |entries|
  {
    if |entries| > 0 {
      var init, e := entries[..|entries| - 1], entries[|entries| - 1];
      assert init + [e] == entries;
      RunMessagesTable(topicName, init, ext);
      ConcatMapAppend(RowsOf(topicName, ext), init, [e]);
      assert [e][1..] == [];
    }
  }

  /**
   * Row order is topic-major: a completed run's table is the rows of each
   * connected target topic in list order, each in reader order.
   */
  lemma {:induction false} TableIsTopicMajor(topics: seq<string>, reader: Reader, ext: Externals)
    requires RunTopics(topics, reader, ext).failure.None?
    ensures RunTopics(topics, reader, ext).table == ExpectedTable(topics, reader, ext)
    decreases |topics|
  {
    if |topics| > 0 {
      var init, t := topics[..|topics| - 1], topics[|topics| - 1];
      assert init + [t] == topics;
      TableIsTopicMajor(init, reader, ext);
      ExpectedTableAppend(init, [t], reader, ext);
      assert [t][1..] == [];
      if t in reader {
        RunMessagesTable(t, reader[t], ext);
      }
    }
  }

  /** A Float32MultiArray whose layout does not have exactly one dimension. */
  predicate BadArray(m: Msg) {
    m.Float32MultiArrayMsg? && |m.multiArray.layout.dim| != 1
  }

  predicate IsSupported(e: Entry) {
    MsgType(e.msg) in SupportedTypes
  }

  /** The number of elements of `xs` that satisfy `p`. */
  function CountWhere<T>(p: T -> bool, xs: seq<T>): nat
    decreases |xs|
  {
    if |xs| == 0 then 0 else (if p(xs[0]) then 1 else 0) + CountWhere(p, xs[1..])
  }

  lemma {:induction false} CountWhereAppend<T>(p: T -> bool, a: seq<T>, b: seq<T>)
    ensures CountWhere(p, a + b) == CountWhere(p, a) + CountWhere(p, b)
    decreases |a|
  {
    if |a| == 0 {
      assert a + b == b;
    } else {
      assert (a + b)[0] == a[0] && (a + b)[1..] == a[1..] + b;
      CountWhereAppend(p, a[1..], b);
    }
  }

  /** The number of messages of a supported type on the connected target topics. */
  function SupportedCount(topics: seq<string>, reader: Reader): nat
    decreases |topics|
  {
    if |topics| == 0 then 0
    else
      (if topics[0] in reader then CountWhere(IsSupported, reader[topics[0]]) else 0)
      + SupportedCount(topics[1..], reader)
  }

  lemma {:induction false} SupportedCountAppend(a: seq<string>, b: seq<string>, reader: Reader)
    ensures SupportedCount(a + b, reader) == SupportedCount(a, reader) + SupportedCount(b, reader)
    decreases |a|
  {
    if |a| == 0 {
      assert a + b == b;
    } else {
      assert (a + b)[0] == a[0] && (a + b)[1..] == a[1..] + b;
      SupportedCountAppend(a[1..], b, reader);
    }
  }

  lemma {:induction false} RunMessagesCount(topicName: string, entries: seq<Entry>, ext: Externals)
    requires RunMessages(topicName, entries, ext).failure.None?
    ensures |RunMessages(topicName, entries, ext).table| == CountWhere(IsSupported, entries)
    decreases |entries|
  {
    if |entries| > 0 {
      var init, e := entries[..|entries| - 1], entries[|entries| - 1];
      assert init + [e] == entries;
      RunMessagesCount(topicName, init, ext);
      CountWhereAppend(IsSupported, init, [e]);
      assert [e][1..] == [];
    }
  }

  /** A completed run has one row per message of a supported type on a connected target topic. */
  lemma {:induction false} RowCount(topics: seq<string>, reader: Reader, ext: Externals)
    requires RunTopics(topics, reader, ext).failure.None?
    ensures |RunTopics(topics, reader, ext).table| == SupportedCount(topics, reader)
    decreases |topics|
  {
    if |topics| > 0 {
      var init, t := topics[..|topics| - 1], topics[|topics| - 1];
      assert init + [t] == topics;
      RowCount(init, reader, ext);
      SupportedCountAppend(init, [t], reader);
      assert [t][1..] == [];
      if t in reader {
        RunMessagesCount(t, reader[t], ext);
      }
    }
  }

  lemma StepFailure(topicName: string, e: Entry, ext: Externals)
    ensures Step(topicName, e, ext).failure.Some? <==> BadArray(e.msg)
  {
    var f := Flatten(e.msg, topicName, ext);
    assert f.Failed? <==> BadArray(e.msg);
  }

  /** Each diagnostic names the topic whose message it reports. */
  lemma StepLog(topicName: string, e: Entry, ext: Externals)
    ensures forall d :: d in Step(topicName, e, ext).log ==> d.topic == topicName
  {
    match Flatten(e.msg, topicName, ext)
    case Parsed(_) =>
    case Unsupported(t) => assert Step(topicName, e, ext).log == [UnsupportedMsgType(t, topicName)];
    case Failed(_) =>
  }

  lemma {:induction false} RunMessagesLog(topicName: string, entries: seq<Entry>, ext: Externals)
    ensures forall d :: d in RunMessages(topicName, entries, ext).log ==> d.topic == topicName
    decreases |entries|
  {
    if |entries| > 0 {
      var init, e := entries[..|entries| - 1], entries[|entries| - 1];
      RunMessagesLog(topicName, init, ext);
      StepLog(topicName, e, ext);
    }
  }

  /** Every line the converter prints names one of the target topics. */
  lemma {:induction false} RunTopicsLog(topics: seq<string>, reader: Reader, ext: Externals)
    ensures forall d :: d in RunTopics(topics, reader, ext).log ==> d.topic in topics
    decreases |topics|
  {
    if |topics| > 0 {
      var init, t := topics[..|topics| - 1], topics[|topics| - 1];
      RunTopicsLog(init, reader, ext);
      if t in reader {
        RunMessagesLog(t, reader[t], ext);
      }
      forall d | d in RunTopics(topics, reader, ext).log ensures d.topic in topics {
        if d.topic in init {
          var k :| 0 <= k < |init| && init[k] == d.topic;
          assert topics[k] == d.topic;
        } else {
          assert topics[|topics| - 1] == d.topic;
        }
      }
    }
  }

  lemma ThenFailure(a: Outcome, b: Outcome)
    ensures Then(a, b).failure.Some? <==> a.failure.Some? || b.failure.Some?
  {
  }

  /** The run of a topic stops if and only if one of its messages is a Float32MultiArray without exactly one dimension. */
  lemma {:induction false} RunMessagesFailure(topicName: string, entries: seq<Entry>, ext: Externals)
    ensures RunMessages(topicName, entries, ext).failure.Some? <==>
      exists j :: 0 <= j < |entries| && BadArray(entries[j].msg)
    decreases |entries|
  {
    if |entries| > 0 {
      var init, e := entries[..|entries| - 1], entries[|entries| - 1];
      assert init + [e] == entries;
      RunMessagesFailure(topicName, init, ext);
      StepFailure(topicName, e, ext);
      ThenFailure(RunMessages(topicName, init, ext), Step(topicName, e, ext));
      if exists j :: 0 <= j < |init| && BadArray(init[j].msg) {
        var j :| 0 <= j < |init| && BadArray(init[j].msg);
        assert entries[j] == init[j];
      }
      if exists j :: 0 <= j < |entries| && BadArray(entries[j].msg) {
        var j :| 0 <= j < |entries| && BadArray(entries[j].msg);
        if j < |init| {
          assert init[j] == entries[j];
        }
      }
    }
  }

  /**
   * The conversion stops if and only if some message on a connected target
   * topic is a Float32MultiArray without exactly one dimension.
   */
  lemma {:induction false} RunTopicsFailure(topics: seq<string>, reader: Reader, ext: Externals)
    ensures RunTopics(topics, reader, ext).failure.Some? <==>
      exists i, j :: 0 <= i < |topics| && topics[i] in reader && 0 <= j < |reader[topics[i]]|
                     && BadArray(reader[topics[i]][j].msg)
    decreases |topics|
  {
    if |topics| > 0 {
      var init, t := topics[..|topics| - 1], topics[|topics| - 1];
      assert init + [t] == topics;
      RunTopicsFailure(init, reader, ext);
      if t in reader {
        RunMessagesFailure(t, reader[t], ext);
      }
      ThenFailure(RunTopics(init, reader, ext), RunTopic(t, reader, ext));
      if exists i, j :: 0 <= i < |init| && init[i] in reader && 0 <= j < |reader[init[i]]|
                        && BadArray(reader[init[i]][j].msg) {
        var i, j :| 0 <= i < |init| && init[i] in reader && 0 <= j < |reader[init[i]]|
                    && BadArray(reader[init[i]][j].msg);
        assert topics[i] == init[i];
      }
      if exists i, j :: 0 <= i < |topics| && topics[i] in reader && 0 <= j < |reader[topics[i]]|
                        && BadArray(reader[topics[i]][j].msg) {
        var i, j :| 0 <= i < |topics| && topics[i] in reader && 0 <= j < |reader[topics[i]]|
                    && BadArray(reader[topics[i]][j].msg);
        if i < |init| {
          assert init[i] == topics[i];
        }
      }
    }
  }

  /**
   * A message of an unsupported type adds no row and, unless the run has
   * already stopped, exactly one diagnostic naming its type and topic.
   */
  lemma UnsupportedSkipped(topicName: string, entries: seq<Entry>, e: Entry, ext: Externals)
    requires !IsSupported(e)
    ensures var before, after := RunMessages(topicName, entries, ext), RunMessages(topicName, entries + [e], ext);
      && after.table == before.table
      && after.failure == before.failure
      && after.log == before.log + (if before.failure.None? then [UnsupportedMsgType(MsgType(e.msg), topicName)] else [])
  {
    assert (entries + [e])[..|entries|] == entries;
  }

  /**
   * A message of a supported type that parses appends exactly one row to a
   * running table: the two time columns followed by its fields.
   */
  lemma ParsedAppendsRow(topicName: string, entries: seq<Entry>, e: Entry, ext: Externals)
    requires RunMessages(topicName, entries, ext).failure.None?
    requires IsSupported(e) && !BadArray(e.msg)
    ensures var before, after := RunMessages(topicName, entries, ext), RunMessages(topicName, entries + [e], ext);
      && after.failure.None?
      && after.log == before.log
      && |after.table| == |before.table| + 1
      && after.table[..|before.table|] == before.table
      && after.table[|before.table|][..2] == [("time", ext.localTime(e.timestamp)), ("timestamp", IntValue(e.timestamp))]
      && Distinct(Keys(after.table[|before.table|]))
  {
    assert (entries + [e])[..|entries|] == entries;
    var before := RunMessages(topicName, entries, ext);
    var after := RunMessages(topicName, entries + [e], ext);
    assert after == Then(before, Step(topicName, e, ext));
    var f := Flatten(e.msg, topicName, ext);
    assert f.Parsed?;
    var row := MessageRow(e.timestamp, f.row, topicName, ext);
    assert after.table == before.table + [row];
  }

  /** A target topic without a connection changes neither the table nor whether the run stops. */
  lemma MissingTopicSkipped(before: seq<string>, t: string, rest: seq<string>, reader: Reader, ext: Externals)
    requires t !in reader
    ensures RunTopics(before + [t] + rest, reader, ext).table == RunTopics(before + rest, reader, ext).table
    ensures RunTopics(before + [t] + rest, reader, ext).failure == RunTopics(before + rest, reader, ext).failure
  {
    RunTopicsAppend(before + [t], rest, reader, ext);
    RunTopicsAppend(before, rest, reader, ext);
    assert (before + [t])[..|before|] == before;
  }

  /** Rows and diagnostics, once produced, are never removed or reordered by later topics. */
  lemma EarlierRowsKept(topics: seq<string>, i: nat, reader: Reader, ext: Externals)
    requires i <= |topics|
    ensures RunTopics(topics[..i], reader, ext).table <= RunTopics(topics, reader, ext).table
    ensures RunTopics(topics[..i], reader, ext).log <= RunTopics(topics, reader, ext).log
  {
    assert topics[..i] + topics[i..] == topics;
    RunTopicsAppend(topics[..i], topics[i..], reader, ext);
  }

  /**
   * A row of the table: first the two time columns, then parser columns that
   * each hold a '.', all column names distinct.
   */
  predicate TableRow(r: Row) {
    && |r| >= 2
    && Keys(r)[..2] == ["time", "timestamp"]
    && Distinct(Keys(r))
    && forall k :: k in Keys(r)[2..] ==> '.' in k
  }

  lemma MessageRowIsTableRow(timestamp: int, parsed: Row, topicName: string, ext: Externals)
    requires WellKeyed(parsed, topicName)
    ensures TableRow(MessageRow(timestamp, parsed, topicName, ext))
  {
    var r := MessageRow(timestamp, parsed, topicName, ext);
    assert Keys(r)[2..] == Keys(parsed);
  }

  lemma {:induction false} RunMessagesRows(topicName: string, entries: seq<Entry>, ext: Externals)
    ensures forall r :: r in RunMessages(topicName, entries, ext).table ==> TableRow(r)
    decreases |entries|
  {
    if |entries| > 0 {
      var init, e := entries[..|entries| - 1], entries[|entries| - 1];
      RunMessagesRows(topicName, init, ext);
      var f := Flatten(e.msg, topicName, ext);
      if f.Parsed? {
        MessageRowIsTableRow(e.timestamp, f.row, topicName, ext);
      }
    }
  }

  /** Every row of the table, finished or stopped, has the shape `TableRow` describes. */
  lemma {:induction false} RowsAreTableRows(topics: seq<string>, reader: Reader, ext: Externals)
    ensures forall r :: r in RunTopics(topics, reader, ext).table ==> TableRow(r)
    decreases |topics|
  {
    if |topics| > 0 {
      var init, t := topics[..|topics| - 1], topics[|topics| - 1];
      RowsAreTableRows(init, reader, ext);
      if t in reader {
        RunMessagesRows(t, reader[t], ext);
      }
    }
  }
}
