# ros2bag2csv in Dafny

A model of the core of `ros2bag2csv`. The tool reads selected topics from a ROS 2
bag and writes one CSV file in which every supported message becomes one row.

What is modelled:

- **Topic prefix.** The `with_fixed_topic` decorator turns a topic name into a
  column prefix: strip every leading `/`, replace each remaining `/` with `.`,
  and append `.`.
- **Parsers.** Each `parse_*` function turns one message into a flat dictionary.
  Its keys are the prefix followed by the field names. `parse_pose` and
  `parse_pose_stamped` build their dictionaries by merging the child parsers'
  results with the dict operator `|`.
- **Python dicts.** A dict is modelled as an insertion-ordered sequence of
  key/value pairs (module `Rows`). `d[k] = v` keeps an existing key in place and
  appends a new one. `a | b` copies `a`, then inserts `b`'s items in order.
- **The converter** (module `Ros2Bag2Csv`):
  - `guess_msgtype` on the components of a path;
  - the seven-way dispatch on the wire type;
  - the nested topic/message loop, as the method `Convert`, proved equal to the
    specification function `RunTopics`;
  - the CSV file name.

Proved about the model:

- Every parser's key set, its key order, and the distinctness of its keys.
- The merges in `parse_pose` and `parse_pose_stamped` never collide, so each is
  a concatenation.
- The prefix rule's characterisation, plus its behaviour on nested topic names.
- The dispatch reaches the right parser, and only unsupported types are
  reported.
- The table is topic-major and keeps reader order.
- The table has one row per supported message on a connected target topic.
- A missing topic or an unsupported message adds no row.
- Rows already produced are never changed by later topics.
- Every row starts with `time` and `timestamp` and has distinct column names.
- The run aborts if and only if some message is a `Float32MultiArray` whose
  layout does not have exactly one dimension.

Inputs the model takes as parameters, bundled in `Externals`:

- `euler_from_quaternion` (floating-point trigonometry) is the parameter
  `Externals.euler`.
- `datetime.fromtimestamp(timestamp / 1e9)` is the parameter
  `Externals.localTime`.

Message values are `real`. The bag reader is a map from a topic to its messages
in reader order. A topic that is not a key of the map has no connection.

Two behaviours of the code are easy to miss:

- `lstrip("/")` removes *every* leading `/`, not just one.
- For a topic made only of `/` characters, or for the empty topic, the nested
  parsers' keys do not start with that topic's own prefix. The prefix of `/` is
  `.`, yet the first column of a Pose on `/` is `position.x`.
  `MsgParser.RootTopicPoseKeys` states this case, and the prefix lemmas carry
  `HasName` where it matters.

## Model

| member | source | states |
|---|---|---|
| MsgParser.FixTopicShape | msg_parser.py:24 | the prefix is the topic without its run of leading '/', with every other '/' turned into '.', followed by one '.'; the prefix holds no '/' and ends in '.' |
| MsgParser.FixTopic | msg_parser.py:24 | the prefix ends in '.' and contains no '/' |
| MsgParser.FixTopicExample | msg_parser.py:24 | "/a/b" becomes "a.b." |
| MsgParser.FixTopicTwice | msg_parser.py:24 | fixing an already fixed prefix only appends another '.' (the rule is not idempotent) |
| MsgParser.FixTopicChild | msg_parser.py:24 | the prefix of `t + "/" + seg` is t's prefix followed by `seg.` (just `seg.` when t has no name) |
| MsgParser.ParseHeader | msg_parser.py:30-44 | keys are prefix+`stamp`, prefix+`frame_id`, in that order and distinct; each maps to the header's field |
| MsgParser.ParseBool | msg_parser.py:47-50 | the single column prefix+`data`, holding the message's value |
| MsgParser.ParseFloat32 | msg_parser.py:53-56 | the single column prefix+`data`, holding the message's value |
| MsgParser.ParseFloat32MultiArray | msg_parser.py:59-76 | fails exactly when the layout does not have one dimension, reporting the count; otherwise one column prefix+`data<i>` per element in order, holding element i, all keys distinct |
| MsgParser.ArrayKeysDistinct | msg_parser.py:76 | the indexed keys `data0`, `data1`, … are pairwise distinct |
| MsgParser.ParseVector3 | msg_parser.py:79-86 | keys prefix+x, y, z in order and distinct, mapping to the vector's components |
| MsgParser.ParsePoint | msg_parser.py:89-96 | keys prefix+x, y, z in order and distinct, mapping to the point's coordinates |
| MsgParser.Vector3MatchesPoint | msg_parser.py:79-96 | a Vector3 and a Point with the same components give the same row |
| MsgParser.ParseQuaternion | msg_parser.py:99-107 | keys prefix+x, y, z, w in order and distinct, mapping to the quaternion's components |
| MsgParser.ParseQuaternionAsEuler | msg_parser.py:110-121 | keys prefix+roll, pitch, yaw in order and distinct, mapping to the angles of the given conversion |
| MsgParser.ParsePose | msg_parser.py:124-133 | the two merges never collide, so the row is the position, orientation and euler rows concatenated; its 10 keys are the topic's nested prefix followed by `position.x` … `euler.yaw`, all distinct |
| MsgParser.PoseKeys | msg_parser.py:129-133 | the keys of the three child rows are the nested prefix applied to the ten pose field names |
| MsgParser.ParsePoseStamped | msg_parser.py:136-143 | the merge never collides, so the row is the header row followed by the pose row; its 12 keys are the nested prefix followed by `header.stamp` … `pose.euler.yaw`, all distinct |
| MsgParser.PoseStampedKeys | msg_parser.py:141-143 | the keys of header and pose rows are the nested prefix applied to the twelve field names |
| MsgParser.RootTopicPoseKeys | msg_parser.py:24 | for a topic made only of '/' (or empty) the prefix is ".", but a Pose's first key is `position.x`, which does not start with it |
| MsgParser.BoolWellKeyed | msg_parser.py:47-50 | the row has distinct keys, each holding '.' and starting with the topic's prefix |
| MsgParser.Float32WellKeyed | msg_parser.py:53-56 | the row has distinct keys, each holding '.' and starting with the topic's prefix |
| MsgParser.Float32MultiArrayWellKeyed | msg_parser.py:59-76 | a successful row has distinct keys, each holding '.' and starting with the topic's prefix |
| MsgParser.Vector3WellKeyed | msg_parser.py:79-86 | the row has distinct keys, each holding '.' and starting with the topic's prefix |
| MsgParser.PointWellKeyed | msg_parser.py:89-96 | the row has distinct keys, each holding '.' and starting with the topic's prefix |
| MsgParser.PoseWellKeyed | msg_parser.py:124-133 | the row has distinct keys, each holding '.' and, for a named topic, starting with its prefix |
| MsgParser.PoseStampedWellKeyed | msg_parser.py:136-143 | the row has distinct keys, each holding '.' and, for a named topic, starting with its prefix |
| Rows.Get | msg_parser.py:41-44 | a lookup finds a value exactly when the key is among the dict's keys |
| Rows.Insert | msg_parser.py:41-44 | `d[k] = v` keeps the keys of d when k is present and appends k otherwise |
| Rows.InsertGet | msg_parser.py:41-44 | after `d[k] = v`, k maps to v and every other key's value is unchanged |
| Rows.Union | msg_parser.py:129-133 | the merge of a with b is at least as long as a and at most as long as a and b together |
| Rows.UnionKeys | msg_parser.py:129-133 | a key is in the merge exactly when it is a key of a or of b |
| Rows.UnionDistinct | msg_parser.py:129-133 | merging into a dict with distinct keys keeps the keys distinct |
| Rows.UnionGet | msg_parser.py:129-133 | in the merge, a key of b takes b's value and any other key keeps a's |
| Rows.UnionConcat | msg_parser.py:141-143 | with jointly distinct keys, the merge is the concatenation and its keys are the concatenated keys |
| Rows.InsertFresh | msg_parser.py:41-44 | inserting a key that is not present appends the pair |
| Rows.FromPairs | msg_parser.py:76 | the dict built from pairs has distinct keys, and is the pairs themselves when their keys are distinct |
| Rows.ColumnsDisplay | msg_parser.py:30-44 | a dict display of prefixed field names is its own items, with keys prefix+field in field order, distinct, each mapping to its value |
| Rows.GetDistinct | msg_parser.py:41-44 | in a dict with distinct keys, looking up the i-th key gives the i-th value |
| Messages.MsgType | ros2bag2csv.py:71 | the wire type is one of the seven supported names exactly when the message is not of another type |
| Strings.DecimalString | msg_parser.py:76 | `str(i)` is a non-empty string of digits, one digit long exactly when i < 10 |
| Strings.DecimalStringInjective | msg_parser.py:76 | different indices give different decimal strings |
| Strings.LStrip | msg_parser.py:24 | the result is a suffix of the input, everything removed is the stripped character, and the result does not start with it |
| Strings.RStrip | ros2bag2csv.py:100 | the result is a prefix of the input, everything removed is the stripped character, and the result does not end with it |
| Strings.RFind | ros2bag2csv.py:18 | the `str.rfind` that `with_suffix` relies on: -1 exactly when the character does not occur, otherwise an index holding it with no occurrence after it |
| Strings.ReplaceChar | msg_parser.py:24 | same length; each occurrence of the old character becomes the new one and every other character is kept |
| Ros2Bag2Csv.Stem | ros2bag2csv.py:18 | `with_suffix("")` removes the text from the last '.' when that '.' is neither the first nor the last character, and otherwise leaves the name unchanged |
| Ros2Bag2Csv.GuessMsgtype | ros2bag2csv.py:16-21 | no result for fewer than three components; otherwise the last three components with the suffix removed, with "msg" placed before the last one exactly when none of the three is "msg" |
| Ros2Bag2Csv.CsvPath | ros2bag2csv.py:100 | the name is the bag path without its trailing '/' characters, followed by ".csv" |
| Ros2Bag2Csv.CsvPathTrailingSlash | ros2bag2csv.py:100 | a trailing '/' on the bag path does not change the CSV name |
| Ros2Bag2Csv.Flatten | ros2bag2csv.py:73-96 | the result is unsupported exactly when the type is not one of the seven, and then it carries that type name; it fails exactly for a Float32MultiArray without one dimension; a parsed row has distinct dotted keys under the topic's prefix |
| Ros2Bag2Csv.DispatchRoutes | ros2bag2csv.py:73-96 | each of the seven wire types is sent to its own parser, and any other type is reported with its own name |
| Ros2Bag2Csv.TimeDict | ros2bag2csv.py:69-70 | `time_dict` has the keys `time` and `timestamp`, in that order, holding the local time of the timestamp and the timestamp itself |
| Ros2Bag2Csv.MessageRow | ros2bag2csv.py:69-70 | merging the parser's row into `time_dict` gives the `time` and `timestamp` columns followed by the parser's row, with distinct keys |
| Ros2Bag2Csv.Step | ros2bag2csv.py:68-96 | one pass of the if/elif chain, by definition: a parsed message gives one row (`time_dict` merged with the parser's row), an unsupported one gives one diagnostic with its type and topic, a bad array gives the failed assertion |
| Ros2Bag2Csv.RunMessages | ros2bag2csv.py:67-96 | by definition, the messages of one topic in reader order, each step's rows and diagnostics appended to those before it, nothing after a failed assertion |
| Ros2Bag2Csv.RunTopic | ros2bag2csv.py:63-66 | by definition, a target topic with no connection gives no row and one `topic not found` diagnostic; a connected topic gives the run of its messages |
| Ros2Bag2Csv.RunTopics | ros2bag2csv.py:62-96 | by definition, the target topics in list order, each topic's outcome appended to the run so far, nothing after a failed assertion |
| Ros2Bag2Csv.StepLog | ros2bag2csv.py:95-96 | the diagnostic of one message names that message's topic |
| Ros2Bag2Csv.RunMessagesLog | ros2bag2csv.py:67-96 | every diagnostic of a topic's run names that topic |
| Ros2Bag2Csv.RunTopicsLog | ros2bag2csv.py:62-96 | every diagnostic the conversion prints names one of the target topics |
| Ros2Bag2Csv.Convert | ros2bag2csv.py:60-96 | the nested loop computes exactly the run `RunTopics` describes: rows, diagnostics, and the failed assertion that stopped it |
| Ros2Bag2Csv.ConvertTopic | ros2bag2csv.py:67-96 | the inner loop over one topic's messages continues the run so far exactly as `RunMessages` describes |
| Ros2Bag2Csv.RunTopicsStopped | ros2bag2csv.py:75-88 | once the assertion has failed on some topic, the remaining topics change nothing |
| Ros2Bag2Csv.RunMessagesStopped | ros2bag2csv.py:67-88 | once the assertion has failed on some message, the remaining messages change nothing |
| Ros2Bag2Csv.RunTopicsAppend | ros2bag2csv.py:62-66 | running two topic lists one after the other equals running their concatenation |
| Ros2Bag2Csv.RunMessagesAppend | ros2bag2csv.py:67-96 | running two message lists one after the other equals running their concatenation |
| Ros2Bag2Csv.TableIsTopicMajor | ros2bag2csv.py:60-96 | a completed run's table is, for each connected target topic in list order, that topic's parsed messages in reader order |
| Ros2Bag2Csv.RunMessagesTable | ros2bag2csv.py:67-96 | a completed run of one topic yields the rows of its parsed messages, in reader order |
| Ros2Bag2Csv.RowCount | ros2bag2csv.py:60-96 | a completed run has as many rows as there are messages of a supported type on connected target topics |
| Ros2Bag2Csv.RunMessagesCount | ros2bag2csv.py:67-96 | a completed run of one topic has one row per message of a supported type |
| Ros2Bag2Csv.RunMessagesFailure | ros2bag2csv.py:67-96 | a topic's run stops exactly when one of its messages is a Float32MultiArray without one dimension |
| Ros2Bag2Csv.RunTopicsFailure | ros2bag2csv.py:60-96 | the conversion stops exactly when some message on a connected target topic is a Float32MultiArray without one dimension |
| Ros2Bag2Csv.UnsupportedSkipped | ros2bag2csv.py:95-96 | an unsupported message adds no row, leaves the stop state as it was, and adds one diagnostic with its type and topic unless the run had stopped |
| Ros2Bag2Csv.ParsedAppendsRow | ros2bag2csv.py:74-94 | a supported, well-formed message adds exactly one row at the end, starting with its time and timestamp and having distinct keys; earlier rows and the log are unchanged |
| Ros2Bag2Csv.MissingTopicSkipped | ros2bag2csv.py:63-66 | inserting a target topic with no connection changes neither the table nor the stop state |
| Ros2Bag2Csv.EarlierRowsKept | ros2bag2csv.py:60-96 | the table and log after the first i topics are prefixes of the final table and log |
| Ros2Bag2Csv.MessageRowIsTableRow | ros2bag2csv.py:70-94 | every message row starts with `time` and `timestamp`, its other columns hold '.', and its keys are distinct |
| Ros2Bag2Csv.RowsAreTableRows | ros2bag2csv.py:60-96 | every row of the table, whether or not the run stopped, has that shape |

## Left out

- `euler_from_quaternion` is not computed. It is a parameter of the model, and
  the Euler angles of `parse_quaternion_as_euler` are whatever it returns.
- `datetime.fromtimestamp(timestamp / 1e9)` depends on the local clock and time
  zone. It is a parameter of the model.
- Floating-point message values are modelled as `real`, with no 32-bit rounding.
- pandas is not modelled: `pd.DataFrame(..., index=[0])`, `pd.concat` (column
  union with NaN filling), `df.head()` and `df.to_csv`. The table is the
  sequence of row dicts that would be concatenated.
- Argument parsing, the existence assertions on the bag and YAML paths, YAML
  loading, and the typestore registration of custom messages are I/O. They are
  not modelled (`ros2bag2csv.py:24-57`).
- `AnyReader`, `reader.connections`, `reader.messages` and `reader.deserialize`
  are replaced by the `Reader` map. A topic's entries are its decoded messages
  in the order the reader yields them.
- The `track` progress bar and the `print` calls are not modelled. The two
  messages printed inside the loop are the `Diagnostic` log.
- Ros2Bag2Csv.GuessMsgtype: works on the list of path components and returns
  the components of the type name. The `/` joining done by `str()` and a
  leading root anchor are not modelled.
- Ros2Bag2Csv.Stem: follows the suffix rule of `PurePath.with_suffix("")`.
  Special names such as `..` are not treated separately.
- For a `Float32MultiArray` that has not exactly one dimension, the `assert`
  raises and ends the program before any CSV is written. The model records the
  failure in `Outcome.failure`, and nothing after it is run.
