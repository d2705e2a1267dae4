/**
 * The message flatteners: each turns one decoded message into a flat row
 * whose keys are the topic's key prefix followed by the field path.
 */
module MsgParser {
  import opened Wrappers
  import opened Strings
  import opened Messages
  import opened Rows

  /** Replaces each '/' by '.', as `replace("/", ".")` does in the prefix rule. */
  function DotFor(c: char): char {
    if c == '/' then '.' else c
  }

  /**
   * The key prefix the `with_fixed_topic` decorator hands to a parser: every
   * leading '/' stripped, each remaining '/' turned into '.', then a '.' appended.
   */
  function FixTopic(topicName: string): (p: string)
    ensures |p| >= 1 && p[|p| - 1] == '.'
    ensures '/' !in p
  {
    ReplaceChar(LStrip(topicName, '/'), '/', '.') + "."
  }

  /**
   * With `k` the number of leading '/' of the topic name, its prefix is
   * `topicName[k..]` with every '/' read as '.', followed by one '.'.
   */
  lemma FixTopicShape(topicName: string)
    ensures var p := FixTopic(topicName);
      var k := |topicName| - (|p| - 1);
      && 0 <= k <= |topicName|
      && (forall i :: 0 <= i < k ==> topicName[i] == '/')
      && (k < |topicName| ==> topicName[k] != '/')
      && (forall i :: 0 <= i < |p| - 1 ==> p[i] == DotFor(topicName[k + i]))
  {
  }

  /** A topic name with at least one character that is not '/'. */
  predicate HasName(topicName: string) {
    LStrip(topicName, '/') != []
  }

  /**
   * What a child topic `topicName + "/" + seg` is prefixed with before `seg`:
   * the parent's own prefix, or nothing when the parent is made of '/' only
   * (its prefix "." then disappears with the stripped slashes).
   */
  function NestedPrefix(topicName: string): (p: string)
    ensures HasName(topicName) ==> p == FixTopic(topicName)
    ensures !HasName(topicName) ==> p == []
  {
    if HasName(topicName) then FixTopic(topicName) else []
  }

  lemma FixTopicExample()
    ensures FixTopic("/a/b") == "a.b."
  {
    assert LStrip("/a/b", '/') == LStrip("a/b", '/') == "a/b";
    assert ReplaceChar("a/b", '/', '.') == "a.b";
  }

  /** Formatting an already formatted prefix only appends a second '.'. */
  lemma FixTopicTwice(topicName: string)
    ensures FixTopic(FixTopic(topicName)) == FixTopic(topicName) + "."
  {
    var p := FixTopic(topicName);
    assert p[0] != '/';
    LStripAbsent(p, '/');
    ReplaceCharAbsent(p, '/', '.');
  }

  /**
   * The prefix of a child topic is its parent's nested prefix followed by the
   * new segment and '.': composites never apply the rule twice.
   */
  lemma FixTopicChild(topicName: string, seg: string)
    requires seg != [] && '/' !in seg
    ensures FixTopic(topicName + "/" + seg) == NestedPrefix(topicName) + seg + "."
  {
    if HasName(topicName) {
      FixTopicChildNamed(topicName, seg);
    } else {
      FixTopicChildUnnamed(topicName, seg);
    }
  }

  lemma FixTopicChildNamed(topicName: string, seg: string)
    requires seg != [] && '/' !in seg && HasName(topicName)
    ensures FixTopic(topicName + "/" + seg) == FixTopic(topicName) + seg + "."
  {
    var tail := "/" + seg;
    var stripped := LStrip(topicName, '/');
    AppendAssoc(topicName, "/", seg);
    LStripAppend(topicName, tail, '/');
    ReplaceSlashBeforeSegment(stripped, seg);
    var dotted := ReplaceChar(stripped, '/', '.');
    AppendAssoc(dotted, ".", seg);
  }

  lemma FixTopicChildUnnamed(topicName: string, seg: string)
    requires seg != [] && '/' !in seg && !HasName(topicName)
    ensures FixTopic(topicName + "/" + seg) == seg + "."
  {
    var tail := "/" + seg;
    AppendAssoc(topicName, "/", seg);
    LStripOfStripped(topicName, tail, '/');
    assert tail[1..] == seg;
    LStripAbsent(seg, '/');
    ReplaceCharAbsent(seg, '/', '.');
  }

  /** The result of `euler_from_quaternion`, which the model takes as a parameter. */
  datatype EulerAngles = EulerAngles(roll: real, pitch: real, yaw: real)

  /** The AssertionError `parse_float32_multiarray` raises for a layout that is not one-dimensional. */
  datatype ParseError = DimensionNotOne(dims: nat)

  const HeaderFields: seq<string> := ["stamp", "frame_id"]
  const DataFields: seq<string> := ["data"]
  const XyzFields: seq<string> := ["x", "y", "z"]
  const XyzwFields: seq<string> := ["x", "y", "z", "w"]
  const EulerFields: seq<string> := ["roll", "pitch", "yaw"]
  const PoseFields: seq<string> :=
    ["position.x", "position.y", "position.z",
     "orientation.x", "orientation.y", "orientation.z", "orientation.w",
     "euler.roll", "euler.pitch", "euler.yaw"]
  const PoseStampedFields: seq<string> :=
    ["header.stamp", "header.frame_id",
     "pose.position.x", "pose.position.y", "pose.position.z",
     "pose.orientation.x", "pose.orientation.y", "pose.orientation.z", "pose.orientation.w",
     "pose.euler.roll", "pose.euler.pitch", "pose.euler.yaw"]

  lemma LeafFieldsDistinct()
    ensures Distinct(HeaderFields) && Distinct(XyzFields) && Distinct(XyzwFields) && Distinct(EulerFields)
  {
  }

  function ParseHeader(msg: Header, topicName: string): (r: Row)
    ensures Keys(r) == Prefixed(FixTopic(topicName), HeaderFields)
    ensures Distinct(Keys(r))
    ensures Get(r, FixTopic(topicName) + "stamp") == Some(TimeValue(msg.stamp))
    ensures Get(r, FixTopic(topicName) + "frame_id") == Some(TextValue(msg.frameId))
  {
    var topic := FixTopic(topicName);
    var values := [TimeValue(msg.stamp), TextValue(msg.frameId)];
    LeafFieldsDistinct();
    ColumnsDisplay(topic, HeaderFields, values);
    assert HeaderFields[0] == "stamp" && HeaderFields[1] == "frame_id";
    FromPairs(Columns(topic, HeaderFields, values))
  }

  function ParseBool(msg: BoolData, topicName: string): (r: Row)
    ensures r == [(FixTopic(topicName) + "data", BoolValue(msg.data))]
  {
    var topic := FixTopic(topicName);
    FromPairs([(topic + "data", BoolValue(msg.data))])
  }

  function ParseFloat32(msg: Float32Data, topicName: string): (r: Row)
    ensures r == [(FixTopic(topicName) + "data", FloatValue(msg.data))]
  {
    var topic := FixTopic(topicName);
    FromPairs([(topic + "data", FloatValue(msg.data))])
  }

  /** The key of the `i`-th element of a Float32MultiArray under prefix `topic`. */
  function ArrayKey(topic: string, i: nat): string {
    topic + "data" + DecimalString(i)
  }

  function ArrayKeys(topic: string, n: nat): (ks: seq<string>)
    ensures |ks| == n && forall i :: 0 <= i < n ==> ks[i] == ArrayKey(topic, i)
  {
    seq(n, i requires 0 <= i < n => ArrayKey(topic, i))
  }

  lemma ArrayKeysDistinct(topic: string, n: nat)
    ensures Distinct(ArrayKeys(topic, n))
  {
    forall i, j | 0 <= i < j < n ensures ArrayKey(topic, i) != ArrayKey(topic, j) {
      if ArrayKey(topic, i) == ArrayKey(topic, j) {
        PrefixCancel(topic + "data", DecimalString(i), DecimalString(j));
        DecimalStringInjective(i, j);
      }
    }
  }

  /**
   * Fails unless the layout has exactly one dimension; otherwise one key
   * `data<i>` per element, in order, holding that element.
   */
  function ParseFloat32MultiArray(msg: Float32MultiArray, topicName: string): (r: Result<Row, ParseError>)
    ensures r.Failure? <==> |msg.layout.dim| != 1
    ensures r.Failure? ==> r.error == DimensionNotOne(|msg.layout.dim|)
    ensures r.Success? ==>
      && |r.value| == |msg.data|
      && Distinct(Keys(r.value))
      && forall i :: 0 <= i < |msg.data| ==>
           r.value[i] == (FixTopic(topicName) + "data" + DecimalString(i), FloatValue(msg.data[i]))
  {
    var topic := FixTopic(topicName);
    if |msg.layout.dim| != 1 then Failure(DimensionNotOne(|msg.layout.dim|))
    else
      var items := seq(|msg.data|, i requires 0 <= i < |msg.data| =>
        (ArrayKey(topic, i), FloatValue(msg.data[i])));
      ArrayKeysDistinct(topic, |msg.data|);
      assert Keys(items) == ArrayKeys(topic, |msg.data|);
      Success(FromPairs(items))
  }

  function ParseVector3(msg: Vector3, topicName: string): (r: Row)
    ensures Keys(r) == Prefixed(FixTopic(topicName), XyzFields)
    ensures Distinct(Keys(r))
    ensures Get(r, FixTopic(topicName) + "x") == Some(FloatValue(msg.x))
    ensures Get(r, FixTopic(topicName) + "y") == Some(FloatValue(msg.y))
    ensures Get(r, FixTopic(topicName) + "z") == Some(FloatValue(msg.z))
  {
    var topic := FixTopic(topicName);
    var values := [FloatValue(msg.x), FloatValue(msg.y), FloatValue(msg.z)];
    LeafFieldsDistinct();
    ColumnsDisplay(topic, XyzFields, values);
    assert XyzFields[0] == "x" && XyzFields[1] == "y" && XyzFields[2] == "z";
    FromPairs(Columns(topic, XyzFields, values))
  }

  function ParsePoint(msg: Point, topicName: string): (r: Row)
    ensures Keys(r) == Prefixed(FixTopic(topicName), XyzFields)
    ensures Distinct(Keys(r))
    ensures Get(r, FixTopic(topicName) + "x") == Some(FloatValue(msg.x))
    ensures Get(r, FixTopic(topicName) + "y") == Some(FloatValue(msg.y))
    ensures Get(r, FixTopic(topicName) + "z") == Some(FloatValue(msg.z))
  {
    var topic := FixTopic(topicName);
    var values := [FloatValue(msg.x), FloatValue(msg.y), FloatValue(msg.z)];
    LeafFieldsDistinct();
    ColumnsDisplay(topic, XyzFields, values);
    assert XyzFields[0] == "x" && XyzFields[1] == "y" && XyzFields[2] == "z";
    FromPairs(Columns(topic, XyzFields, values))
  }

  /** A Vector3 and a Point with the same coordinates give the same row. */
  lemma Vector3MatchesPoint(x: real, y: real, z: real, topicName: string)
    ensures ParseVector3(Vector3(x, y, z), topicName) == ParsePoint(Point(x, y, z), topicName)
  {
  }

  function ParseQuaternion(msg: Quaternion, topicName: string): (r: Row)
    ensures Keys(r) == Prefixed(FixTopic(topicName), XyzwFields)
    ensures Distinct(Keys(r))
    ensures Get(r, FixTopic(topicName) + "x") == Some(FloatValue(msg.x))
    ensures Get(r, FixTopic(topicName) + "y") == Some(FloatValue(msg.y))
    ensures Get(r, FixTopic(topicName) + "z") == Some(FloatValue(msg.z))
    ensures Get(r, FixTopic(topicName) + "w") == Some(FloatValue(msg.w))
  {
    var topic := FixTopic(topicName);
    var values := [FloatValue(msg.x), FloatValue(msg.y), FloatValue(msg.z), FloatValue(msg.w)];
    LeafFieldsDistinct();
    ColumnsDisplay(topic, XyzwFields, values);
    assert XyzwFields[0] == "x" && XyzwFields[1] == "y" && XyzwFields[2] == "z" && XyzwFields[3] == "w";
    FromPairs(Columns(topic, XyzwFields, values))
  }

  function ParseQuaternionAsEuler(msg: Quaternion, topicName: string, euler: Quaternion -> EulerAngles): (r: Row)
    ensures Keys(r) == Prefixed(FixTopic(topicName), EulerFields)
    ensures Distinct(Keys(r))
    ensures Get(r, FixTopic(topicName) + "roll") == Some(FloatValue(euler(msg).roll))
    ensures Get(r, FixTopic(topicName) + "pitch") == Some(FloatValue(euler(msg).pitch))
    ensures Get(r, FixTopic(topicName) + "yaw") == Some(FloatValue(euler(msg).yaw))
  {
    var topic := FixTopic(topicName);
    var angles := euler(msg);
    var values := [FloatValue(angles.roll), FloatValue(angles.pitch), FloatValue(angles.yaw)];
    LeafFieldsDistinct();
    ColumnsDisplay(topic, EulerFields, values);
    assert EulerFields[0] == "roll" && EulerFields[1] == "pitch" && EulerFields[2] == "yaw";
    FromPairs(Columns(topic, EulerFields, values))
  }

  /**
   * The segment names the composites append to a topic: no '/', and the spellings used below.
   * These only spell out literals; stating them apart keeps the proofs that use them stable.
   */
  lemma PositionSegment()
    ensures "position" != [] && '/' !in "position" && "/position" == "/" + "position" && "position." == "position" + "."
  {
  }

  lemma OrientationSegment()
    ensures "orientation" != [] && '/' !in "orientation" && "/orientation" == "/" + "orientation" && "orientation." == "orientation" + "."
  {
  }

  lemma EulerSegment()
    ensures "euler" != [] && '/' !in "euler" && "/euler" == "/" + "euler" && "euler." == "euler" + "."
  {
  }

  lemma HeaderSegment()
    ensures "header" != [] && '/' !in "header" && "/header" == "/" + "header" && "header." == "header" + "."
  {
  }

  lemma PoseSegment()
    ensures "pose" != [] && '/' !in "pose" && "/pose" == "/" + "pose" && "pose." == "pose" + "."
  {
  }

  /** A child topic always has a name, whatever its parent. */
  lemma HasNameChild(topicName: string, seg: string)
    requires seg != [] && '/' !in seg
    ensures HasName(topicName + "/" + seg)
  {
    var child := topicName + "/" + seg;
    assert child[|topicName| + 1] != '/';
  }

  /** The keys a leaf parser gives under the child topic `child`, as `NestedPrefix(topicName)` plus a field path. */
  lemma ChildKeys(topicName: string, child: string, slashSeg: string, seg: string, segDot: string, fields: seq<string>)
    requires seg != [] && '/' !in seg
    requires child == topicName + slashSeg && slashSeg == "/" + seg && segDot == seg + "."
    ensures Prefixed(FixTopic(child), fields) == Prefixed(NestedPrefix(topicName), Prefixed(segDot, fields))
  {
    AppendAssoc(topicName, "/", seg);
    FixTopicChild(topicName, seg);
    AppendAssoc(NestedPrefix(topicName), seg, ".");
    PrefixedTwice(NestedPrefix(topicName), segDot, fields);
  }

  /**
   * `parse_pose`: position under `.../position`, the raw quaternion under
   * `.../orientation` and its Euler angles under `.../euler`. The three parts
   * share no key, so the two `|` merges overwrite nothing: the row is the three
   * parts one after the other, ten keys in all.
   */
  function ParsePose(msg: Pose, topicName: string, euler: Quaternion -> EulerAngles): (r: Row)
    ensures r == ParsePoint(msg.position, topicName + "/position")
               + ParseQuaternion(msg.orientation, topicName + "/orientation")
               + ParseQuaternionAsEuler(msg.orientation, topicName + "/euler", euler)
    ensures Keys(r) == Prefixed(NestedPrefix(topicName), PoseFields)
    ensures Distinct(Keys(r)) && |r| == 10
  {
    var position := ParsePoint(msg.position, topicName + "/position");
    var orientation := ParseQuaternion(msg.orientation, topicName + "/orientation");
    var angles := ParseQuaternionAsEuler(msg.orientation, topicName + "/euler", euler);
    PoseKeys(topicName, position, orientation, angles);
    UnionConcat(position, orientation);
    UnionConcat(position + orientation, angles);
    Union(Union(position, orientation), angles)
  }

  lemma PoseKeys(topicName: string, position: Row, orientation: Row, angles: Row)
    requires Keys(position) == Prefixed(FixTopic(topicName + "/position"), XyzFields)
    requires Keys(orientation) == Prefixed(FixTopic(topicName + "/orientation"), XyzwFields)
    requires Keys(angles) == Prefixed(FixTopic(topicName + "/euler"), EulerFields)
    ensures Keys(position) + Keys(orientation) == Keys(position + orientation)
    ensures Keys(position + orientation) + Keys(angles) == Prefixed(NestedPrefix(topicName), PoseFields)
    ensures Distinct(Keys(position) + Keys(orientation))
    ensures Distinct(Prefixed(NestedPrefix(topicName), PoseFields))
  {
    var n := NestedPrefix(topicName);
    var p1, p2, p3 := Prefixed("position.", XyzFields), Prefixed("orientation.", XyzwFields), Prefixed("euler.", EulerFields);
    PoseChildKeys(topicName);
    PoseFieldsParts();
    KeysAppend(position, orientation);
    PrefixedAppend(n, p1, p2);
    PrefixedAppend(n, p1 + p2, p3);
    PoseFieldsDistinct();
    PrefixedDistinct(n, PoseFields);
    assert Prefixed(n, PoseFields)[..7] == Keys(position) + Keys(orientation);
  }

  lemma PoseChildKeys(topicName: string)
    ensures Prefixed(FixTopic(topicName + "/position"), XyzFields)
         == Prefixed(NestedPrefix(topicName), Prefixed("position.", XyzFields))
    ensures Prefixed(FixTopic(topicName + "/orientation"), XyzwFields)
         == Prefixed(NestedPrefix(topicName), Prefixed("orientation.", XyzwFields))
    ensures Prefixed(FixTopic(topicName + "/euler"), EulerFields)
         == Prefixed(NestedPrefix(topicName), Prefixed("euler.", EulerFields))
  {
    PositionKeys(topicName);
    OrientationKeys(topicName);
    EulerKeys(topicName);
  }

  lemma PositionKeys(topicName: string)
    ensures Prefixed(FixTopic(topicName + "/position"), XyzFields)
         == Prefixed(NestedPrefix(topicName), Prefixed("position.", XyzFields))
  {
    PositionSegment();
    ChildKeys(topicName, topicName + "/position", "/position", "position", "position.", XyzFields);
  }

  lemma OrientationKeys(topicName: string)
    ensures Prefixed(FixTopic(topicName + "/orientation"), XyzwFields)
         == Prefixed(NestedPrefix(topicName), Prefixed("orientation.", XyzwFields))
  {
    OrientationSegment();
    ChildKeys(topicName, topicName + "/orientation", "/orientation", "orientation", "orientation.", XyzwFields);
  }

  lemma EulerKeys(topicName: string)
    ensures Prefixed(FixTopic(topicName + "/euler"), EulerFields)
         == Prefixed(NestedPrefix(topicName), Prefixed("euler.", EulerFields))
  {
    EulerSegment();
    ChildKeys(topicName, topicName + "/euler", "/euler", "euler", "euler.", EulerFields);
  }

  lemma PoseFieldsDistinct()
    ensures Distinct(PoseFields)
  {
  }

  lemma PoseFieldsParts()
    ensures Prefixed("position.", XyzFields) + Prefixed("orientation.", XyzwFields) + Prefixed("euler.", EulerFields)
         == PoseFields
  {
    var p1, p2, p3 := Prefixed("position.", XyzFields), Prefixed("orientation.", XyzwFields), Prefixed("euler.", EulerFields);
    assert p1[0] == "position.x" && p1[1] == "position.y" && p1[2] == "position.z";
    assert p2[0] == "orientation.x" && p2[1] == "orientation.y" && p2[2] == "orientation.z" && p2[3] == "orientation.w";
    assert p3[0] == "euler.roll" && p3[1] == "euler.pitch" && p3[2] == "euler.yaw";
  }

  /**
   * `parse_pose_stamped`: the header under `.../header` and the pose under
   * `.../pose`. Their keys are disjoint, so the `|` overwrites nothing and the
   * row has twelve keys.
   */
  function ParsePoseStamped(msg: PoseStamped, topicName: string, euler: Quaternion -> EulerAngles): (r: Row)
    ensures r == ParseHeader(msg.header, topicName + "/header") + ParsePose(msg.pose, topicName + "/pose", euler)
    ensures Keys(r) == Prefixed(NestedPrefix(topicName), PoseStampedFields)
    ensures Distinct(Keys(r)) && |r| == 12
  {
    var header := ParseHeader(msg.header, topicName + "/header");
    var pose := ParsePose(msg.pose, topicName + "/pose", euler);
    PoseStampedKeys(topicName, header, pose);
    UnionConcat(header, pose);
    Union(header, pose)
  }

  lemma PoseStampedKeys(topicName: string, header: Row, pose: Row)
    requires Keys(header) == Prefixed(FixTopic(topicName + "/header"), HeaderFields)
    requires Keys(pose) == Prefixed(NestedPrefix(topicName + "/pose"), PoseFields)
    ensures Keys(header) + Keys(pose) == Prefixed(NestedPrefix(topicName), PoseStampedFields)
    ensures Distinct(Prefixed(NestedPrefix(topicName), PoseStampedFields))
  {
    var n := NestedPrefix(topicName);
    var p1, p2 := Prefixed("header.", HeaderFields), Prefixed("pose.", PoseFields);
    HeaderSegment();
    ChildKeys(topicName, topicName + "/header", "/header", "header", "header.", HeaderFields);
    PoseChildPrefix(topicName);
    PrefixedTwice(n, "pose.", PoseFields);
    PoseStampedFieldsParts();
    PrefixedAppend(n, p1, p2);
    PoseStampedFieldsDistinct();
    PrefixedDistinct(n, PoseStampedFields);
  }

  /** The pose of a PoseStamped sits one level below the topic, under "pose.". */
  lemma PoseChildPrefix(topicName: string)
    ensures NestedPrefix(topicName + "/pose") == NestedPrefix(topicName) + "pose."
  {
    PoseSegment();
    AppendAssoc(topicName, "/", "pose");
    HasNameChild(topicName, "pose");
    FixTopicChild(topicName, "pose");
    AppendAssoc(NestedPrefix(topicName), "pose", ".");
  }

  lemma PoseStampedFieldsDistinct()
    ensures Distinct(PoseStampedFields)
  {
  }

  /** The twelve PoseStamped columns are the header columns followed by the pose columns (literal expansion). */
  lemma PoseStampedFieldsParts()
    ensures Prefixed("header.", HeaderFields) + Prefixed("pose.", PoseFields) == PoseStampedFields
  {
    HeaderPart();
    PosePart();
    assert PoseStampedFields[..2] + PoseStampedFields[2..] == PoseStampedFields;
  }

  lemma HeaderPart()
    ensures Prefixed("header.", HeaderFields) == PoseStampedFields[..2]
  {
    var p := Prefixed("header.", HeaderFields);
    assert p[0] == "header.stamp" && p[1] == "header.frame_id";
  }

  /** The pose half of the PoseStamped columns, spelt out in three literal lemmas to keep the proof stable. */
  lemma PosePart()
    ensures Prefixed("pose.", PoseFields) == PoseStampedFields[2..]
  {
    PosePositionPart();
    PoseOrientationPart();
    PoseEulerPart();
  }

  lemma PosePositionPart()
    ensures var p := Prefixed("pose.", PoseFields);
      p[0] == PoseStampedFields[2] && p[1] == PoseStampedFields[3] && p[2] == PoseStampedFields[4]
  {
    var p := Prefixed("pose.", PoseFields);
    assert p[0] == "pose.position.x" && p[1] == "pose.position.y" && p[2] == "pose.position.z";
  }

  lemma PoseOrientationPart()
    ensures var p := Prefixed("pose.", PoseFields);
      p[3] == PoseStampedFields[5] && p[4] == PoseStampedFields[6] &&
      p[5] == PoseStampedFields[7] && p[6] == PoseStampedFields[8]
  {
    var p := Prefixed("pose.", PoseFields);
    assert p[3] == "pose.orientation.x" && p[4] == "pose.orientation.y";
    assert p[5] == "pose.orientation.z" && p[6] == "pose.orientation.w";
  }

  lemma PoseEulerPart()
    ensures var p := Prefixed("pose.", PoseFields);
      p[7] == PoseStampedFields[9] && p[8] == PoseStampedFields[10] && p[9] == PoseStampedFields[11]
  {
    var p := Prefixed("pose.", PoseFields);
    assert p[7] == "pose.euler.roll" && p[8] == "pose.euler.pitch" && p[9] == "pose.euler.yaw";
  }

  /**
   * For a topic made only of '/' (or empty), the prefix is "." but the composites' keys lose
   * it: `parse_pose(msg, "/")` starts its keys with "position.", not with ".".
   */
  lemma RootTopicPoseKeys(msg: Pose, topicName: string, euler: Quaternion -> EulerAngles)
    requires !HasName(topicName)
    ensures FixTopic(topicName) == "."
    ensures Keys(ParsePose(msg, topicName, euler))[0] == "position.x"
    ensures !StartsWith(Keys(ParsePose(msg, topicName, euler))[0], FixTopic(topicName))
  {
    UnnamedPrefix(topicName);
    UnnamedPoseFirstKey(msg, topicName, euler);
    assert "position.x"[0] != '.';
  }

  lemma UnnamedPrefix(topicName: string)
    requires !HasName(topicName)
    ensures FixTopic(topicName) == "."
  {
    assert ReplaceChar([], '/', '.') == [];
    assert [] + "." == ".";
  }

  lemma UnnamedPoseFirstKey(msg: Pose, topicName: string, euler: Quaternion -> EulerAngles)
    requires !HasName(topicName)
    ensures Keys(ParsePose(msg, topicName, euler))[0] == "position.x"
  {
    var k := Keys(ParsePose(msg, topicName, euler))[0];
    assert k == NestedPrefix(topicName) + PoseFields[0];
    assert NestedPrefix(topicName) == [];
    assert [] + PoseFields[0] == PoseFields[0];
  }

  /**
   * The key discipline every flattener keeps for topic `topicName`: distinct keys,
   * each containing '.', each starting with the topic's prefix when the topic has a name.
   */
  predicate WellKeyed(r: Row, topicName: string) {
    && Distinct(Keys(r))
    && forall k :: k in Keys(r) ==> '.' in k && (HasName(topicName) ==> StartsWith(k, FixTopic(topicName)))
  }

  lemma PrefixedKeysWellKeyed(r: Row, topicName: string, p: string, fields: seq<string>)
    requires Keys(r) == Prefixed(p, fields) && Distinct(Keys(r))
    requires HasName(topicName) ==> p == FixTopic(topicName)
    requires '.' in p || forall f :: f in fields ==> '.' in f
    ensures WellKeyed(r, topicName)
  {
    forall k | k in Keys(r) ensures '.' in k && (HasName(topicName) ==> StartsWith(k, FixTopic(topicName))) {
      var i :| 0 <= i < |fields| && k == p + fields[i];
      if '.' in p {
        var j :| 0 <= j < |p| && p[j] == '.';
        assert k[j] == '.';
      } else {
        assert fields[i] in fields;
        var j :| 0 <= j < |fields[i]| && fields[i][j] == '.';
        assert k[|p| + j] == '.';
      }
      assert k[..|p|] == p;
    }
  }

  lemma PrefixHasDot(topicName: string)
    ensures '.' in FixTopic(topicName)
  {
    var p := FixTopic(topicName);
    assert p[|p| - 1] == '.';
  }

  lemma BoolWellKeyed(m: BoolData, topicName: string)
    ensures WellKeyed(ParseBool(m, topicName), topicName)
  {
    PrefixHasDot(topicName);
    PrefixedKeysWellKeyed(ParseBool(m, topicName), topicName, FixTopic(topicName), DataFields);
  }

  lemma Float32WellKeyed(m: Float32Data, topicName: string)
    ensures WellKeyed(ParseFloat32(m, topicName), topicName)
  {
    PrefixHasDot(topicName);
    PrefixedKeysWellKeyed(ParseFloat32(m, topicName), topicName, FixTopic(topicName), DataFields);
  }

  lemma Vector3WellKeyed(m: Vector3, topicName: string)
    ensures WellKeyed(ParseVector3(m, topicName), topicName)
  {
    PrefixHasDot(topicName);
    PrefixedKeysWellKeyed(ParseVector3(m, topicName), topicName, FixTopic(topicName), XyzFields);
  }

  lemma PointWellKeyed(m: Point, topicName: string)
    ensures WellKeyed(ParsePoint(m, topicName), topicName)
  {
    PrefixHasDot(topicName);
    PrefixedKeysWellKeyed(ParsePoint(m, topicName), topicName, FixTopic(topicName), XyzFields);
  }

  lemma Float32MultiArrayWellKeyed(m: Float32MultiArray, topicName: string)
    requires ParseFloat32MultiArray(m, topicName).Success?
    ensures WellKeyed(ParseFloat32MultiArray(m, topicName).value, topicName)
  {
    var p := FixTopic(topicName);
    var r := ParseFloat32MultiArray(m, topicName).value;
    var fields := seq(|m.data|, i requires 0 <= i < |m.data| => "data" + DecimalString(i));
    forall i | 0 <= i < |r| ensures Keys(r)[i] == Prefixed(p, fields)[i] {
      assert p + "data" + DecimalString(i) == p + ("data" + DecimalString(i));
    }
    assert Keys(r) == Prefixed(p, fields);
    PrefixHasDot(topicName);
    PrefixedKeysWellKeyed(r, topicName, p, fields);
  }

  lemma PoseWellKeyed(m: Pose, topicName: string, euler: Quaternion -> EulerAngles)
    ensures WellKeyed(ParsePose(m, topicName, euler), topicName)
  {
    assert forall f :: f in PoseFields ==> '.' in f;
    PrefixedKeysWellKeyed(ParsePose(m, topicName, euler), topicName, NestedPrefix(topicName), PoseFields);
  }

  lemma PoseStampedWellKeyed(m: PoseStamped, topicName: string, euler: Quaternion -> EulerAngles)
    ensures WellKeyed(ParsePoseStamped(m, topicName, euler), topicName)
  {
    assert forall f :: f in PoseStampedFields ==> '.' in f;
    PrefixedKeysWellKeyed(ParsePoseStamped(m, topicName, euler), topicName, NestedPrefix(topicName), PoseStampedFields);
  }
}
