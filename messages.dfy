/**
 * The ROS 2 message kinds the converter recognises, as decoded by the bag
 * reader, and the wire-type name (`__msgtype__`) each one carries.
 * Floating-point fields are kept as `real`: the converter only copies them.
 */
module Messages {

  /** builtin_interfaces/msg/Time */
  datatype Time = Time(sec: int, nanosec: nat)

  /** std_msgs/msg/Header */
  datatype Header = Header(stamp: Time, frameId: string)

  /** std_msgs/msg/Bool */
  datatype BoolData = BoolData(data: bool)

  /** std_msgs/msg/Float32 */
  datatype Float32Data = Float32Data(data: real)

  /** std_msgs/msg/MultiArrayDimension */
  datatype MultiArrayDimension = MultiArrayDimension(dimLabel: string, size: nat, stride: nat)

  /** std_msgs/msg/MultiArrayLayout */
  datatype MultiArrayLayout = MultiArrayLayout(dim: seq<MultiArrayDimension>, dataOffset: nat)

  /** std_msgs/msg/Float32MultiArray */
  datatype Float32MultiArray = Float32MultiArray(layout: MultiArrayLayout, data: seq<real>)

  /** geometry_msgs/msg/Vector3 */
  datatype Vector3 = Vector3(x: real, y: real, z: real)

  /** geometry_msgs/msg/Point */
  datatype Point = Point(x: real, y: real, z: real)

  /** geometry_msgs/msg/Quaternion */
  datatype Quaternion = Quaternion(x: real, y: real, z: real, w: real)

  /** geometry_msgs/msg/Pose */
  datatype Pose = Pose(position: Point, orientation: Quaternion)

  /** geometry_msgs/msg/PoseStamped */
  datatype PoseStamped = PoseStamped(header: Header, pose: Pose)

  const BoolType := "std_msgs/msg/Bool"
  const Vector3Type := "geometry_msgs/msg/Vector3"
  const PointType := "geometry_msgs/msg/Point"
  const Float32Type := "std_msgs/msg/Float32"
  const Float32MultiArrayType := "std_msgs/msg/Float32MultiArray"
  const PoseType := "geometry_msgs/msg/Pose"
  const PoseStampedType := "geometry_msgs/msg/PoseStamped"

  /** The seven wire types the converter turns into rows, in the order it tests them. */
  const SupportedTypes: seq<string> :=
    [BoolType, Vector3Type, PointType, Float32Type, Float32MultiArrayType, PoseType, PoseStampedType]

  /** The name of any message type the converter does not turn into rows. */
  type OtherTypeName = s: string | s !in SupportedTypes witness ""

  /** A decoded message. Its content only matters for the supported kinds. */
  datatype Msg =
    | BoolMsg(boolData: BoolData)
    | Vector3Msg(vector3: Vector3)
    | PointMsg(point: Point)
    | Float32Msg(float32Data: Float32Data)
    | Float32MultiArrayMsg(multiArray: Float32MultiArray)
    | PoseMsg(pose: Pose)
    | PoseStampedMsg(poseStamped: PoseStamped)
    | OtherMsg(typeName: OtherTypeName)

  /** `str(msg.__msgtype__)` */
  function MsgType(m: Msg): (t: string)
    ensures t in SupportedTypes <==> !m.OtherMsg?
  {
    match m
    case BoolMsg(_) => BoolType
    case Vector3Msg(_) => Vector3Type
    case PointMsg(_) => PointType
    case Float32Msg(_) => Float32Type
    case Float32MultiArrayMsg(_) => Float32MultiArrayType
    case PoseMsg(_) => PoseType
    case PoseStampedMsg(_) => PoseStampedType
    case OtherMsg(name) => name
  }
}
