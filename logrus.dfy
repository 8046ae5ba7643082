/**
 * The parts of the logrus library the hook consumes: severity levels, the free-form
 * field map and the log entry handed to a hook.
 */
module Logrus {

  /** logrus.Level is a uint32; a smaller number is a more severe level. */
  newtype Level = x: int | 0 <= x < 0x1_0000_0000

  const PanicLevel: Level := 0
  const FatalLevel: Level := 1
  const ErrorLevel: Level := 2
  const WarnLevel: Level := 3
  const InfoLevel: Level := 4
  const DebugLevel: Level := 5
  const TraceLevel: Level := 6

  /** logrus.AllLevels, from most to least severe. */
  const AllLevels: seq<Level> := [PanicLevel, FatalLevel, ErrorLevel, WarnLevel, InfoLevel, DebugLevel, TraceLevel]

  /**
   * A field value. The caller's fields are arbitrary Go values (`interface{}`); the hook
   * itself only ever stores strings, integers and a level. Anything else the caller puts
   * in is an opaque value that the serialiser may or may not be able to encode.
   */
  datatype Value =
    | Str(s: string)
    | Int(n: int)
    | LevelValue(level: Level)
    | Opaque(id: nat)

  /** logrus.Fields: field name to value, no order. */
  type Fields = map<string, Value>

  /** The part of a logrus.Entry the hook reads; `unixTime` is `entry.Time.Unix()`. */
  datatype Entry = Entry(data: Fields, level: Level, message: string, unixTime: int)
}
