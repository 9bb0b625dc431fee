/** The records the terminal UI passes around (types.ts). */
module Types {

  datatype Option<T> = None | Some(value: T)

  /** The four levels a feed entry can carry (the `type` field). */
  datatype Level = Info | Error | Success | Warning

  /** One entry of the log feed. The id comes from a random generator and the
      timestamp from a locale-dependent clock format, so both are opaque
      strings supplied by the caller. */
  datatype LogMessage = LogMessage(id: string, text: string, level: Level, timestamp: string)

  /** What the random id generator and the clock supply for one new entry. */
  datatype Stamp = Stamp(id: string, timestamp: string)

  /** The entry `addLog` builds from its arguments and a stamp. */
  function MakeLog(text: string, level: Level, stamp: Stamp): (m: LogMessage)
    ensures m.text == text && m.level == level
    ensures m.id == stamp.id && m.timestamp == stamp.timestamp
  {
    LogMessage(stamp.id, text, level, stamp.timestamp)
  }
}
