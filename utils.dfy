/** Shared types of the bot (ECEBot/utils.py) and a small Option wrapper. */
module Utils {

  datatype Option<T> = None | Some(value: T)

  /** A category key: an area number or the key of a minor/certificate
      (`Category = Union[int, str]` in the source, as a tagged variant). */
  datatype Category = Area(number: int) | MinorCert(key: string)

  /** The course levels the classifier can produce. */
  type Level = n: int | n == 100 || n == 200 || n == 300 || n == 400 || n == 500 witness 100

  /** The levels in the order the level view walks them. */
  const LEVELS: seq<Level> := [100, 200, 300, 400, 500]
}
