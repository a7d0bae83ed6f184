/** Shared vocabulary: optional values, bytes and raw paths. */
module Base {

  datatype Option<T> = None | Some(value: T)

  /** One byte of the stream read from the inotify descriptor. */
  newtype byte = x: int | 0 <= x < 256

  /** Paths and child names are kept as raw bytes; their UTF-8 reading is not modelled. */
  type Path = seq<byte>

  const NUL: byte := 0
  const SLASH: byte := 47

  /** Concatenation regroups; stated generically, since the solver finds it
      much more cheaply here than for sequences of a particular record type. */
  lemma AppendAssoc<T>(x: seq<T>, y: seq<T>, z: seq<T>)
    ensures x + (y + z) == (x + y) + z
  {
  }

  lemma EmptyAppend<T>(x: seq<T>)
    ensures [] + x == x
  {
  }
}
