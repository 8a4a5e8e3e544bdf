/** Types shared by every module of the project. */
module Prelude {

  datatype Option<+T> = None | Some(value: T)

  datatype Result<+T, +E> = Ok(value: T) | Err(error: E)

  /** An octet. Files, archives and log chunks are sequences of these. */
  type byte = b: int | 0 <= b < 256

  type Bytes = seq<byte>

  /** Appending to a list does not disturb what is put at, or in place of, its front. */
  lemma Regroup<T>(x: T, rest: seq<T>, tail: seq<T>)
    ensures [x] + (rest + tail) == ([x] + rest) + tail
    ensures rest != [] ==> (rest + tail)[0] == rest[0] && [x] + (rest + tail)[1..] == ([x] + rest[1..]) + tail
  {
    if rest != [] {
      assert (rest + tail)[1..] == rest[1..] + tail;
      assert [x] + (rest[1..] + tail) == ([x] + rest[1..]) + tail;
    }
  }
}
