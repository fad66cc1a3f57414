/** The shared secret of a user (mtglib/secret.go). */
module Secrets {
  import opened Bytes

  const KEY_LENGTH := 16

  type Key = k: seq<byte> | |k| == KEY_LENGTH witness Zeros(KEY_LENGTH)

  datatype Secret = Secret(key: Key, host: seq<byte>)
}
