/** Vocabulary shared by every part of the model: optional values, bytes and
    fixed-width unsigned integers, 9P qids, and the Linux errno values the
    core reports. */
module Common {

  /** A value that may be absent; stands for what the C code keeps as NULL or a value. */
  datatype Option<+T> = None | Some(value: T)

  const U32_LIMIT: int := 0x1_0000_0000
  const U64_LIMIT: int := 0x1_0000_0000_0000_0000

  type byte = x: int | 0 <= x < 256
  type u32 = x: int | 0 <= x < U32_LIMIT
  type u64 = x: int | 0 <= x < U64_LIMIT

  /** A positive errno value, as set by np_uerror and returned by np_rerror. */
  type Errno = e: int | e > 0 witness 1

  const EINTR: Errno := 4
  const EIO: Errno := 5
  const ENOMEM: Errno := 12
  const ENOTDIR: Errno := 20
  const EINVAL: Errno := 22
  const EPROTO: Errno := 71

  /** 9P qid type bits for a plain file and for a directory. */
  const QTFILE: byte := 0x00
  const QTDIR: byte := 0x80

  /** A 9P qid: type, version and the server's unique path number. */
  datatype Qid = Qid(qtype: byte, version: u32, path: u64)

  function Min(a: int, b: int): int { if a <= b then a else b }
}
