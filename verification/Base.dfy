/** Values shared by every part of the model, and the limits of kernel/hwe_consts.h. */
module Base {

  /** A `u8`. */
  type byte = x: int | 0 <= x < 256

  datatype Option<+T> = None | Some(value: T)

  datatype Result<+T, +E> = Ok(value: T) | Err(error: E)

  const MAX_REQUEST: nat := 1023
  const MAX_RESPONSE: nat := 1023
  const MAX_PAIR_STR: nat := MAX_REQUEST * 2 + MAX_RESPONSE * 2 + 1
  const MAX_PAIRS: nat := 1000
  const MAX_DEVICES: nat := 256
  const UINT_MAX: nat := 0xFFFF_FFFF
  const INT_MAX: nat := 0x7FFF_FFFF

  /** The kernel's errno values this model returns negated. */
  const ENOENT: int := 2
  const EIO: int := 5
  const ENODEV: int := 19
  const EINVAL: int := 22
  const EOPNOTSUPP: int := 95

  /** The character of a NUL-terminated string at `i`; every position past the text reads the terminator. */
  function At(s: string, i: nat): char {
    if i < |s| then s[i] else '\0'
  }

  function Min(a: nat, b: nat): nat {
    if a < b then a else b
  }
}
