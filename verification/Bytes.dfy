/** Vocabulary shared by every module: octets, the errno values the C code
    returns, and the "keep the last n" operation both queues are built on. */
module Bytes {
  type byte = x: int | 0 <= x < 256

  const EIO := 5
  const ENXIO := 6
  const EBUSY := 16
  const ENODEV := 19
  const EINVAL := 22
  const EOPNOTSUPP := 95
  const ENOTSUP := 95
  const ETIMEDOUT := 110

  datatype Option<+T> = None | Some(value: T)

  function Min(a: nat, b: nat): nat {
    if a < b then a else b
  }

  /** The last n elements of s, or all of s when it is shorter. */
  function LastN<T>(s: seq<T>, n: nat): (r: seq<T>)
    ensures |r| == Min(|s|, n)
    ensures r == s[|s| - |r|..]
  {
    if |s| <= n then s else s[|s| - n..]
  }
}
