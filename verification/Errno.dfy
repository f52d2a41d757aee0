/** The error numbers that the tool returns, as on Linux. */
module Errno {
  const EIO := 5
  const EAGAIN := 11
  const EINVAL := 22
  const EFBIG := 27
  const ERANGE := 34
  const EOVERFLOW := 75
}
