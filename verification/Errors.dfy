/** Error codes (include/error.h). Calls return them negated. */
module Errors {
  const EPERM := 1
  const ENOENT := 2
  const EIO := 3
  const ENOMEM := 5
  const EFAULT := 8
  const ENOSPC := 11
  const EINVAL := 18
}
