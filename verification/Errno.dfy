/** The error codes the gateway returns itself. */
module Errno {
  const EEXIST := 17
  const EINVAL := 22
  const ETIMEDOUT := 110
}
