/** Process exit statuses and errno values the tool returns, with their Linux values. */
module Posix {
  const ExitSuccess: int := 0
  const ExitFailure: int := 1
  /** Input/output error. */
  const EIO: int := 5
  /** Permission denied. */
  const EACCES: int := 13
  /** Invalid argument. */
  const EINVAL: int := 22
}
