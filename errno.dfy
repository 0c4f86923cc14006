/** The POSIX error numbers the core returns (Linux values), and the shape of an external store's answer. */
module Errno {
  const ENOENT: int := 2
  const ENOMEM: int := 12
  const EEXIST: int := 17
  const EINVAL: int := 22

  /** What a call into an external store returns: 0 on success, a negative errno on failure. */
  type Rc = x: int | x <= 0
}
