/**
  * Error numbers and communication status codes shared by the kernel tables.
  * Operations return the NEGATED error number, as the kernel does.
  * The numeric values follow the usual POSIX numbering; the model only relies
  * on them being distinct and positive.
  */
module Errno {
  const ENOENT: int := 2
  const EBADF: int := 9
  const EAGAIN: int := 11
  const EACCES: int := 13
  const EBUSY: int := 16
  const EEXIST: int := 17
  const EINVAL: int := 22
  const ENOMSG: int := 42
  const EBADMSG: int := 74
  const ENOBUFS: int := 105

  /** Status of a communication operation (never negative, unlike an error). */
  const COMM_STATUS_SUCCESS: int := 0
  const COMM_STATUS_RECEIVED: int := 1
  const COMM_STATUS_AGAIN: int := 2
}
