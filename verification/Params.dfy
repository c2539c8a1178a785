/** Compile-time constants of the kernel, from src/param.h and src/fs.h. */
module Params {
  const MAXOPBLOCKS := 10
  const LOGSIZE := MAXOPBLOCKS * 3
  const NBUF := MAXOPBLOCKS * 3
  const BSIZE := 512
}
