/** What several of the modules share. */
module Common {

  /** The number of values of a 32-bit word. */
  const TWO_TO_32: nat := 0x1_0000_0000

  /** Types of inodes; type 0 is a free inode. */
  const T_DIR := 1
  const T_FILE := 2
  const T_DEV := 3

  /** The inode number of the root directory. */
  const ROOT: nat := 1

  datatype Option<+T> = None | Some(value: T)
}
