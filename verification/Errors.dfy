/** The return codes of src/inc/fs/vfs.h. */
module Errors {
  const VFS_OK := 0
  const VFS_ERR_INVAL := -3
  const VFS_ERR_NOMEM := -4
  const VFS_ERR_NOENT := -5
  const VFS_ERR_EXIST := -6
  const VFS_ERR_NODEV := -7
  const VFS_ERR_NOTDIR := -8
  const VFS_ERR_ISDIR := -9
  const VFS_ERR_NOSPC := -10
  const VFS_ERR_NOTSUP := -11
  const VFS_ERR_BUSY := -12
  const VFS_ERR_NOTEMPTY := -13
  const VFS_ERR_IO := -100

  const U32 := 0x1_0000_0000
  const U64 := 0x1_0000_0000_0000_0000
}
