/** The file system as a map from paths to contents, as the audit log and the catalog use it. */
module Files {
  import opened Base
  import Ramfs

  type Fs = map<string, string>

  /** `ramfs_put` on the map. */
  function PutFile(m: Fs, path: string, data: string): (Fs, int) {
    if |data| == 0 || |data| >= Ramfs.RAMFS_FILE_SIZE then (m, EINVAL)
    else if path in m || |m| < Ramfs.RAMFS_MAX_FILES then (m[path := data], 0)
    else (m, ENOSPC)
  }

  /** A size found by reading byte after byte: an empty file counts as one byte. */
  function Probe(m: Fs, path: string): int {
    if path !in m then ENOENT else if |m[path]| <= 1 then 1 else |m[path]|
  }
}
