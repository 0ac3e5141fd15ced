/**
 * The helpers of the shell whose definitions are not part of this model — `normalize_path`,
 * `check_dir_info` and `Path::canonicalize` — and the world directory, which the source
 * keeps in a process-wide global. Every operation that needs them receives them here.
 */
module Env {
  import opened Wrappers
  import opened Paths
  import opened Fs

  datatype Env = Env(
    normalize: Path -> Path,
    checkDirInfo: Path -> bool,
    canonicalize: (World, Path) -> Option<Path>,
    worldDir: Path)
}
