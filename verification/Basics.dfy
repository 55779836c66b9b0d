// Values shared by every component.
module Basics {

  datatype Option<+T> = None | Some(value: T)

  newtype byte = b: int | 0 <= b < 256

  type Bytes = seq<byte>

  type Key = string

  // st_mode words: S_IFDIR is the bit that every is_dir() test looks at.
  type Mode = bv32

  const S_IFDIR: Mode := 0x4000
  const S_IFREG: Mode := 0x8000

  predicate IsDirMode(mode: Mode) {
    mode & S_IFDIR != 0
  }

  datatype Kind = File | Dir

  function KindOf(mode: Mode): Kind {
    if IsDirMode(mode) then Dir else File
  }

  // Points in time and durations, in nanoseconds: the pair (tv_sec, tv_nsec)
  // compared lexicographically.
  type Time = nat

  function Min(a: nat, b: nat): nat {
    if a <= b then a else b
  }

  // What the kernel hands over as a directory entry name.
  predicate ValidName(name: string) {
    name != "" && '/' !in name
  }
}
