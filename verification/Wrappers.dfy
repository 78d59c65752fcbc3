/** Types that several modules share. */
module Wrappers {
  datatype Option<T> = None | Some(value: T)
}

/** Sizes that several parts of the kernel share. */
module Limits {
  /** Slots of the thread table. */
  const NR_THREADS: nat := 32
}
