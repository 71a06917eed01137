/**
 File modes, as far as they decide what the owner of a file may do.  The process owns what it works on and is not
 privileged.
 */
module Permissions {

  type Mode = bv12

  /** The owner bits that a directory is created with, so that it can be filled. */
  const OWNER: Mode := 0x1C0

  predicate OwnerReads(mode: Mode) { mode & 0x100 != 0 }

  predicate OwnerWrites(mode: Mode) { mode & 0x80 != 0 }

  predicate OwnerSearches(mode: Mode) { mode & 0x40 != 0 }

  /** Names can be made and taken away in a directory of this mode. */
  predicate OwnerChanges(mode: Mode) { OwnerWrites(mode) && OwnerSearches(mode) }

  lemma OwnerIsOpen(mode: Mode)
    ensures OwnerReads(mode | OWNER) && OwnerChanges(mode | OWNER)
  {
  }
}
