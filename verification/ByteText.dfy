/** Strings in byte-addressed memory, and pointers into it. */
module ByteText {
  import opened Machine

  /** NULL, or the place an address points to. */
  datatype Pointer = Null | At(offset: nat)

  /** A C string without its NUL. */
  type ByteString = s: seq<Byte> | 0 !in s

  /** A C string from `p` to its NUL at `end`. */
  ghost predicate IsString(s: seq<Byte>, p: nat, end: nat) {
    p <= end < |s| && s[end] == 0 && forall k :: p <= k < end ==> s[k] != 0
  }
}
