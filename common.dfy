/** The opaque values the reply-block store handles. Their cryptographic content
    plays no part in the store, so only equality is assumed of them. */
module Types {
  /** A relay's fingerprint, the key under which reply blocks are filed. */
  type Fingerprint(==, 00)

  /** A single-use reply block (SURB). */
  type ReplyBlock(==, 00)
}

/** Rust's `Option`. */
module Wrappers {
  datatype Option<+T> = None | Some(value: T)
}
