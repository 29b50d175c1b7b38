/** Shared vocabulary of the model. */
module Common {

  datatype Option<+T> = None | Some(value: T)

  type Content = string
  type Path = string
  type Pid = nat

  /** SHA-256, idealised: a digest is equal to another exactly when the hashed bytes are. */
  datatype Digest = Sha256(content: Content)
}
