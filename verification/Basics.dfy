/** Types shared by all parts of the model. */
module Basics {

  datatype Option<+T> = None | Some(value: T)

  /** Peers are told apart by their ids. */
  type PeerId = nat
}
