/** Parameter reparameterizations are external collaborators: the graph core only threads
    them through to the layers it configures, so a handle is all that is modelled. */
module Reparams {

  /** An opaque reparameterization object, identified by a handle. */
  datatype Reparameterization = Reparameterization(handle: nat)
}
