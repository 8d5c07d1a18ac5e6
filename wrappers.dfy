/** The optional value used wherever the source yields "nothing" (a regex match that is
    null, a message with no candidate address, a relay that posted no notification). */
module Wrappers {

  datatype Option<+T> = None | Some(value: T)
}
