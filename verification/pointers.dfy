/** C pointers to library objects, as the wrapper's static variables hold them. */
module Pointers {
  type Ptr = nat

  const NULL: Ptr := 0
}
