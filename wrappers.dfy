/** Optional values: a claims query that found nothing, a message that is absent. */
module Wrappers {

  datatype Option<+T> = None | Some(value: T)
}
