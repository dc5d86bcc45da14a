/** Optional values. `None` stands for the null model pointer the dialogs
    hand to their result view when a query produced nothing. */
module Wrappers {

  datatype Option<+T> = None | Some(value: T)

}
