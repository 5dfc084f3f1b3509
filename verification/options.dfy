/** Optional values: the `None` the dashboard's reactive calculations return
    when there is nothing to show. */
module Options {

  datatype Option<+T> = None | Some(value: T)
}
