/** Optional values, for the engine's optional arguments and its unset best walker. */
module Options {

  datatype Option<T> = None | Some(value: T)
}
