/** Optional values: the nullable columns (Age, Medal) of the athlete table. */
module Options {

  datatype Option<+T> = None | Some(value: T)
}
