/** Optional values: `None` stands for SQL NULL or a JavaScript `undefined`/`null` field. */
module Wrappers {

  datatype Option<+T> = None | Some(value: T)

}
