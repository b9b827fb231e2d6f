/** The optional value returned where the scheduler hands back "a request or NULL". */
module Options {

  datatype Option<+T> = None | Some(value: T)
}
