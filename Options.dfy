/** The optional value used for "missing" results: a job file that does not exist,
    a delimiter that does not occur, a line that yields no request. */
module Options {

  datatype Option<+T> = None | Some(value: T)
}
