/** An optional value.  The model uses `None` where the original code would
    read or write outside a vector (undefined behaviour in C++). */
module Options {

  datatype Option<T> = None | Some(value: T)
}
