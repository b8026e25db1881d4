/** An optional value, shared by the page allocator and the file system model: None stands
    for the NULL pointer or the missing entry of the source. */
module Optional {

  datatype Option<T> = None | Some(value: T)
}
