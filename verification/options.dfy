/** The optional value used where `matrix_impl.hpp` uses the sentinel `size_t(-1)`. */
module Options {

  datatype Option<+T> = None | Some(value: T)

}
