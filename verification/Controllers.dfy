/** The names of the two controllers (common.hpp). */
module Controllers {
  datatype ControllerId = First | Second
}
