/** Where the code as written and the evidently intended behaviour part
    ways, the models take a `Reading` that selects one or the other. */
module Readings {

  datatype Reading = AsWritten | Intended
}
