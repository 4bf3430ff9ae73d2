/**
 Result codes of the hcom calls, as far as the modelled operations return them.
 */
module Results {
  datatype NResult = NN_OK | NN_ERROR | NN_INVALID_PARAM | NN_NOT_INITIALIZED
}
