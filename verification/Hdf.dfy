/** Definitions shared by the driver models: status codes, bytes, optional values. */
module Hdf {

  const HDF_SUCCESS: int := 0
  const HDF_FAILURE: int := -1
  const HDF_ERR_NOT_SUPPORT: int := -2
  const HDF_ERR_INVALID_PARAM: int := -3
  const HDF_ERR_MALLOC_FAIL: int := -6
  const HDF_ERR_TIMEOUT: int := -7

  type byte = b: int | 0 <= b < 256

  datatype Option<+T> = None | Some(value: T)

  function Min(a: nat, b: nat): nat {
    if a < b then a else b
  }
}
