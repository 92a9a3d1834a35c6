/** Status codes of DDC operations. */
module StatusCodes {
  const DDCRC_OK: int := 0
  const DDCRC_DDC_DATA: int := -3001
  const DDCRC_NULL_RESPONSE: int := -3002
  const DDCRC_ALL_TRIES_ZERO: int := -3004
  const DDCRC_READ_ALL_ZERO: int := -3006
  const DDCRC_RETRIES: int := -3007
  const DDCRC_ALL_RESPONSES_NULL: int := -3011
  const DDCRC_DETERMINED_UNSUPPORTED: int := -3012
}
