/** What management commands answer. */
module Management {

  datatype Response =
    | RDY | BAD_PARAMS | UNSUPPORTED_TYPE | NO_SUCH_OBJECT | INVALID_OPERATION | INVALID_STATE | OVERFLOW | INVALID_DST
}
