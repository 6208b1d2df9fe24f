/** The library's error codes; functions return them negated. */
module Errors {
  const NLE_NOMEM := 5
  const NLE_INVAL := 7
  const NLE_RANGE := 8
  const NLE_SEQ_MISMATCH := 16
  const NLE_MSG_OVERFLOW := 17
  const NLE_MSG_TRUNC := 18
  const NLE_MSG_TOOSHORT := 21
  const NLE_MSGTYPE_NOSUPPORT := 22
  const NLE_OBJ_MISMATCH := 23

  /** The numbers a caller sees. */
  lemma ByNumber()
    ensures NLE_NOMEM == 5 && NLE_INVAL == 7 && NLE_RANGE == 8 && NLE_MSG_TOOSHORT == 21
    ensures NLE_MSGTYPE_NOSUPPORT == 22 && NLE_OBJ_MISMATCH == 23
  {
  }
}
