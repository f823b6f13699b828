/** Git object names. */
module ObjectIds {

  predicate LowerHex(c: char) {
    '0' <= c <= '9' || 'a' <= c <= 'f'
  }

  /** A full lowercase object ID that is not all zeros. */
  predicate Oid(s: string) {
    && (|s| == 40 || |s| == 64)
    && (forall i :: 0 <= i < |s| ==> LowerHex(s[i]))
    && exists i :: 0 <= i < |s| && s[i] != '0'
  }
}
