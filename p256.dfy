/** Constants of the NIST P-256 curve (FIPS 186-4, appendix D.1.2.3) that
    the BIGNUM code relies on. */
module P256 {

  /** p, returned by BN_get0_nist_prime_256: the prime of the field the
      curve is defined over. */
  const FieldPrime: int := 0xFFFFFFFF_00000001_00000000_00000000_00000000_FFFFFFFF_FFFFFFFF_FFFFFFFF

  /** n, returned by EC_GROUP_get0_order: the order of the base point, the
      modulus shares and reconstruction compute in. */
  const Order: int := 0xFFFFFFFF_00000000_FFFFFFFF_FFFFFFFF_BCE6FAAD_A7179E84_F3B9CAC2_FC632551
}
