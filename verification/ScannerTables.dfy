/**
  The constant tables of the generated matcher. The 256 entries of yy_ec are
  laid out in rows of 16.
 */
module ScannerTables {

  const YY_ACCEPT: seq<nat> := [0, 0, 0, 6, 4, 5, 4, 1, 2, 0, 0, 0, 3, 0]
  const YY_META: seq<nat> := [0, 1, 1, 1, 2, 1, 1, 1]
  const YY_BASE: seq<nat> := [0, 0, 0, 13, 14, 14, 9, 14, 14, 8, 3, 2, 14, 14, 7]
  const YY_DEF: seq<nat> := [0, 13, 1, 13, 13, 13, 14, 13, 13, 14, 13, 13, 13, 0, 13]
  const YY_NXT: seq<nat> := [0, 4, 5, 4, 6, 7, 8, 4, 9, 12, 11, 10, 10, 13, 3, 13, 13, 13, 13, 13, 13, 13]
  const YY_CHK: seq<nat> := [0, 1, 1, 1, 1, 1, 1, 1, 14, 11, 10, 9, 6, 3, 13, 13, 13, 13, 13, 13, 13, 13]

  const EC_00: seq<nat> := [0, 1, 1, 1, 1, 1, 1, 1, 1, 1, 2, 1, 1, 1, 1, 1]
  const EC_ONES: seq<nat> := [1, 1, 1, 1, 1, 1, 1, 1, 1, 1, 1, 1, 1, 1, 1, 1]
  const EC_20: seq<nat> := [1, 1, 1, 3, 4, 1, 1, 1, 1, 1, 1, 5, 1, 6, 1, 1]
  const EC_30: seq<nat> := [7, 7, 7, 7, 7, 7, 7, 7, 7, 7, 1, 1, 1, 1, 1, 1]
  const EC_40: seq<nat> := [1, 7, 7, 7, 7, 7, 7, 1, 1, 1, 1, 1, 1, 1, 1, 1]

  const EC_LOW := EC_00 + EC_ONES + EC_20 + EC_30
  const EC_MIDDLE := EC_40 + EC_ONES + EC_40 + EC_ONES
  const EC_HIGH := EC_ONES + EC_ONES + EC_ONES + EC_ONES
  const YY_EC: seq<nat> := EC_LOW + EC_MIDDLE + EC_HIGH + EC_HIGH
}
