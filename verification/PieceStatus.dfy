/** Where a piece stands. */
module PieceStatus {
  datatype Status = Needed | InProgress | Have | Skipped
}
