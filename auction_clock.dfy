/**
 * `getAuctionStatus` of api.php: the auction's fixed schedule and the
 * status derived from the current time. Times are seconds since the Unix
 * epoch, read in UTC.
 */
module AuctionClock {

  /** 2025-08-18 00:00:00, reported as the start time but never compared. */
  const AuctionStart: int := 1755475200
  /** 2025-08-25 23:59:59, the hard-coded end of the auction. */
  const AuctionEnd: int := 1756166399

  datatype AuctionStatus = AuctionStatus(
    auctionName: string,
    status: string,
    isActive: bool,
    startTime: string,
    endTime: string,
    message: string)

  /** The response body of `getAuctionStatus` at time `now`. */
  function GetAuctionStatus(now: int): (r: AuctionStatus)
    ensures r.isActive <==> now < AuctionEnd
    ensures r.status == (if r.isActive then "active" else "ended")
    ensures r.message == (if r.isActive then "Auction is currently active" else "Auction has ended")
    ensures r.auctionName == "Auction 1"
    ensures r.startTime == "2025-08-18 00:00:00" && r.endTime == "2025-08-25 23:59:59"
  {
    var active := now < AuctionEnd;
    AuctionStatus("Auction 1", if active then "active" else "ended", active,
      "2025-08-18 00:00:00", "2025-08-25 23:59:59",
      if active then "Auction is currently active" else "Auction has ended")
  }

  /** Once ended, the auction stays ended. */
  lemma EndedStaysEnded(t1: int, t2: int)
    requires t1 <= t2 && !GetAuctionStatus(t1).isActive
    ensures !GetAuctionStatus(t2).isActive
  {
  }

  /** The start time is never checked: before it, the auction already reports active. */
  lemma ActiveBeforeStart(now: int)
    requires now < AuctionStart
    ensures GetAuctionStatus(now).isActive && GetAuctionStatus(now).status == "active"
  {
  }
}
