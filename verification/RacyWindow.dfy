/** The racy-window rule shared by the directory scan cache and the fingerprint cache
    (internal/fsutil/racywindow.go).  Times are nanoseconds. */
module RacyWindow {

  const RACY_WINDOW := 2_000_000_000

  /** A stat may be trusted later only when it was already older than the window
      at the moment the contents were read. */
  predicate Settled(modTime: int, readAt: int) {
    modTime < readAt - RACY_WINDOW
  }

  /** The file system's half of the bargain: a change made at `changedAt` is stamped
      by rounding the time down by less than the window. */
  predicate HonestStamp(modTime: int, changedAt: int) {
    changedAt - RACY_WINDOW < modTime
  }

  /** A stat is settled, two seconds old, exactly when no change made from the nanosecond before the
      reading on can carry its time. */
  lemma SettledMeans(modTime: int, readAt: int)
    ensures Settled(modTime, readAt) <==> readAt - modTime > 2_000_000_000
    ensures Settled(modTime, readAt) <==>
      forall changedAt :: readAt - 1 <= changedAt ==> !HonestStamp(modTime, changedAt)
  {
    if !Settled(modTime, readAt) {
      assert HonestStamp(modTime, readAt - 1);
    }
  }
}
