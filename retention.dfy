/**
  The per-torrent retention decision: an ordered rule chain that keeps or
  removes one torrent of the daemon's status snapshot.

  1. Eligibility: only torrents that are Seeding or Paused, do not carry the
     keep label and whose `is_finished` is exactly `True` go further.
  2. Seeding time: whole days of seeding (floor division by 86400) strictly
     above the configured number of days remove the torrent.
  3. Ratio: a fixed threshold R removes when ratio > R and R > -1; in `auto`
     mode the torrent's own stop ratio is the threshold and the torrent is
     removed only when its `stop_at_ratio` is exactly `True`.
  The first rule that fires decides.
 */
module Retention {
  import opened Values
  import opened Settings

  const SecondsPerDay: int := 60 * 60 * 24

  /** One entry of the daemon's status snapshot, after decoding. The two
      flags stay values, because the rules test them for identity with
      `True`; `name` and `timeAdded` are only ever logged. */
  datatype TorrentStatus = TorrentStatus(
    name: string,
    state: string,
    torrentLabel: string,
    isFinished: Value,
    seedingTime: int,
    timeAdded: int,
    ratio: real,
    stopRatio: real,
    stopAtRatio: Value)

  datatype Reason = SeedingTime | FixedRatio | AutoRatio

  /** Why a torrent is kept; `StopAtRatioOff` is the case the source logs at
      debug level: ratio above the stop ratio, but stopping is switched off. */
  datatype KeepReason = WrongState | KeepLabel | NotFinished | StopAtRatioOff | NoRuleFired

  datatype Decision = Keep(why: KeepReason) | Remove(reason: Reason)

  predicate Eligible(t: TorrentStatus, p: Policy) {
    && (t.state == "Seeding" || t.state == "Paused")
    && t.torrentLabel != p.keepLabel
    && t.isFinished == Bool(true)
  }

  /** `seeding_time // 86400`: whole days, rounded towards minus infinity. */
  function SeedingDays(seconds: int): (days: int)
    ensures days * SecondsPerDay <= seconds < days * SecondsPerDay + SecondsPerDay
  {
    seconds / SecondsPerDay
  }

  predicate SeedingExpired(t: TorrentStatus, p: Policy) {
    SeedingDays(t.seedingTime) > p.days
  }

  predicate FixedRatioFires(t: TorrentStatus, p: Policy) {
    p.ratio.Fixed? && t.ratio > p.ratio.threshold && p.ratio.threshold > -1.0
  }

  predicate AutoRatioFires(t: TorrentStatus, p: Policy) {
    p.ratio.Auto? && t.ratio > t.stopRatio && t.stopAtRatio == Bool(true)
  }

  /** The rule chain of the snapshot loop, for one torrent. */
  function Decide(t: TorrentStatus, p: Policy): (d: Decision)
    ensures d.Remove? <==>
      Eligible(t, p) && (SeedingExpired(t, p) || FixedRatioFires(t, p) || AutoRatioFires(t, p))
    ensures d.Remove? && SeedingExpired(t, p) ==> d.reason == SeedingTime
    ensures d == Remove(FixedRatio) ==> !SeedingExpired(t, p) && p.ratio.Fixed?
    ensures d == Remove(AutoRatio) ==> !SeedingExpired(t, p) && p.ratio.Auto?
    ensures d == Keep(StopAtRatioOff) <==>
      && Eligible(t, p) && !SeedingExpired(t, p) && p.ratio.Auto?
      && t.ratio > t.stopRatio && t.stopAtRatio != Bool(true)
  {
    if t.state != "Seeding" && t.state != "Paused" then Keep(WrongState)
    else if t.torrentLabel == p.keepLabel then Keep(KeepLabel)
    else if t.isFinished != Bool(true) then Keep(NotFinished)
    else if SeedingDays(t.seedingTime) > p.days then Remove(SeedingTime)
    else
      match p.ratio
      case Fixed(r) =>
        if t.ratio > r && r > -1.0 then Remove(FixedRatio) else Keep(NoRuleFired)
      case Auto =>
        if t.ratio > t.stopRatio then
          if t.stopAtRatio == Bool(true) then Remove(AutoRatio) else Keep(StopAtRatioOff)
        else Keep(NoRuleFired)
  }

  // ---------------------------------------------------------------------
  // Properties of the rule chain

  /** Whatever its other fields, a torrent outside the eligibility gate is
      kept. */
  lemma IneligibleKept(t: TorrentStatus, p: Policy)
    requires (t.state != "Seeding" && t.state != "Paused")
          || t.torrentLabel == p.keepLabel
          || t.isFinished != Bool(true)
    ensures Decide(t, p).Keep?
  {
  }

  /** The seeding rule fires exactly when the seeding time reaches one day
      more than the configured number of days. */
  lemma SeedingBoundary(t: TorrentStatus, p: Policy)
    requires Eligible(t, p)
    ensures Decide(t, p) == Remove(SeedingTime) <==> t.seedingTime >= (p.days + 1) * SecondsPerDay
  {
    var d := SeedingDays(t.seedingTime);
    if d > p.days {
      assert d >= p.days + 1;
    } else {
      assert t.seedingTime < (p.days + 1) * SecondsPerDay;
    }
  }

  /** A fixed threshold of -1 or less never removes anything by ratio. */
  lemma FixedThresholdDisabled(t: TorrentStatus, p: Policy)
    requires p.ratio.Fixed? && p.ratio.threshold <= -1.0
    ensures Decide(t, p) == Remove(SeedingTime) || Decide(t, p).Keep?
  {
  }

  /** In `auto` mode a torrent whose `stop_at_ratio` is not `True` is
      removed only by the seeding rule. */
  lemma AutoNeedsStopAtRatio(t: TorrentStatus, p: Policy)
    requires p.ratio.Auto? && t.stopAtRatio != Bool(true)
    ensures Decide(t, p) == Remove(SeedingTime) || Decide(t, p).Keep?
  {
  }

  // ---------------------------------------------------------------------
  // Worked cases

  function Sample(seconds: int, ratio: real, stopRatio: real, stopAtRatio: bool): TorrentStatus {
    TorrentStatus("sample", "Seeding", "", Bool(true), seconds, 0, ratio, stopRatio, Bool(stopAtRatio))
  }

  /** Thirty days and a second of seeding against 25 days: removed; exactly
      25 days: kept, since the comparison is strict. */
  lemma SeedingCases()
    ensures Decide(Sample(30 * SecondsPerDay + 1, 0.0, 2.0, true), Policy(25, Auto, "keep"))
            == Remove(SeedingTime)
    ensures Decide(Sample(25 * SecondsPerDay, 0.0, 2.0, true), Policy(25, Auto, "keep")).Keep?
  {
  }

  /** `auto` with ratio 3.0 above stop ratio 2.0: removed when stopping is
      on, kept (and logged) when it is off. */
  lemma AutoRatioCases()
    ensures Decide(Sample(0, 3.0, 2.0, true), Policy(25, Auto, "keep")) == Remove(AutoRatio)
    ensures Decide(Sample(0, 3.0, 2.0, false), Policy(25, Auto, "keep")) == Keep(StopAtRatioOff)
  {
  }

  /** A fixed threshold of 1.5 removes a torrent at ratio 2.0; -1 keeps it;
      the keep label keeps a torrent every rule would remove. */
  lemma FixedRatioAndLabelCases()
    ensures Decide(Sample(0, 2.0, 9.0, false), Policy(25, Fixed(1.5), "keep")) == Remove(FixedRatio)
    ensures Decide(Sample(0, 2.0, 9.0, false), Policy(25, Fixed(-1.0), "keep")).Keep?
    ensures Decide(Sample(30 * SecondsPerDay, 3.0, 2.0, true).(torrentLabel := "keep"),
                   Policy(25, Auto, "keep")) == Keep(KeepLabel)
  {
  }
}
