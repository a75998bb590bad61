/**
 * The schedule check of server.js (lines 352-385): what is due at the
 * current minute.  The clock is read as hours, minutes and the `en-CA`
 * date string; the check itself is a pure read of the stores.
 */
module Evaluator {
  import opened Seqs
  import opened Names
  import opened Records

  /**
   * Lines 361-362 and 374-375: the time matches, and the date matches or the
   * slot is not a one-off.  A missing `repeat_type` is not 'once', so such a
   * slot recurs; a missing `time` never matches.
   */
  predicate IsDue(slot: Slot, now: string, today: string) {
    slot.time == Some(now) && (slot.date == Some(today) || slot.repeatType != Some("once"))
  }

  function ScheduleDue(now: string, today: string): Schedule -> bool {
    (s: Schedule) => IsDue(s.slot, now, today)
  }

  function QuranScheduleDue(now: string, today: string): QuranSchedule -> bool {
    (s: QuranSchedule) => IsDue(s.slot, now, today)
  }

  /** A due schedule with the announcement it plays, if the store has one (line 368). */
  datatype DueAnnouncement = DueAnnouncement(schedule: Schedule, announcement: Option<Announcement>)

  /** The reply of the check. */
  datatype Report = Report(
    currentTime: string,
    currentDate: string,
    announcements: seq<DueAnnouncement>,
    quran: seq<QuranSchedule>)

  /** Lines 364-369: each schedule joined to the first announcement with its id. */
  function Join(due: seq<Schedule>, announcements: seq<Announcement>): seq<DueAnnouncement> {
    seq(|due|, k requires 0 <= k < |due| =>
      DueAnnouncement(due[k], Find(announcements, AnnouncementIs(due[k].announcementId))))
  }

  function Check(d: Db, hours: nat, minutes: nat, today: string): Report {
    var now := FormatTime(hours, minutes);
    Report(now, today,
           Join(Filter(d.schedules, ScheduleDue(now, today)), d.announcements),
           Filter(d.quranSchedules, QuranScheduleDue(now, today)))
  }

  /** The schedules of a list of due announcements. */
  function SchedulesOf(xs: seq<DueAnnouncement>): (r: seq<Schedule>)
    ensures |r| == |xs| && forall k :: 0 <= k < |xs| ==> r[k] == xs[k].schedule
  {
    seq(|xs|, k requires 0 <= k < |xs| => xs[k].schedule)
  }

  /**
   * The due announcement schedules are exactly the stored ones whose slot is
   * due -- as often as they are stored, and in store order -- and each is
   * joined to the first announcement with its id, or to none when the store
   * has no such announcement.
   */
  lemma DueAnnouncementsExactly(d: Db, hours: nat, minutes: nat, today: string)
    ensures var r := Check(d, hours, minutes, today); var now := FormatTime(hours, minutes);
      var due := SchedulesOf(r.announcements);
      IsSubseq(due, d.schedules) &&
      (forall s :: multiset(due)[s] == if IsDue(s.slot, now, today) then multiset(d.schedules)[s] else 0) &&
      forall k :: 0 <= k < |r.announcements| ==>
        var e := r.announcements[k];
        (e.announcement.None? <==> !Known(d, e.schedule.announcementId)) &&
        (e.announcement.Some? ==> exists i: nat ::
           IsFirst(d.announcements, AnnouncementIs(e.schedule.announcementId), i) &&
           e.announcement.value == d.announcements[i])
  {
    var now := FormatTime(hours, minutes);
    var f := Filter(d.schedules, ScheduleDue(now, today));
    var r := Check(d, hours, minutes, today);
    assert SchedulesOf(r.announcements) == f;
  }

  /** The due Quran schedules are exactly the stored ones whose slot is due, in store order. */
  lemma DueQuranExactly(d: Db, hours: nat, minutes: nat, today: string)
    ensures var r := Check(d, hours, minutes, today); var now := FormatTime(hours, minutes);
      IsSubseq(r.quran, d.quranSchedules) &&
      forall s :: multiset(r.quran)[s] == if IsDue(s.slot, now, today) then multiset(d.quranSchedules)[s] else 0
  {
    var now := FormatTime(hours, minutes);
    var r := Check(d, hours, minutes, today);
    assert r.quran == Filter(d.quranSchedules, QuranScheduleDue(now, today));
  }

  /** In linked stores every due announcement schedule finds its announcement. */
  lemma LinkedDueJoined(d: Db, hours: nat, minutes: nat, today: string)
    requires Linked(d)
    ensures forall e :: e in Check(d, hours, minutes, today).announcements ==> e.announcement.Some?
  {
    var now := FormatTime(hours, minutes);
    var f := Filter(d.schedules, ScheduleDue(now, today));
    var r := Check(d, hours, minutes, today);
    forall e | e in r.announcements ensures e.announcement.Some? {
      var k :| 0 <= k < |r.announcements| && r.announcements[k] == e;
      FilterMember(d.schedules, ScheduleDue(now, today), f[k]);
      var n :| 0 <= n < |d.schedules| && d.schedules[n] == f[k];
      assert Known(d, d.schedules[n].announcementId);
    }
  }

  /** The reply carries the clock as `HH:MM`, which names the minute of the day. */
  lemma CheckClock(d: Db, hours: nat, minutes: nat, today: string)
    requires hours < 24 && minutes < 60
    ensures var r := Check(d, hours, minutes, today);
      |r.currentTime| == 5 && r.currentTime[2] == ':' && r.currentDate == today &&
      forall h: nat, m: nat :: h < 24 && m < 60 && FormatTime(h, m) == r.currentTime ==> h == hours && m == minutes
  {
    forall h: nat, m: nat | h < 24 && m < 60 && FormatTime(h, m) == FormatTime(hours, minutes)
      ensures h == hours && m == minutes
    {
      TimeInjective(h, m, hours, minutes);
    }
    TimeRoundTrip(hours, minutes);
  }
}
