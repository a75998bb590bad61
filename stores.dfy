/**
 * The store handlers of server.js as transitions on `Db`: manual delete of
 * an announcement (lines 233-251), schedule create, delete and date patch
 * (lines 254-318) and their Quran counterparts (lines 324-347).
 *
 * Deleting a schedule runs the reference-counted clean-up: the announcement
 * it played, and that announcement's file, go once no remaining schedule
 * refers to the announcement.  A manual delete instead takes the
 * announcement and every schedule that refers to it.  Both keep `Linked`:
 * no schedule is left pointing at an announcement that is gone.
 */
module Stores {
  import opened Seqs
  import opened Names
  import opened Records

  // ---------------------------------------------------------------------
  // Manual delete (server.js lines 233-251)
  // ---------------------------------------------------------------------

  /**
   * Manual delete of the announcement with the id: a 404 with nothing
   * changed when the store has none.
   */
  function DeleteAnnouncement(d: Db, id: int): (r: Outcome)
    ensures r.reply == NotFound <==> !Known(d, id)
    ensures r.reply == NotFound ==> r.db == d
    ensures r.reply == NotFound || r.reply == Done
    ensures r.db.quranSchedules == d.quranSchedules
  {
    match FindIndex(d.announcements, AnnouncementIs(id))
    case None => Outcome(d, NotFound)
    case Some(i) =>
      var gone := d.announcements[i];
      Outcome(Db(RemoveAt(d.announcements, i),
                 Filter(d.schedules, RefersElsewhere(id)),
                 d.quranSchedules,
                 d.files - {FileOf(gone)}), Done)
  }

  /**
   * When the store has the id: the first announcement with it goes, with its
   * file when the temp folder has it, and the schedules left are exactly
   * those that referred elsewhere, in their order.
   */
  lemma DeleteAnnouncementFirst(d: Db, id: int, i: nat)
    requires IsFirst(d.announcements, AnnouncementIs(id), i)
    ensures var r := DeleteAnnouncement(d, id).db;
      r.announcements == RemoveAt(d.announcements, i) &&
      r.files == d.files - {FileOf(d.announcements[i])} &&
      IsSubseq(r.schedules, d.schedules) &&
      (forall s :: multiset(r.schedules)[s] == if s.announcementId != id then multiset(d.schedules)[s] else 0) &&
      forall s :: s in r.schedules <==> s in d.schedules && s.announcementId != id
  {
    FirstUnique(d.announcements, AnnouncementIs(id), i);
    var r := DeleteAnnouncement(d, id).db;
    assert r.schedules == Filter(d.schedules, RefersElsewhere(id));
    forall s ensures s in r.schedules <==> s in d.schedules && s.announcementId != id {
      FilterMember(d.schedules, RefersElsewhere(id), s);
    }
  }

  /** Deleting the id of the entry in front removes just that entry, and its file. */
  lemma DeleteFront(d: Db, a: Announcement, rest: seq<Announcement>)
    requires d.announcements == [a] + rest
    ensures var r := DeleteAnnouncement(d, a.id);
      r.reply == Done && r.db.announcements == rest && r.db.files == d.files - {FileOf(a)} &&
      forall s :: s in r.db.schedules <==> s in d.schedules && s.announcementId != a.id
  {
    assert IsFirst(d.announcements, AnnouncementIs(a.id), 0);
    DeleteAnnouncementFirst(d, a.id, 0);
    assert RemoveAt(d.announcements, 0) == rest;
  }

  /** The announcements left keep their order, and only the deleted one is missing. */
  lemma DeleteAnnouncementKeepsOrder(d: Db, id: int)
    requires Known(d, id)
    ensures var r := DeleteAnnouncement(d, id).db;
      IsSubseq(r.announcements, d.announcements) && |r.announcements| == |d.announcements| - 1
  {
    var i := FindIndex(d.announcements, AnnouncementIs(id)).value;
    RemoveAtSubseq(d.announcements, i);
  }

  /** A manual delete leaves no schedule pointing at a missing announcement. */
  lemma DeleteAnnouncementLinked(d: Db, id: int)
    requires Linked(d)
    ensures Linked(DeleteAnnouncement(d, id).db)
  {
    var r := DeleteAnnouncement(d, id).db;
    if Known(d, id) {
      var i := FindIndex(d.announcements, AnnouncementIs(id)).value;
      DeleteAnnouncementFirst(d, id, i);
      forall k | 0 <= k < |r.schedules| ensures Known(r, r.schedules[k].announcementId) {
        var s := r.schedules[k];
        assert s in d.schedules;
        var n :| 0 <= n < |d.schedules| && d.schedules[n] == s;
        assert Known(d, s.announcementId);
        KnownAfterRemove(d, r, i, s.announcementId);
      }
    }
  }

  // ---------------------------------------------------------------------
  // Schedule create (server.js lines 254-257)
  // ---------------------------------------------------------------------

  /** The body's fields with a clock id and `is_active: true`, at the end. */
  function CreateSchedule(d: Db, announcementId: int, slot: Slot, now: int): (r: Outcome)
    ensures r.reply == Done
    ensures r.db.announcements == d.announcements && r.db.files == d.files
    ensures r.db.quranSchedules == d.quranSchedules
    ensures |r.db.schedules| == |d.schedules| + 1 && r.db.schedules[..|d.schedules|] == d.schedules
    ensures r.db.schedules[|d.schedules|] == Schedule(now, announcementId, slot, true)
  {
    Outcome(d.(schedules := d.schedules + [Schedule(now, announcementId, slot, true)]), Done)
  }

  /**
   * The handler does not check that the announcement exists: the stores stay
   * linked exactly when it does.
   */
  lemma CreateScheduleLinked(d: Db, announcementId: int, slot: Slot, now: int)
    requires Linked(d)
    ensures Linked(CreateSchedule(d, announcementId, slot, now).db) <==> Known(d, announcementId)
  {
    var r := CreateSchedule(d, announcementId, slot, now).db;
    assert r.schedules[|d.schedules|].announcementId == announcementId;
    if Known(d, announcementId) {
      forall k | 0 <= k < |r.schedules| ensures Known(r, r.schedules[k].announcementId) {
        if k < |d.schedules| {
          assert r.schedules[k] == d.schedules[k];
        }
      }
    }
  }

  // ---------------------------------------------------------------------
  // Schedule delete and the clean-up (server.js lines 260-306)
  // ---------------------------------------------------------------------

  /**
   * Lines 276-302: with `rest` the schedules that remain, announcement
   * `announcementId` and its file go when no schedule of `rest` refers to it
   * and the store has it; otherwise nothing but the schedules changes.
   */
  function Cleanup(d: Db, rest: seq<Schedule>, announcementId: int): (r: Db)
    ensures r.schedules == rest && r.quranSchedules == d.quranSchedules
    ensures Any(rest, RefersTo(announcementId)) || !Known(d, announcementId) ==>
      r.announcements == d.announcements && r.files == d.files
    ensures !Any(rest, RefersTo(announcementId)) ==>
      forall j: nat :: IsFirst(d.announcements, AnnouncementIs(announcementId), j) ==>
        r.announcements == RemoveAt(d.announcements, j) &&
        r.files == d.files - {FileOf(d.announcements[j])}
  {
    if Any(rest, RefersTo(announcementId)) then d.(schedules := rest)
    else match FindIndex(d.announcements, AnnouncementIs(announcementId))
      case None => d.(schedules := rest)
      case Some(j) =>
        FirstUnique(d.announcements, AnnouncementIs(announcementId), j);
        Db(RemoveAt(d.announcements, j), rest, d.quranSchedules,
           d.files - {FileOf(d.announcements[j])})
  }

  /** The first schedule with the id goes, then the clean-up runs for its announcement. */
  function DeleteSchedule(d: Db, id: int): (r: Outcome)
    ensures r.reply == NotFound <==> !Any(d.schedules, ScheduleIs(id))
    ensures r.reply == NotFound ==> r.db == d
    ensures r.reply == NotFound || r.reply == Done
    ensures r.reply == Done ==>
      forall i: nat :: IsFirst(d.schedules, ScheduleIs(id), i) ==>
        r.db == Cleanup(d, RemoveAt(d.schedules, i), d.schedules[i].announcementId)
  {
    match FindIndex(d.schedules, ScheduleIs(id))
    case None => Outcome(d, NotFound)
    case Some(i) =>
      FirstUnique(d.schedules, ScheduleIs(id), i);
      Outcome(Cleanup(d, RemoveAt(d.schedules, i), d.schedules[i].announcementId), Done)
  }

  /**
   * Deleting a schedule right after creating it, under a fresh id, removes
   * just that schedule and then runs the clean-up on the stores as they
   * were: an announcement no other schedule plays goes with it.
   */
  lemma CreateThenDelete(d: Db, announcementId: int, slot: Slot, now: int)
    requires !Any(d.schedules, ScheduleIs(now))
    ensures var c := CreateSchedule(d, announcementId, slot, now).db;
      DeleteSchedule(c, now) == Outcome(Cleanup(d, d.schedules, announcementId), Done)
  {
    var c := CreateSchedule(d, announcementId, slot, now).db;
    var n := |d.schedules|;
    assert forall k :: 0 <= k < n ==> c.schedules[k] == d.schedules[k];
    assert IsFirst(c.schedules, ScheduleIs(now), n);
    assert RemoveAt(c.schedules, n) == d.schedules;
    CleanupReads(c, d, d.schedules, announcementId);
  }

  /**
   * The announcement of the deleted schedule leaves the store exactly when
   * no remaining schedule refers to it (and the store had it); when it
   * stays, the store and the folder are as they were.
   */
  lemma DeleteScheduleCascade(d: Db, id: int, i: nat)
    requires IsFirst(d.schedules, ScheduleIs(id), i)
    ensures var r := DeleteSchedule(d, id).db;
      var a := d.schedules[i].announcementId;
      r.schedules == RemoveAt(d.schedules, i) &&
      (r.announcements != d.announcements <==> !Any(r.schedules, RefersTo(a)) && Known(d, a)) &&
      (r.announcements == d.announcements ==> r.files == d.files)
  {
    var a := d.schedules[i].announcementId;
    var rest := RemoveAt(d.schedules, i);
    var r := DeleteSchedule(d, id).db;
    assert r == Cleanup(d, rest, a);
    if !Any(rest, RefersTo(a)) && Known(d, a) {
      var j := FindIndex(d.announcements, AnnouncementIs(a)).value;
      assert |r.announcements| == |d.announcements| - 1;
    }
  }

  /** The clean-up never takes an announcement that a remaining schedule plays. */
  lemma CleanupLinked(d: Db, rest: seq<Schedule>, announcementId: int)
    requires forall k :: 0 <= k < |rest| ==> Known(d, rest[k].announcementId)
    ensures Linked(Cleanup(d, rest, announcementId))
  {
    var r := Cleanup(d, rest, announcementId);
    if !Any(rest, RefersTo(announcementId)) && Known(d, announcementId) {
      var j := FindIndex(d.announcements, AnnouncementIs(announcementId)).value;
      FirstUnique(d.announcements, AnnouncementIs(announcementId), j);
      forall k | 0 <= k < |rest| ensures Known(r, rest[k].announcementId) {
        assert !RefersTo(announcementId)(rest[k]);
        KnownAfterRemove(d, r, j, rest[k].announcementId);
      }
    }
  }

  /** Splicing out another announcement keeps an id known. */
  lemma KnownAfterRemove(d: Db, r: Db, j: nat, b: int)
    requires j < |d.announcements| && r.announcements == RemoveAt(d.announcements, j)
    requires Known(d, b) && d.announcements[j].id != b
    ensures Known(r, b)
  {
    var n :| 0 <= n < |d.announcements| && AnnouncementIs(b)(d.announcements[n]);
    var m := if n < j then n else n - 1;
    assert r.announcements[m] == d.announcements[n];
    assert AnnouncementIs(b)(r.announcements[m]);
  }

  /** Schedule delete leaves no schedule pointing at a missing announcement. */
  lemma DeleteScheduleLinked(d: Db, id: int)
    requires Linked(d)
    ensures Linked(DeleteSchedule(d, id).db)
  {
    if Any(d.schedules, ScheduleIs(id)) {
      var i := FindIndex(d.schedules, ScheduleIs(id)).value;
      var rest := RemoveAt(d.schedules, i);
      forall k | 0 <= k < |rest| ensures Known(d, rest[k].announcementId) {
        assert rest[k] == d.schedules[if k < i then k else k + 1];
      }
      CleanupLinked(d, rest, d.schedules[i].announcementId);
    }
  }

  /**
   * Two schedules that play the same announcement: deleting them in either
   * order ends in the same state.  The first delete, whichever it is, leaves
   * the announcements and the folder alone; the clean-up after the second
   * sees both schedules gone.
   */
  lemma SharedDeletesCommute(d: Db, i: nat, j: nat)
    requires i < j < |d.schedules|
    requires IsFirst(d.schedules, ScheduleIs(d.schedules[i].id), i)
    requires IsFirst(d.schedules, ScheduleIs(d.schedules[j].id), j)
    requires d.schedules[i].announcementId == d.schedules[j].announcementId
    ensures var x, y, a := d.schedules[i].id, d.schedules[j].id, d.schedules[i].announcementId;
      var afterX, afterY := DeleteSchedule(d, x).db, DeleteSchedule(d, y).db;
      afterX.announcements == d.announcements && afterX.files == d.files &&
      afterY.announcements == d.announcements && afterY.files == d.files &&
      DeleteSchedule(afterX, y).db == DeleteSchedule(afterY, x).db &&
      DeleteSchedule(afterX, y).db == Cleanup(d, RemoveAt(RemoveAt(d.schedules, j), i), a)
  {
    var s := d.schedules;
    RemoveAtCommute(s, i, j);
    DeleteReferenced(d, s[i].id, i, j);
    DeleteReferenced(d, s[j].id, j, i);
    SecondDelete(d, i, j);
    SecondDelete(d, j, i);
  }

  /** After schedule `i` is gone, deleting schedule `j` runs the clean-up on both gone. */
  lemma SecondDelete(d: Db, i: nat, j: nat)
    requires i < |d.schedules| && j < |d.schedules| && i != j
    requires IsFirst(d.schedules, ScheduleIs(d.schedules[j].id), j)
    ensures var rest := RemoveAt(d.schedules, i);
      DeleteSchedule(d.(schedules := rest), d.schedules[j].id).db ==
      Cleanup(d, RemoveAt(rest, if i < j then j - 1 else j), d.schedules[j].announcementId)
  {
    var rest := RemoveAt(d.schedules, i);
    var k := if i < j then j - 1 else j;
    FirstAfterRemove(d.schedules, ScheduleIs(d.schedules[j].id), j, i);
    assert rest[k] == d.schedules[j];
    DeleteAt(d.(schedules := rest), d.schedules[j].id, k);
    CleanupReads(d.(schedules := rest), d, RemoveAt(rest, k), d.schedules[j].announcementId);
  }

  /** Deleting schedule `i` while schedule `j` plays the same announcement. */
  lemma DeleteReferenced(d: Db, id: int, i: nat, j: nat)
    requires IsFirst(d.schedules, ScheduleIs(id), i)
    requires j < |d.schedules| && j != i
    requires d.schedules[j].announcementId == d.schedules[i].announcementId
    ensures DeleteSchedule(d, id).db == d.(schedules := RemoveAt(d.schedules, i))
  {
    var rest := RemoveAt(d.schedules, i);
    var k := if j < i then j else j - 1;
    assert rest[k] == d.schedules[j];
    assert RefersTo(d.schedules[i].announcementId)(rest[k]);
    DeleteAt(d, id, i);
  }

  lemma DeleteAt(d: Db, id: int, i: nat)
    requires IsFirst(d.schedules, ScheduleIs(id), i)
    ensures DeleteSchedule(d, id).db == Cleanup(d, RemoveAt(d.schedules, i), d.schedules[i].announcementId)
  {
    assert Any(d.schedules, ScheduleIs(id));
  }

  /** The clean-up reads the announcements, Quran schedules and files only. */
  lemma CleanupReads(d: Db, e: Db, rest: seq<Schedule>, announcementId: int)
    requires d.announcements == e.announcements && d.quranSchedules == e.quranSchedules && d.files == e.files
    ensures Cleanup(d, rest, announcementId) == Cleanup(e, rest, announcementId)
  {
  }

  // ---------------------------------------------------------------------
  // Schedule date patch (server.js lines 309-318)
  // ---------------------------------------------------------------------

  /** `date` of the first schedule with the id becomes the body's `date`. */
  function PatchSchedule(d: Db, id: int, date: Option<string>): (r: Outcome)
    ensures r.reply == NotFound <==> !Any(d.schedules, ScheduleIs(id))
    ensures r.reply == NotFound ==> r.db == d
    ensures r.reply == NotFound || r.reply == Done
    ensures r.db.announcements == d.announcements && r.db.files == d.files
    ensures r.db.quranSchedules == d.quranSchedules
    ensures |r.db.schedules| == |d.schedules|
    ensures forall i: nat :: IsFirst(d.schedules, ScheduleIs(id), i) ==>
      (forall k :: 0 <= k < |d.schedules| && k != i ==> r.db.schedules[k] == d.schedules[k]) &&
      var before, after := d.schedules[i], r.db.schedules[i];
      after.slot.date == date && after.slot.time == before.slot.time &&
      after.slot.repeatType == before.slot.repeatType &&
      after.id == before.id && after.announcementId == before.announcementId && after.isActive == before.isActive
  {
    match FindIndex(d.schedules, ScheduleIs(id))
    case None => Outcome(d, NotFound)
    case Some(i) =>
      FirstUnique(d.schedules, ScheduleIs(id), i);
      var s := d.schedules[i];
      Outcome(d.(schedules := d.schedules[i := s.(slot := s.slot.(date := date))]), Done)
  }

  /** A reschedule changes no link, so the stores stay linked. */
  lemma PatchScheduleLinked(d: Db, id: int, date: Option<string>)
    requires Linked(d)
    ensures Linked(PatchSchedule(d, id, date).db)
  {
    var r := PatchSchedule(d, id, date).db;
    forall k | 0 <= k < |r.schedules| ensures Known(r, r.schedules[k].announcementId) {
      if Any(d.schedules, ScheduleIs(id)) {
        var i := FindIndex(d.schedules, ScheduleIs(id)).value;
        assert r.schedules[k].announcementId == d.schedules[k].announcementId;
      }
    }
  }

  // ---------------------------------------------------------------------
  // Quran schedules (server.js lines 324-347)
  // ---------------------------------------------------------------------

  function CreateQuranSchedule(d: Db, slot: Slot, now: int): (r: Outcome)
    ensures r.reply == Done
    ensures r.db.announcements == d.announcements && r.db.schedules == d.schedules && r.db.files == d.files
    ensures |r.db.quranSchedules| == |d.quranSchedules| + 1
    ensures r.db.quranSchedules[..|d.quranSchedules|] == d.quranSchedules
    ensures r.db.quranSchedules[|d.quranSchedules|] == QuranSchedule(now, slot, true)
  {
    Outcome(d.(quranSchedules := d.quranSchedules + [QuranSchedule(now, slot, true)]), Done)
  }

  function PatchQuranSchedule(d: Db, id: int, date: Option<string>): (r: Outcome)
    ensures r.reply == NotFound <==> !Any(d.quranSchedules, QuranScheduleIs(id))
    ensures r.reply == NotFound ==> r.db == d
    ensures r.reply == NotFound || r.reply == Done
    ensures r.db.announcements == d.announcements && r.db.schedules == d.schedules && r.db.files == d.files
    ensures |r.db.quranSchedules| == |d.quranSchedules|
    ensures forall i: nat :: IsFirst(d.quranSchedules, QuranScheduleIs(id), i) ==>
      (forall k :: 0 <= k < |d.quranSchedules| && k != i ==> r.db.quranSchedules[k] == d.quranSchedules[k]) &&
      var before, after := d.quranSchedules[i], r.db.quranSchedules[i];
      after.slot.date == date && after.slot.time == before.slot.time &&
      after.slot.repeatType == before.slot.repeatType && after.id == before.id && after.isActive == before.isActive
  {
    match FindIndex(d.quranSchedules, QuranScheduleIs(id))
    case None => Outcome(d, NotFound)
    case Some(i) =>
      FirstUnique(d.quranSchedules, QuranScheduleIs(id), i);
      var s := d.quranSchedules[i];
      Outcome(d.(quranSchedules := d.quranSchedules[i := s.(slot := s.slot.(date := date))]), Done)
  }

  /** Every entry with the id goes (not only the first); it always succeeds. */
  function DeleteQuranSchedule(d: Db, id: int): (r: Outcome)
    ensures r.reply == Done
    ensures r.db.announcements == d.announcements && r.db.schedules == d.schedules && r.db.files == d.files
    ensures IsSubseq(r.db.quranSchedules, d.quranSchedules)
    ensures forall s :: multiset(r.db.quranSchedules)[s] == if s.id != id then multiset(d.quranSchedules)[s] else 0
    ensures forall s :: s in r.db.quranSchedules <==> s in d.quranSchedules && s.id != id
  {
    var rest := Filter(d.quranSchedules, QuranScheduleIsNot(id));
    Outcome(d.(quranSchedules := rest), Done)
  }

  /** Deleting an id no entry has changes nothing. */
  lemma DeleteQuranScheduleAbsent(d: Db, id: int)
    requires !Any(d.quranSchedules, QuranScheduleIs(id))
    ensures DeleteQuranSchedule(d, id).db == d
  {
    FilterKeepsAll(d.quranSchedules, QuranScheduleIsNot(id));
  }
}
