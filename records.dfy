/**
 * The records server.js keeps in its three in-memory arrays (lines 44-46)
 * and the temp folder beside them, as values.
 *
 * Ids are integers and `===` on them is integer equality.  A field that a
 * request body may leave out (`time`, `date`, `repeat_type`, `title`) is an
 * `Option`, `None` standing for JavaScript's `undefined`.
 */
module Records {
  import opened Seqs
  import opened Names

  /** An entry of `announcementDatabase`, built at line 196 or line 213. */
  datatype Announcement = Announcement(id: int, title: string, audioUrl: string, createdAt: Option<string>)

  /** The timing fields a schedule copies from its request body. */
  datatype Slot = Slot(time: Option<string>, date: Option<string>, repeatType: Option<string>)

  /** An entry of `scheduleDatabase`: a slot that plays announcement `announcementId`. */
  datatype Schedule = Schedule(id: int, announcementId: int, slot: Slot, isActive: bool)

  /** An entry of `quranScheduleDatabase`: a slot with no link to an announcement. */
  datatype QuranSchedule = QuranSchedule(id: int, slot: Slot, isActive: bool)

  /** The three stores, and the names of the files in the temp folder. */
  datatype Db = Db(
    announcements: seq<Announcement>,
    schedules: seq<Schedule>,
    quranSchedules: seq<QuranSchedule>,
    files: set<string>)

  /** What a handler answers: a status and, for a new announcement, its entry. */
  datatype Reply =
    | Done                               // 200 `{ success: true }`
    | Created(entry: Announcement)       // 200 with the new entry
    | Rejected(code: nat, message: string)
    | NotFound                           // 404 `{ success: false }`
    | NoReply                            // the request is never answered

  datatype Outcome = Outcome(db: Db, reply: Reply)

  /** JavaScript truthiness of an optional string: present and not empty. */
  predicate Truthy(o: Option<string>) {
    o.Some? && o.value != ""
  }

  /** `o || fallback`. */
  function OrElse(o: Option<string>, fallback: string): string {
    if Truthy(o) then o.value else fallback
  }

  /** The temp file an announcement's `audio_url` names (lines 238 and 288). */
  function FileOf(a: Announcement): string {
    LastSegment(a.audioUrl)
  }

  // The tests the handlers pass to `findIndex`, `find`, `some` and `filter`.

  function AnnouncementIs(id: int): Announcement -> bool {
    (a: Announcement) => a.id == id
  }

  function ScheduleIs(id: int): Schedule -> bool {
    (s: Schedule) => s.id == id
  }

  function RefersTo(announcementId: int): Schedule -> bool {
    (s: Schedule) => s.announcementId == announcementId
  }

  function RefersElsewhere(announcementId: int): Schedule -> bool {
    (s: Schedule) => s.announcementId != announcementId
  }

  function QuranScheduleIs(id: int): QuranSchedule -> bool {
    (s: QuranSchedule) => s.id == id
  }

  function QuranScheduleIsNot(id: int): QuranSchedule -> bool {
    (s: QuranSchedule) => s.id != id
  }

  /** Some announcement in the store has this id. */
  predicate Known(d: Db, id: int) {
    Any(d.announcements, AnnouncementIs(id))
  }

  /** Every schedule refers to an announcement that is in the store. */
  predicate Linked(d: Db) {
    forall k :: 0 <= k < |d.schedules| ==> Known(d, d.schedules[k].announcementId)
  }
}
