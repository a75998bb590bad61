/**
 * The server as the program runs it: one object whose three arrays
 * (server.js lines 44-46) and temp folder each handler changes in place,
 * step by step, in the source's order.  Each handler's contract states
 * that its new state and its reply are those of the corresponding
 * transition in `Stores` or `Pipeline`, where the properties of the stores
 * are proved; the schedule check changes nothing and answers what
 * `Evaluator.Check` describes.
 */
module Server {
  import opened Seqs
  import opened Names
  import opened Records
  import opened Lafaz
  import Stores
  import Pipeline
  import Evaluator

  class Backend {
    /** `BASE_URL`, fixed when the process starts (line 24). */
    const baseUrl: string
    var announcements: seq<Announcement>
    var schedules: seq<Schedule>
    var quranSchedules: seq<QuranSchedule>
    /** The names of the files in the temp folder. */
    var files: set<string>

    function State(): Db
      reads this
    {
      Db(announcements, schedules, quranSchedules, files)
    }

    /** Lines 44-51: empty stores over whatever the temp folder already holds. */
    constructor (baseUrl: string, files: set<string>)
      ensures this.baseUrl == baseUrl && State() == Db([], [], [], files)
    {
      this.baseUrl := baseUrl;
      announcements := [];
      schedules := [];
      quranSchedules := [];
      this.files := files;
    }

    /** `POST /api/tts/generate` (lines 130-207). */
    method Generate(text: Option<string>, title: Option<string>, ts: nat, env: Pipeline.Environment)
      returns (reply: Reply, spoken: Option<string>, mix: seq<Pipeline.Track>)
      modifies this
      ensures var r := Pipeline.Generate(old(State()), baseUrl, text, title, ts, env);
        State() == r.db && reply == r.reply && spoken == r.spoken && mix == r.mix
    {
      if !Truthy(text) {
        reply, spoken, mix := Rejected(400, Pipeline.EmptyText), None, [];
        return;
      }
      var islamicText := Normalize(text.value);
      reply, spoken, mix := Produce(islamicText, title, ts, env);
    }

    /** Lines 135-205: the rest of the request, on the normalised text. */
    method Produce(islamicText: string, title: Option<string>, ts: nat, env: Pipeline.Environment)
      returns (reply: Reply, spoken: Option<string>, mix: seq<Pipeline.Track>)
      modifies this
      ensures var r := Pipeline.Produce(old(State()), baseUrl, islamicText, title, ts, env);
        State() == r.db && reply == r.reply && spoken == r.spoken && mix == r.mix
    {
      spoken, mix := None, [];
      var txt, raw, final := TextFile(ts), RawFile(ts), FinalFile(ts);
      if !env.introPresent || !env.outroPresent {
        reply := Rejected(500, Pipeline.BellsMissing);
        return;
      }
      if !env.textWritten {
        reply := Rejected(500, Pipeline.TextWriteFailed);
        return;
      }
      files := files + {txt};
      spoken := Some(islamicText);
      if env.synthesis.wroteRaw {
        files := files + {raw};
      }
      if env.synthesis.exitError || raw !in files {
        if txt in files {
          files := files - {txt};
        }
        reply := Rejected(500, Pipeline.SynthesisFailed);
        return;
      }
      mix := Pipeline.MixPlan(ts);
      if !env.mixEnded {
        reply := NoReply;
        return;
      }
      files := files + {final};
      if raw in files {
        files := files - {raw};
      }
      if txt in files {
        files := files - {txt};
      }
      var entry := Announcement(ts, OrElse(title, Pipeline.Untitled), baseUrl + "/temp/" + final, Some(env.createdAt));
      announcements := [entry] + announcements;
      reply := Created(entry);
    }

    /** `POST /api/tts/upload` (lines 209-220), after multer has stored the file. */
    method Upload(file: Option<Pipeline.UploadedFile>, title: Option<string>, now: int) returns (reply: Reply)
      modifies this
      ensures var r := Pipeline.Upload(old(State()), baseUrl, file, title, now);
        State() == r.db && reply == r.reply
    {
      if file.None? {
        reply := Rejected(400, Pipeline.FileMissing);
        return;
      }
      var audioUrl := baseUrl + "/temp/" + file.value.filename;
      var entry := Announcement(now, OrElse(title, file.value.originalName), audioUrl, None);
      announcements := [entry] + announcements;
      reply := Created(entry);
    }

    /** `DELETE /api/announcements/:id` (lines 233-251). */
    method DeleteAnnouncement(id: int) returns (reply: Reply)
      modifies this
      ensures var r := Stores.DeleteAnnouncement(old(State()), id);
        State() == r.db && reply == r.reply
    {
      var index := FindIndex(announcements, AnnouncementIs(id));
      if index.None? {
        reply := NotFound;
        return;
      }
      var item := announcements[index.value];
      var fileName := FileOf(item);
      if fileName in files {
        files := files - {fileName};
      }
      announcements := RemoveAt(announcements, index.value);
      schedules := Filter(schedules, RefersElsewhere(id));
      reply := Done;
    }

    /** `POST /api/announcement-schedules` (lines 254-257). */
    method CreateSchedule(announcementId: int, slot: Slot, now: int) returns (reply: Reply)
      modifies this
      ensures var r := Stores.CreateSchedule(old(State()), announcementId, slot, now);
        State() == r.db && reply == r.reply
    {
      schedules := schedules + [Schedule(now, announcementId, slot, true)];
      reply := Done;
    }

    /** `DELETE /api/announcement-schedules/:id` (lines 260-306). */
    method DeleteSchedule(id: int) returns (reply: Reply)
      modifies this
      ensures var r := Stores.DeleteSchedule(old(State()), id);
        State() == r.db && reply == r.reply
    {
      var scheduleIndex := FindIndex(schedules, ScheduleIs(id));
      if scheduleIndex.None? {
        reply := NotFound;
        return;
      }
      var announcementId := schedules[scheduleIndex.value].announcementId;
      schedules := RemoveAt(schedules, scheduleIndex.value);
      var isUsedElsewhere := Any(schedules, RefersTo(announcementId));
      if !isUsedElsewhere {
        var annIndex := FindIndex(announcements, AnnouncementIs(announcementId));
        if annIndex.Some? {
          var item := announcements[annIndex.value];
          var fileName := FileOf(item);
          if fileName in files {
            files := files - {fileName};
          }
          announcements := RemoveAt(announcements, annIndex.value);
        }
      }
      reply := Done;
    }

    /** `PATCH /api/announcement-schedules/:id` (lines 309-318). */
    method PatchSchedule(id: int, date: Option<string>) returns (reply: Reply)
      modifies this
      ensures var r := Stores.PatchSchedule(old(State()), id, date);
        State() == r.db && reply == r.reply
    {
      var idx := FindIndex(schedules, ScheduleIs(id));
      if idx.None? {
        reply := NotFound;
        return;
      }
      var s := schedules[idx.value];
      schedules := schedules[idx.value := s.(slot := s.slot.(date := date))];
      reply := Done;
    }

    /** `POST /api/quran-schedules` (lines 324-331). */
    method CreateQuranSchedule(slot: Slot, now: int) returns (reply: Reply)
      modifies this
      ensures var r := Stores.CreateQuranSchedule(old(State()), slot, now);
        State() == r.db && reply == r.reply
    {
      quranSchedules := quranSchedules + [QuranSchedule(now, slot, true)];
      reply := Done;
    }

    /** `PATCH /api/quran-schedules/:id` (lines 332-341). */
    method PatchQuranSchedule(id: int, date: Option<string>) returns (reply: Reply)
      modifies this
      ensures var r := Stores.PatchQuranSchedule(old(State()), id, date);
        State() == r.db && reply == r.reply
    {
      var idx := FindIndex(quranSchedules, QuranScheduleIs(id));
      if idx.None? {
        reply := NotFound;
        return;
      }
      var s := quranSchedules[idx.value];
      quranSchedules := quranSchedules[idx.value := s.(slot := s.slot.(date := date))];
      reply := Done;
    }

    /** `DELETE /api/quran-schedules/:id` (lines 342-347). */
    method DeleteQuranSchedule(id: int) returns (reply: Reply)
      modifies this
      ensures var r := Stores.DeleteQuranSchedule(old(State()), id);
        State() == r.db && reply == r.reply
    {
      quranSchedules := Filter(quranSchedules, QuranScheduleIsNot(id));
      reply := Done;
    }

    /**
     * `GET /api/schedules/check` (lines 352-385), with the clock read as
     * hours, minutes and the local date.  Nothing changes.
     */
    method CheckSchedules(hours: nat, minutes: nat, today: string) returns (report: Evaluator.Report)
      ensures report == Evaluator.Check(State(), hours, minutes, today)
    {
      report := Evaluator.Check(State(), hours, minutes, today);
    }
  }
}
