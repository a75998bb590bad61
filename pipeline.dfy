/**
 * The two handlers that add announcements: generate (server.js lines
 * 130-207), which normalises the text, has the Python engine speak it and
 * has ffmpeg wrap the voice in the bell clips, and upload (lines 209-220),
 * which records a clip the client sent.
 *
 * What the outside world does during a request is an input: whether the
 * bell clips exist, whether the text file could be written, what the engine
 * did, and whether the mixer reached its 'end' event.  The handler's guards
 * run text first, then the clips, then the text write, then the engine,
 * then the mixer, and each failure stops the request where it stands.
 */
module Pipeline {
  import opened Seqs
  import opened Names
  import opened Records
  import opened Stores
  import opened Lafaz
  import LafazFacts

  /** What the Python engine did: its exit status, and whether it wrote the raw clip. */
  datatype Synthesis = Synthesis(exitError: bool, wroteRaw: bool)

  /** The outside world as one generate request meets it. */
  datatype Environment = Environment(
    introPresent: bool,    // bell-intro.mp3 beside server.js
    outroPresent: bool,    // bell-outro.mp3 beside server.js
    textWritten: bool,     // writeFileSync of the text file succeeds
    synthesis: Synthesis,
    mixEnded: bool,        // ffmpeg emits 'end'
    createdAt: string)     // new Date().toISOString() at that moment

  /** One input of the mix and its gain, in tenths. */
  datatype Track = Track(file: string, gainTenths: nat)

  /** Lines 180-190: the intro at 0.7, the voice at 4.0, the outro at 0.7, concatenated in that order. */
  function MixPlan(ts: nat): seq<Track> {
    [Track("bell-intro.mp3", 7), Track(RawFile(ts), 40), Track("bell-outro.mp3", 7)]
  }

  /**
   * The stores after one generate request, its reply, the text the engine
   * was given (`None` when it was not started) and the mix the mixer was
   * given (empty when it was not started).
   */
  datatype Run = Run(db: Db, reply: Reply, spoken: Option<string>, mix: seq<Track>)

  const EmptyText := "Teks kosong"
  const BellsMissing := "File bell intro/outro hilang!"
  const TextWriteFailed := "Gagal menulis file text."
  const SynthesisFailed := "Gagal generate suara. Pastikan Python dan edge-tts terinstall di server."
  const Untitled := "Tanpa Judul"

  /** The temp folder once the text file is written and the engine has run. */
  function Produced(d: Db, ts: nat, env: Environment): set<string> {
    d.files + {TextFile(ts)} + (if env.synthesis.wroteRaw then {RawFile(ts)} else {})
  }

  /** Line 164: the engine exited cleanly and the raw clip is there. */
  predicate RawReady(d: Db, ts: nat, env: Environment) {
    !env.synthesis.exitError && RawFile(ts) in Produced(d, ts, env)
  }

  /** The folder is `before` apart from `gone` and `added`. */
  ghost predicate FolderChange(before: set<string>, after: set<string>, gone: set<string>, added: set<string>) {
    forall f :: f in after <==> (f in before && f !in gone) || f in added
  }

  /**
   * Lines 132-134: an empty or missing text is refused before anything
   * else; otherwise the rest of the request works on the normalised text.
   */
  function Generate(d: Db, baseUrl: string, text: Option<string>, title: Option<string>, ts: nat, env: Environment): (r: Run)
    ensures !Truthy(text) ==> r == Run(d, Rejected(400, EmptyText), None, [])
    ensures Truthy(text) ==> r == Produce(d, baseUrl, Normalize(text.value), title, ts, env)
  {
    if !Truthy(text) then Run(d, Rejected(400, EmptyText), None, [])
    else Produce(d, baseUrl, Normalize(text.value), title, ts, env)
  }

  /** The request gets as far as starting the engine. */
  predicate Launched(env: Environment) {
    env.introPresent && env.outroPresent && env.textWritten
  }

  /** Lines 135-205, given the text `spoken` that line 134 produced. */
  function Produce(d: Db, baseUrl: string, spoken: string, title: Option<string>, ts: nat, env: Environment): (r: Run)
    ensures r.db.schedules == d.schedules && r.db.quranSchedules == d.quranSchedules
    // Lines 148-158: nothing changes and nothing is started.
    ensures !Launched(env) ==>
      r.db == d && r.spoken == None && r.mix == [] &&
      r.reply == Rejected(500, if !env.introPresent || !env.outroPresent then BellsMissing else TextWriteFailed)
    // Lines 154 and 161-163: the engine is given the normalised text.
    ensures Launched(env) ==> r.spoken == Some(spoken)
    // Lines 164-178: the text file goes, nothing is added, a raw clip the engine wrote stays.
    ensures Launched(env) && !RawReady(d, ts, env) ==>
      r.db.announcements == d.announcements && r.mix == [] &&
      r.reply == Rejected(500, SynthesisFailed) &&
      FolderChange(d.files, r.db.files, {TextFile(ts)}, if env.synthesis.wroteRaw then {RawFile(ts)} else {})
    // No 'error' handler: a failed mix never answers and leaves its files.
    ensures Launched(env) && RawReady(d, ts, env) && !env.mixEnded ==>
      r.db.announcements == d.announcements && r.reply == NoReply && r.mix == MixPlan(ts) &&
      r.db.files == Produced(d, ts, env)
    // Lines 191-203: one new entry in front, the text and raw files gone, the clip added.
    ensures Launched(env) && RawReady(d, ts, env) && env.mixEnded ==>
      r.reply.Created? && r.mix == MixPlan(ts) &&
      r.db.announcements == [r.reply.entry] + d.announcements &&
      r.reply.entry.id == ts &&
      r.reply.entry.title == (if Truthy(title) then title.value else Untitled) &&
      r.reply.entry.audioUrl == baseUrl + "/temp/" + FinalFile(ts) &&
      r.reply.entry.createdAt == Some(env.createdAt) &&
      FolderChange(d.files, r.db.files, {TextFile(ts), RawFile(ts)}, {FinalFile(ts)})
  {
    if !env.introPresent || !env.outroPresent then Run(d, Rejected(500, BellsMissing), None, [])
    else if !env.textWritten then Run(d, Rejected(500, TextWriteFailed), None, [])
    else
      var written := Produced(d, ts, env);
      FilesOfRequest(ts);
      if env.synthesis.exitError || RawFile(ts) !in written then
        Run(d.(files := written - {TextFile(ts)}), Rejected(500, SynthesisFailed), Some(spoken), [])
      else if !env.mixEnded then
        Run(d.(files := written), NoReply, Some(spoken), MixPlan(ts))
      else
        var entry := Announcement(ts, OrElse(title, Untitled), baseUrl + "/temp/" + FinalFile(ts), Some(env.createdAt));
        Run(d.(announcements := [entry] + d.announcements,
               files := written + {FinalFile(ts)} - {RawFile(ts), TextFile(ts)}),
            Created(entry), Some(spoken), MixPlan(ts))
  }

  /** The engine is never asked to say the unspaced greeting, in any case. */
  lemma SpokenHasNoUnspacedGreeting(d: Db, baseUrl: string, text: Option<string>, title: Option<string>, ts: nat, env: Environment)
    requires Generate(d, baseUrl, text, title, ts, env).spoken.Some?
    ensures Absent(Generate(d, baseUrl, text, title, ts, env).spoken.value, LafazFacts.Unspaced)
  {
    LafazFacts.NoUnspacedGreeting(text.value);
  }

  /** The new entry's `audio_url` names the clip the mixer saved. */
  lemma ClipNamed(d: Db, baseUrl: string, spoken: string, title: Option<string>, ts: nat, env: Environment)
    requires Produce(d, baseUrl, spoken, title, ts, env).reply.Created?
    ensures FileOf(Produce(d, baseUrl, spoken, title, ts, env).reply.entry) == FinalFile(ts)
  {
    FilesOfRequest(ts);
    assert baseUrl + "/temp/" + FinalFile(ts) == (baseUrl + "/temp") + "/" + FinalFile(ts);
    LastSegmentOf(baseUrl + "/temp", FinalFile(ts));
  }

  /**
   * Deleting a freshly made announcement by its id puts the announcement
   * store back as it was and leaves the folder without any of the
   * request's three files; the schedules that played that id go too.
   */
  lemma ProduceThenDelete(d: Db, baseUrl: string, spoken: string, title: Option<string>, ts: nat, env: Environment)
    requires Produce(d, baseUrl, spoken, title, ts, env).reply.Created?
    ensures var g := Produce(d, baseUrl, spoken, title, ts, env).db;
      var r := DeleteAnnouncement(g, ts);
      r.reply == Done && r.db.announcements == d.announcements &&
      r.db.files == d.files - {TextFile(ts), RawFile(ts), FinalFile(ts)} &&
      forall s :: s in r.db.schedules <==> s in d.schedules && s.announcementId != ts
  {
    var p := Produce(d, baseUrl, spoken, title, ts, env);
    ClipNamed(d, baseUrl, spoken, title, ts, env);
    DeleteFront(p.db, p.reply.entry, d.announcements);
    FolderUndone(d.files, p.db.files, {TextFile(ts), RawFile(ts)}, FinalFile(ts));
  }

  /** Taking the added file out again leaves the folder without it and without what went. */
  lemma FolderUndone(before: set<string>, after: set<string>, gone: set<string>, added: string)
    requires FolderChange(before, after, gone, {added})
    ensures after - {added} == before - gone - {added}
  {
  }

  /** The same, for the whole request. */
  lemma GenerateThenDelete(d: Db, baseUrl: string, text: Option<string>, title: Option<string>, ts: nat, env: Environment)
    requires Generate(d, baseUrl, text, title, ts, env).reply.Created?
    ensures var r := DeleteAnnouncement(Generate(d, baseUrl, text, title, ts, env).db, ts);
      r.reply == Done && r.db.announcements == d.announcements &&
      r.db.files == d.files - {TextFile(ts), RawFile(ts), FinalFile(ts)} &&
      forall s :: s in r.db.schedules <==> s in d.schedules && s.announcementId != ts
  {
    ProduceThenDelete(d, baseUrl, Normalize(text.value), title, ts, env);
  }

  /** Generate adds an announcement and removes none, so the stores stay linked. */
  lemma GenerateLinked(d: Db, baseUrl: string, text: Option<string>, title: Option<string>, ts: nat, env: Environment)
    requires Linked(d)
    ensures Linked(Generate(d, baseUrl, text, title, ts, env).db)
  {
    var r := Generate(d, baseUrl, text, title, ts, env).db;
    forall k | 0 <= k < |r.schedules| ensures Known(r, r.schedules[k].announcementId) {
      PrependKnown(d, r, r.schedules[k].announcementId);
    }
  }

  /** An announcement store that only grew at the front still knows every id. */
  lemma PrependKnown(d: Db, r: Db, id: int)
    requires Known(d, id)
    requires r.announcements == d.announcements || (|r.announcements| > 0 && r.announcements[1..] == d.announcements)
    ensures Known(r, id)
  {
    var n :| 0 <= n < |d.announcements| && AnnouncementIs(id)(d.announcements[n]);
    if r.announcements != d.announcements {
      assert r.announcements[n + 1] == d.announcements[n];
    }
  }

  // ---------------------------------------------------------------------
  // Upload (server.js lines 209-220)
  // ---------------------------------------------------------------------

  /** The file multer stored for the request: its name in the temp folder and the client's name. */
  datatype UploadedFile = UploadedFile(filename: string, originalName: string)

  const FileMissing := "File tidak ditemukan"

  function Upload(d: Db, baseUrl: string, file: Option<UploadedFile>, title: Option<string>, now: int): (r: Outcome)
    ensures r.db.schedules == d.schedules && r.db.quranSchedules == d.quranSchedules && r.db.files == d.files
    ensures file.None? ==> r.db == d && r.reply == Rejected(400, FileMissing)
    ensures file.Some? ==>
      r.reply.Created? && r.db.announcements == [r.reply.entry] + d.announcements &&
      r.reply.entry.id == now &&
      r.reply.entry.title == (if Truthy(title) then title.value else file.value.originalName) &&
      r.reply.entry.audioUrl == baseUrl + "/temp/" + file.value.filename &&
      r.reply.entry.createdAt == None
  {
    match file
    case None => Outcome(d, Rejected(400, FileMissing))
    case Some(f) =>
      var entry := Announcement(now, OrElse(title, f.originalName), baseUrl + "/temp/" + f.filename, None);
      Outcome(d.(announcements := [entry] + d.announcements), Created(entry))
  }

  lemma UploadLinked(d: Db, baseUrl: string, file: Option<UploadedFile>, title: Option<string>, now: int)
    requires Linked(d)
    ensures Linked(Upload(d, baseUrl, file, title, now).db)
  {
    var r := Upload(d, baseUrl, file, title, now).db;
    forall k | 0 <= k < |r.schedules| ensures Known(r, r.schedules[k].announcementId) {
      PrependKnown(d, r, r.schedules[k].announcementId);
    }
  }
}
