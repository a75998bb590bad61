# Announcement server core, modelled in Dafny

This project models the core of `server.js`, the backend of an
announcement system. It takes announcement text, fixes the spelling of
Islamic terms, has a Python engine speak the result, and wraps the voice
between two bell clips. The clip is kept in a temp folder and recorded in an
in-memory announcement store. Announcements are played by schedules. A
second, independent list holds Quran-recitation schedules. A polling client
asks the server which schedules are due at the current minute; the
comment above the check endpoint puts that at one request every 30 seconds.

The project has these modules:

- `Lafaz` (`lafaz.dfy`) models `perbaikiLafazIslami`. It is a fixed, ordered
  chain of 22 case-insensitive global replacements; the first five also
  require a word boundary on each side. A rule is a datatype value. The
  chain is a fold over the rule table `Lexicon`. One replacement is the
  left-to-right, non-overlapping scan that a global regular expression
  performs.
- `LafazFacts` (`lafaz_facts.dfy`) proves what the chain promises:
  - the normalised text never contains "assalamualaikum", in any letter case;
  - the "Wassalamualaikum" rule never fires, because the rule before it
    already rewrote the greeting inside the word;
  - two concrete vectors. "Wassalamualaikum" comes out as "WAssalamu alaikum",
    not as the "Wassalamu alaikum" that the dead rule names;
  - a counterexample to idempotence: "DDzuhur" becomes "DZuhur", which the
    chain rewrites again.
- `Seqs` (`seqs.dfy`) defines the array library calls the handlers use:
  `findIndex`, `find`, `filter` and `splice(i, 1)`, each with its own
  contract, and `some`, a plain definition.
- `Names` (`names.dfy`) covers the strings built from numbers and URLs:
  - `String(n)` for timestamps, and the three temp file names of a request;
  - `url.split('/').pop()`;
  - the `HH:MM` clock string.
- `Records` (`records.dfy`) holds the records of the three stores and the
  set of temp file names, all as values.
- `Stores` (`stores.dfy`) models the store handlers as transitions on those
  values:
  - manual announcement delete;
  - schedule create, delete and date patch, where delete runs a
    reference-counted clean-up;
  - the Quran handlers.
- `Pipeline` (`pipeline.dfy`) models the generate and upload handlers. What
  the outside world does during a request is an input: whether the bell
  clips exist, whether the text file can be written, what the speech engine
  did, and whether the mixer finished.
- `Evaluator` (`evaluator.dfy`) models the schedule check, a pure read of the
  stores at a given minute and date.
- `Server` (`server.dfy`) holds the class `Backend`. Its fields are the three
  stores and the temp folder, and the handlers change them in place, step by
  step, in the source's order. Each method's contract says that its new
  state and reply are exactly those of the matching transition in `Stores`
  or `Pipeline`, where the properties are proved.

Where the description of the system and the code differ, the model follows
the code:

- When the speech engine exits with an error after it has written the raw
  clip, the handler removes only the text file. The raw clip stays in the
  temp folder (`Pipeline.Produce`).
- A failed mix has no error handler: the ffmpeg command registers only its
  'end' listener (lines 180-205). The model records such a request as never
  answered, with the text and raw files left and the stores unchanged
  (`NoReply`). In the running program the unhandled 'error' event ends the
  process instead; see `Pipeline.Produce` under "Left out".
- The normaliser is meant to settle a text in one pass, but normalising
  twice is not the same as normalising once. The rule of line 80 rewrites
  "Dzuhur" anywhere in a word, so "DDzuhur" becomes "DZuhur", and a second
  pass turns that into "Zuhur" (`LafazFacts.NotIdempotent`).
- Letter case is folded on ASCII letters only, and `\b` uses the ASCII word
  characters. JavaScript's regular expressions without the `u` flag also
  fold some non-ASCII letters, but that makes no difference here: every
  pattern of the chain is ASCII, and that folding never maps a non-ASCII
  character onto an ASCII one.
- The Quran delete handler removes every entry with the id, not just the
  first, and always answers success.
- The schedule-create handler does not check that its announcement exists.
  `Stores.CreateScheduleLinked` shows the stores stay consistent exactly
  when it does.
- Creating a schedule and then deleting it can remove an announcement. If no
  other schedule plays the announcement, the clean-up deletes it and its file
  (`Stores.CreateThenDelete`).

## Model

| member | source | states |
|---|---|---|
| Lafaz.ReplaceFrom | server.js:63-84 | definition only: the left-to-right scan of a global `replace`, which emits the replacement at a match and resumes after it, else copies one character; its behaviour is stated by the three lemmas below |
| Lafaz.Apply | server.js:63-84 | definition only: one line of the chain, the global scan from position 0 with the line's pattern, replacement and `\b` flag |
| Lafaz.LexiconTable | server.js:63-84 | the rule table `Lexicon` has the chain's 22 lines in source order, and exactly the first five (lines 63-67) require a word boundary |
| Lafaz.Normalize | server.js:61-86 | definition only: the 22 rules applied in source order, each to the output of the one before; stated by `StageNext`, `StageAll` and the `LafazFacts` lemmas |
| Lafaz.ReplaceNoHit | server.js:63 | a text with no match from position `i` on is copied unchanged |
| Lafaz.ReplaceHit | server.js:63 | unfolding step used by the stage proofs: at a match the replacement is emitted and the scan resumes after the match |
| Lafaz.ReplaceMiss | server.js:63 | unfolding step used by the stage proofs: without a match at `i`, that character is copied and the scan moves on by one |
| Lafaz.ReplaceAvoids | server.js:74 | a rule whose replacement cannot rebuild word `q` leaves no `q` in its output, provided every occurrence of `q` in the scanned input is itself a match of the rule |
| Lafaz.KeepsAbsent | server.js:75-84 | a rule that is harmless for `q`, or only changes case, keeps an absent `q` absent |
| Lafaz.CaseOnlyFolds | server.js:78 | a case-only rule changes only letter case, position by position |
| Lafaz.StageNext | server.js:62-85 | each line of the chain works on the result of the line before it |
| Lafaz.StageAll | server.js:85 | the function returns the text after all 22 lines |
| Lafaz.ApplyAllKeeps | server.js:75-84 | a run of rules that each keep `q` out keeps `q` out |
| Lafaz.MissingKeeps | server.js:63-84 | a rule whose pattern has a letter that the text lacks in both cases finds no match anywhere and returns the text unchanged |
| Lafaz.StagesKeep | server.js:63-84 | a run of lines leaves a text unchanged when, for each line, the text lacks one chosen letter of its pattern |
| LafazFacts.CaseOnlyRules | server.js:78 | the rules of lines 78, 83 and 84 change letter case only |
| LafazFacts.HarmlessAssalamualaikum | server.js:74 | the replacement "Assalamu alaikum" never spells the unspaced greeting |
| LafazFacts.LaterRulesKeep | server.js:75-84 | every rule after line 74 keeps the unspaced greeting out |
| LafazFacts.GreetingCleared | server.js:74 | right after line 74 the text has no unspaced greeting |
| LafazFacts.NoUnspacedGreeting | server.js:61-86 | the normalised text never contains "assalamualaikum", in any case |
| LafazFacts.WassalamRuleNeverFires | server.js:74-75 | the rule of line 75 finds no match and leaves its input unchanged, for every input |
| LafazFacts.SpelledStagesKeep | server.js:63-84 | the same for a text known by its spelling: the lines a greeting skips keep that spelling |
| LafazFacts.GreetingVector | server.js:63-74 | "Assalamualaikum, Allah SWT" becomes "Assalamu alaikum, Alloh Subhanahu wa Ta'ala" |
| LafazFacts.WassalamVector | server.js:74-75 | "Wassalamualaikum" becomes "WAssalamu alaikum" |
| LafazFacts.EarlyRulesNeed | server.js:63-79 | every line before line 80 has an `a`, `s` or `w` in its pattern, at the position `FirstLetters` gives |
| LafazFacts.LateRulesNeed | server.js:81-84 | every line after line 80 has an `a`, `m`, `i` or `s` in its pattern, at the position `FirstLetters` gives |
| LafazFacts.DzuhurOnly | server.js:61-86 | a text without `a`, `s`, `w`, whose line-80 rewrite has no `a`, `m`, `i`, `s`, is normalised to that rewrite |
| LafazFacts.DzuhurRewrites | server.js:80 | the rule of line 80 turns "DDzuhur" into "DZuhur", and "DZuhur" into "Zuhur" |
| LafazFacts.DoubledDzuhurOnce | server.js:61-86 | "DDzuhur" is normalised to "DZuhur" |
| LafazFacts.NotIdempotent | server.js:61-86 | normalising "DDzuhur" gives "DZuhur", and normalising that again gives "Zuhur": the chain is not idempotent |
| Seqs.Any | server.js:275-277 | definition only: `some`, an element that passes exists; the cascade it decides is stated by `Stores.Cleanup` and `Stores.DeleteScheduleCascade` |
| Seqs.FindIndex | server.js:235 | `findIndex`: the first index whose element matches, or none exactly when no element matches |
| Seqs.FirstUnique | server.js:235 | the first matching index is unique, and `FindIndex` returns it |
| Seqs.Find | server.js:365-367 | `find`: none exactly when nothing matches, otherwise the element at the first matching index |
| Seqs.RemoveAt | server.js:241 | `splice(i, 1)`: one shorter, elements before `i` kept, later ones shifted down, multiset minus the removed one |
| Seqs.RemoveAtSubseq | server.js:241 | a splice keeps the order of what remains |
| Seqs.FirstAfterRemove | server.js:271 | removing another element keeps the first match, its index shifted when it came later |
| Seqs.RemoveAtCommute | server.js:271 | two splices commute once the later index is shifted |
| Seqs.Filter | server.js:244-246 | `filter`: keeps order, and each value occurs as often as in the input when it passes, never otherwise |
| Seqs.FilterMember | server.js:244-246 | a value is in the filtered array exactly when it is in the input and passes |
| Seqs.FilterKeepsAll | server.js:343-345 | a filter that rejects nothing returns its input |
| Names.Decimal | server.js:135-138 | `String(n)` of a timestamp is non-empty and all digits, with no leading zero |
| Names.DecimalRoundTrip | server.js:135-138 | the printed timestamp reads back as the timestamp |
| Names.DecimalInjective | server.js:135-138 | two timestamps never print the same |
| Names.TextFile | server.js:136 | definition only: `text-<timestamp>.txt`; its properties are stated by `Names.FilesOfRequest` |
| Names.RawFile | server.js:137 | definition only: `raw-<timestamp>.mp3`; its properties are stated by `Names.FilesOfRequest` |
| Names.FinalFile | server.js:138 | definition only: `announcement-<timestamp>.mp3`; its properties are stated by `Names.FilesOfRequest` and `Names.FinalFileInjective` |
| Names.FilesOfRequest | server.js:136-138 | the text, raw and final file names of a request are distinct and contain no '/' |
| Names.FinalFileInjective | server.js:138 | requests with different timestamps save different clips |
| Names.LastSegment | server.js:238 | `split('/').pop()` contains no '/' and is no longer than the URL |
| Names.LastSegmentSuffix | server.js:238 | the segment is the URL's suffix, with a '/' just before it unless it is the whole URL |
| Names.LastSegmentOf | server.js:193-238 | the file name ending an `audio_url` built as `prefix/name` is recovered exactly |
| Names.Pad2 | server.js:354 | definition only: `String(n).padStart(2, '0')`; stated by `Names.Pad2Digits` |
| Names.FormatTime | server.js:354 | definition only: two padded numbers joined by ':'; stated by `Names.TimeRoundTrip` and `Names.TimeInjective` |
| Names.Pad2Digits | server.js:354 | `padStart(2, '0')` of a number below 100 is its two digits |
| Names.TimeRoundTrip | server.js:354 | the clock prints as the five characters `HH:MM` and reads back as the hour and minute |
| Names.TimeInjective | server.js:354 | two different minutes of the day never print alike |
| Records.FileOf | server.js:238 | definition only: the file an `audio_url` names, `split('/').pop()`; stated by `Names.LastSegmentOf` and used by `Stores.DeleteAnnouncementFirst` and `Stores.Cleanup`, which line 288 also follows |
| Records.Truthy | server.js:132 | definition only: a string field is truthy when present and non-empty; the 400 refusal it guards is stated by `Pipeline.Generate` |
| Records.OrElse | server.js:198 | definition only: `o \|\| fallback`; the titles it yields are stated by `Pipeline.Produce` and `Pipeline.Upload` |
| Stores.DeleteAnnouncement | server.js:233-251 | 404 with nothing changed exactly when no announcement has the id, otherwise success; Quran schedules untouched |
| Stores.DeleteAnnouncementFirst | server.js:235-246 | the first announcement with the id is spliced out and its file removed when present; the remaining schedules are, in order, exactly those for other announcements, each as often as before |
| Stores.DeleteFront | server.js:235-246 | deleting the announcement in front leaves the rest of the store and removes its file |
| Stores.DeleteAnnouncementKeepsOrder | server.js:241 | the announcements left keep their order, one fewer |
| Stores.KnownAfterRemove | server.js:241 | splicing out an announcement with another id keeps an id known |
| Stores.DeleteAnnouncementLinked | server.js:241-246 | a manual delete leaves no schedule pointing at a missing announcement |
| Stores.CreateSchedule | server.js:254-257 | the new schedule is appended with the clock id and `is_active` true; everything else is unchanged |
| Stores.CreateScheduleLinked | server.js:255 | after creating a schedule, the stores are linked exactly when its announcement exists |
| Stores.Cleanup | server.js:276-302 | with the remaining schedules, the announcement and its file go exactly when no remaining schedule plays it; otherwise only the schedules change |
| Stores.DeleteSchedule | server.js:260-306 | 404 with nothing changed exactly when no schedule has the id; otherwise the first match is spliced out and the clean-up runs |
| Stores.DeleteScheduleCascade | server.js:276-302 | the announcements change exactly when no remaining schedule plays the announcement and the store has it; when they stay, so does the folder |
| Stores.CleanupLinked | server.js:276-302 | the clean-up never strands a schedule |
| Stores.DeleteScheduleLinked | server.js:260-306 | schedule delete keeps the stores linked |
| Stores.SharedDeletesCommute | server.js:260-306 | deleting two schedules of one announcement commutes; the first delete leaves announcements and folder alone |
| Stores.SecondDelete | server.js:260-306 | after one schedule is gone, deleting another runs the clean-up with both gone |
| Stores.DeleteReferenced | server.js:275-280 | deleting a schedule whose announcement another schedule plays changes only the schedules |
| Stores.DeleteAt | server.js:262-271 | deleting the schedule at the first matching index is the clean-up after that splice |
| Stores.CleanupReads | server.js:276-302 | the clean-up depends on nothing but the announcements, the Quran schedules and the folder |
| Stores.CreateThenDelete | server.js:254-306 | deleting a just-created schedule under a fresh id is the clean-up on the stores as they were |
| Stores.PatchSchedule | server.js:309-318 | 404 with nothing changed exactly when no schedule has the id; otherwise only the `date` of the first match changes |
| Stores.PatchScheduleLinked | server.js:314 | a reschedule keeps the stores linked |
| Stores.CreateQuranSchedule | server.js:324-331 | the new Quran schedule is appended with the clock id and `is_active` true, all else unchanged |
| Stores.PatchQuranSchedule | server.js:332-341 | 404 with nothing changed exactly when no Quran schedule has the id; otherwise only the `date` of the first match changes |
| Stores.DeleteQuranSchedule | server.js:342-347 | always success; every entry with the id goes, the others stay in order, each as often as before |
| Stores.DeleteQuranScheduleAbsent | server.js:342-347 | deleting an id no entry has changes nothing |
| Pipeline.MixPlan | server.js:180-190 | definition only: the intro at gain 0.7, the raw voice at 4.0, the outro at 0.7, concatenated in that order; `Pipeline.Produce` states when the mixer is given it |
| Pipeline.Generate | server.js:130-134 | an empty or missing text is refused with 400 before anything else happens; otherwise the rest of the request runs on the normalised text |
| Pipeline.Produce | server.js:135-205 | covers each failure path (missing bells or an unwritable text: nothing changes; engine failure: text file removed, no entry) and success (one entry in front with id, title, URL and time, text and raw files gone, clip added); schedules never change |
| Pipeline.SpokenHasNoUnspacedGreeting | server.js:134-163 | the engine is never given the unspaced greeting |
| Pipeline.ClipNamed | server.js:193-199 | the new entry's `audio_url` names the clip the mixer saved |
| Pipeline.ProduceThenDelete | server.js:191-251 | deleting the new announcement restores the announcement store and leaves none of the request's three files |
| Pipeline.GenerateThenDelete | server.js:130-251 | the same for the whole request |
| Pipeline.FolderUndone | server.js:191-240 | taking the added clip out again leaves the folder without it and without what went |
| Pipeline.GenerateLinked | server.js:202 | generate keeps the stores linked |
| Pipeline.PrependKnown | server.js:202 | an announcement store grown at the front still knows every id |
| Pipeline.Upload | server.js:209-220 | no file: 400 with nothing changed; otherwise one entry in front with the clock id, title or original name, and the file's URL; schedules and folder unchanged |
| Pipeline.UploadLinked | server.js:218 | upload keeps the stores linked |
| Evaluator.IsDue | server.js:361-362 | definition only: the time matches, and the date matches or the slot is not a one-off; lines 374-375 apply the same test to Quran schedules |
| Evaluator.Join | server.js:364-369 | definition only: each due schedule paired with the result of `find` on the announcements; stated by `Evaluator.DueAnnouncementsExactly` |
| Evaluator.Check | server.js:352-385 | definition only: the clock string, the date and the two filtered lists; stated by the four lemmas below |
| Evaluator.DueAnnouncementsExactly | server.js:358-369 | the due schedules are the stored ones whose slot is due, as often as stored and in store order; each is joined to the first announcement with its id, or none exactly when the store has none |
| Evaluator.DueQuranExactly | server.js:372-376 | the due Quran schedules are the stored ones whose slot is due, in store order |
| Evaluator.LinkedDueJoined | server.js:364-369 | in linked stores every due schedule finds its announcement |
| Evaluator.CheckClock | server.js:354-355 | the reply carries the date and a five-character `HH:MM` that names the minute uniquely |
| Server.Backend.constructor | server.js:44-51 | empty stores over the folder's current files |
| Server.Backend.Generate | server.js:130-134 | new state, reply, spoken text and mix are those of `Pipeline.Generate` |
| Server.Backend.Produce | server.js:135-205 | new state, reply, spoken text and mix are those of `Pipeline.Produce` |
| Server.Backend.Upload | server.js:209-220 | new state and reply are those of `Pipeline.Upload` |
| Server.Backend.DeleteAnnouncement | server.js:233-251 | new state and reply are those of `Stores.DeleteAnnouncement` |
| Server.Backend.CreateSchedule | server.js:254-257 | new state and reply are those of `Stores.CreateSchedule` |
| Server.Backend.DeleteSchedule | server.js:260-306 | new state and reply are those of `Stores.DeleteSchedule` |
| Server.Backend.PatchSchedule | server.js:309-318 | new state and reply are those of `Stores.PatchSchedule` |
| Server.Backend.CreateQuranSchedule | server.js:324-331 | new state and reply are those of `Stores.CreateQuranSchedule` |
| Server.Backend.PatchQuranSchedule | server.js:332-341 | new state and reply are those of `Stores.PatchQuranSchedule` |
| Server.Backend.DeleteQuranSchedule | server.js:342-347 | new state and reply are those of `Stores.DeleteQuranSchedule` |
| Server.Backend.CheckSchedules | server.js:352-385 | changes nothing and answers `Evaluator.Check` of the current stores |

## Left out

- The HTTP layer is not modelled: routing, CORS, JSON bodies, dotenv configuration and static serving of the temp folder. The list endpoints and `/api/config` only return data.
- The stub authentication endpoints (server.js lines 89-129) are not part of this model. They touch no store.
- The clock (`Date.now()`, `new Date().toISOString()`, local hours, minutes and `en-CA` date) and the time zone: they are parameters.
- Whether the bell clips exist, whether the text file can be written, and what the Python engine (`exec`) and ffmpeg did are inputs (`Environment`). The model records what each handler does with them, not how the audio is made. Removing a file (`fs.unlinkSync`) is assumed to succeed; the lines for `Stores.DeleteAnnouncement`, `Stores.DeleteSchedule` and `Pipeline.Produce` below say what a failure would do. The engine script `tts_engine.py` is not part of this model.
- Stores.DeleteAnnouncement: assumes the `fs.unlinkSync` of line 240 succeeds, as does `Server.Backend.DeleteAnnouncement`. If it throws, Express answers 500 before the splice of line 241, and nothing changes; the model has no such outcome.
- Stores.DeleteSchedule: assumes the `fs.unlinkSync` of line 291 succeeds, as does `Server.Backend.DeleteSchedule`. If it throws, the schedule is already spliced out (line 271) but the announcement stays, and Express answers 500; the model has no such outcome.
- Pipeline.Produce: assumes the `fs.unlinkSync` calls of lines 170, 192 and 193 succeed. They run inside the `exec` and ffmpeg callbacks, where a throw is not caught and ends the process, and the in-memory stores with it.
- Pipeline.Produce: a failed mix is recorded as `NoReply` with the stores unchanged, the same for `Server.Backend.Produce`. The ffmpeg command has no 'error' listener (lines 180-205), so in the running program the failure is an unhandled 'error' event that ends the process, and all three stores are lost. Process termination is not modelled.
- Audio encoding: the mix is recorded as its plan of three tracks and gains (`MixPlan`). The gains are written in tenths (0.7 as 7 and 4.0 as 40) because they are floats in the source. The sound produced is not modelled.
- Error details returned with the synthesis failure (`error.message`, `stderr`) and all console logging.
- multer's disk write during upload: the file it stored is an input (`UploadedFile`), and the temp folder is not updated for it.
- Concurrency: every request runs to completion before the next. The generate callbacks interleaving with other requests are not modelled.
- Paths: the temp folder is a set of file names and `path.join` is dropped; files outside the temp folder (the bell clips, the script) are the `Environment` flags.
- Request bodies: only the fields the handlers read are modelled (`text`, `title`, `announcement_id`, `time`, `date`, `repeat_type`). The other fields that the spread `...req.body` copies into a schedule are not.
- Dynamic typing: ids are integers, and `parseInt` of a path parameter is the integer itself. A non-string `text` fed to the normaliser is not modelled.
- Lafaz.Normalize: idempotence is not proved, because the code does not have it. The normaliser is meant to settle a text in one pass, but the rule of line 80 lets a second pass change the text again (`LafazFacts.NotIdempotent`). The proved facts are the absence of the unspaced greeting, the dead rule of line 75, the two vectors and this counterexample.
- Server.Backend: the handler methods are proved equal to the transitions, so the invariants (`Linked`, order, the cascade) hold through the lemmas about the transitions rather than as a class invariant.
