/**
 * `check_seminars_and_schedule_reminders`: the seminars ending soon in every user's
 * calendar are gathered into a set, and a reminder five minutes before the end is
 * scheduled once per seminar key, the keys already scheduled being remembered in
 * `bot_data['scheduled_reminders']`.
 */
module Reminders {
  import opened Wrappers
  import opened Text
  import opened Lessons

  /** Seconds before a seminar's end at which its reminder fires. */
  const Lead: int := 300

  /** An event's end as the model sees it: its calendar date as `date()` prints it, and its instant in seconds. */
  datatype Moment = Moment(date: string, instant: int)

  /** A listed event: its `id`, its `colorId`, its end `dateTime` (absent for all-day events) and its `summary`. */
  datatype Listed = Listed(id: string, colorId: Option<string>, end: Option<Moment>, summary: string)

  /** What one user's calendar gave: nothing without a service or on an error, else the events listed. */
  datatype UserEvents = NoService | ListFailed | Events(items: seq<Listed>)

  /** An element of `unique_seminars`: the key, the end instant and the summary. */
  datatype Seminar = Seminar(key: string, end: int, summary: string)

  /** A job given to `job_queue.run_once`: its name, when it runs, and the subject it reminds of. */
  datatype Job = Job(name: string, at: int, subject: string)

  /** `seminar_key`: the event id and its end date, so each occurrence of a recurring seminar has its own key. */
  function KeyOf(id: string, end: Moment): string {
    id + "_" + end.date
  }

  /** Whether a listed event is a seminar with an end time, the only events kept. */
  predicate IsSeminar(e: Listed, seminarColor: Option<string>) {
    e.colorId == seminarColor && e.end.Some?
  }

  function SeminarOf(e: Listed): Seminar
    requires e.end.Some?
  {
    Seminar(KeyOf(e.id, e.end.value), e.end.value.instant, e.summary)
  }

  /** Every seminar with an end time in the lists of the users whose calendars answered. */
  function SeminarsOf(users: seq<UserEvents>, seminarColor: Option<string>): set<Seminar> {
    set u, e | u in users && u.Events? && e in u.items && IsSeminar(e, seminarColor) :: SeminarOf(e)
  }

  /** The seminars among the first `n` events of one list. */
  function SeminarsIn(items: seq<Listed>, n: nat, seminarColor: Option<string>): set<Seminar>
    requires n <= |items|
  {
    set i | 0 <= i < n && IsSeminar(items[i], seminarColor) :: SeminarOf(items[i])
  }

  /** The seminars of the first `n` users. */
  function SeminarsOfFirst(users: seq<UserEvents>, n: nat, seminarColor: Option<string>): set<Seminar>
    requires n <= |users|
  {
    set u, e | u in users[..n] && u.Events? && e in u.items && IsSeminar(e, seminarColor) :: SeminarOf(e)
  }

  /** Adding the seminars of user `n` to those of the users before it. */
  lemma SeminarsNextUser(users: seq<UserEvents>, n: nat, seminarColor: Option<string>)
    requires n < |users|
    ensures SeminarsOfFirst(users, n + 1, seminarColor) ==
      SeminarsOfFirst(users, n, seminarColor) +
      (if users[n].Events? then SeminarsIn(users[n].items, |users[n].items|, seminarColor) else {})
  {
    var before, after := users[..n], users[..n + 1];
    assert after == before + [users[n]];
    var lhs, rhs := SeminarsOfFirst(users, n + 1, seminarColor), SeminarsOfFirst(users, n, seminarColor);
    var own := if users[n].Events? then SeminarsIn(users[n].items, |users[n].items|, seminarColor) else {};
    forall s | s in lhs ensures s in rhs + own {
      var u, e :| u in after && u.Events? && e in u.items && IsSeminar(e, seminarColor) && s == SeminarOf(e);
      if u !in before {
        assert u == users[n];
        var i :| 0 <= i < |u.items| && u.items[i] == e;
      }
    }
    forall s | s in own ensures s in lhs {
      var i :| 0 <= i < |users[n].items| && IsSeminar(users[n].items[i], seminarColor) && s == SeminarOf(users[n].items[i]);
      assert users[n] in after && users[n].items[i] in users[n].items;
    }
  }

  /**
   * The gathering loops: every seminar with an end time listed for a user whose
   * calendar answered goes into the set; users without a service or whose listing
   * failed contribute nothing.
   */
  method GatherSeminars(users: seq<UserEvents>, seminarColor: Option<string>) returns (found: set<Seminar>)
    ensures found == SeminarsOf(users, seminarColor)
  {
    found := {};
    for n := 0 to |users|
      invariant found == SeminarsOfFirst(users, n, seminarColor)
    {
      SeminarsNextUser(users, n, seminarColor);
      if users[n].Events? {
        var own := GatherUser(users[n].items, seminarColor);
        found := found + own;
      }
    }
    assert users[..|users|] == users;
  }

  /** The inner loop over one user's events. */
  method GatherUser(items: seq<Listed>, seminarColor: Option<string>) returns (found: set<Seminar>)
    ensures found == SeminarsIn(items, |items|, seminarColor)
  {
    found := {};
    for i := 0 to |items|
      invariant found == SeminarsIn(items, i, seminarColor)
    {
      var e := items[i];
      if IsSeminar(e, seminarColor) {
        found := found + {SeminarOf(e)};
      }
      assert SeminarsIn(items, i + 1, seminarColor) ==
        SeminarsIn(items, i, seminarColor) + (if IsSeminar(e, seminarColor) then {SeminarOf(e)} else {});
    }
  }

  /** The subject a reminder names: the regex subject of the summary, or the stripped summary when the pattern misses. */
  function ReminderSubject(summary: string): (r: string)
    ensures Strip(r) == r
  {
    match SpaceParenMatch(summary)
    case Some(_) => SubjectSingle(summary)
    case None => StripIdempotent(summary); Strip(summary)
  }

  /**
   * A summary the schedule builder writes, `subject (room)`, is reminded of by its
   * subject; a summary without ` (` by itself, stripped.
   */
  lemma ReminderSubjectOf(subject: string, room: string, plain: string)
    requires subject != "" && Strip(subject) == subject
    requires forall q :: 0 <= q < |subject| ==> subject[q] != Paren && subject[q] != LineFeed
    requires SpaceParenMatch(plain).None?
    ensures ReminderSubject(subject + " (" + room + ")") == subject
    ensures ReminderSubject(plain) == Strip(plain)
  {
    var s := subject + " (" + room + ")";
    assert s == subject + " (" + (room + ")");
    SubjectOfSummary(subject, room + ")");
  }

  /** Whether a seminar's reminder time is still ahead. */
  predicate Due(s: Seminar, now: int) {
    s.end - Lead > now
  }

  function JobOf(s: Seminar): Job {
    Job(s.key, s.end - Lead, ReminderSubject(s.summary))
  }

  /** The names of the jobs. */
  function Names(jobs: seq<Job>): set<string> {
    set i | 0 <= i < |jobs| :: jobs[i].name
  }

  lemma NamesAppend(jobs: seq<Job>, j: Job)
    ensures Names(jobs + [j]) == Names(jobs) + {j.name}
  {
    var w := jobs + [j];
    assert w[|jobs|] == j;
    forall n | n in Names(jobs) ensures n in Names(w) {
      var i :| 0 <= i < |jobs| && jobs[i].name == n;
      assert w[i] == jobs[i];
    }
  }

  /** The keys of the due seminars among `ss`. */
  function DueKeys(ss: set<Seminar>, now: int): set<string> {
    set s | s in ss && Due(s, now) :: s.key
  }

  lemma DueKeysAdd(ss: set<Seminar>, s: Seminar, now: int)
    ensures DueKeys(ss + {s}, now) == DueKeys(ss, now) + (if Due(s, now) then {s.key} else {})
  {
  }

  /** One more seminar considered keeps the remembered keys those of the due seminars seen so far. */
  lemma KeysStep(start: set<string>, known: set<string>, known': set<string>, done: set<Seminar>, s: Seminar, now: int)
    requires known == start + DueKeys(done, now)
    requires if Due(s, now) && s.key !in known then known' == known + {s.key} else known' == known
    ensures known' == start + DueKeys(done + {s}, now)
  {
    DueKeysAdd(done, s, now);
  }

  /** Every job from index `from` on is the job of a due seminar of `ss` whose key was not in `known`. */
  predicate QueuedFrom(jobs: seq<Job>, from: nat, known: set<string>, ss: set<Seminar>, now: int) {
    forall i :: from <= i < |jobs| ==> jobs[i].name !in known && exists s :: s in ss && Due(s, now) && jobs[i] == JobOf(s)
  }

  /** One more seminar considered keeps `QueuedFrom`. */
  lemma QueuedStep(before: seq<Job>, after: seq<Job>, from: nat, known: set<string>, ss: set<Seminar>, s: Seminar, now: int)
    requires QueuedFrom(before, from, known, ss, now) && from <= |before|
    requires after == before || (after == before + [JobOf(s)] && Due(s, now) && s.key !in known)
    ensures QueuedFrom(after, from, known, ss + {s}, now)
  {
    forall i | from <= i < |after|
      ensures after[i].name !in known && exists t :: t in ss + {s} && Due(t, now) && after[i] == JobOf(t)
    {
      if i < |before| {
        assert after[i] == before[i];
      } else {
        assert after[i] == JobOf(s);
      }
    }
  }

  /** The job queue and `bot_data['scheduled_reminders']`, kept across runs. */
  class ReminderBook {
    var scheduled: set<string>
    var jobs: seq<Job>

    constructor ()
      ensures scheduled == {} && jobs == []
    {
      scheduled := {};
      jobs := [];
    }

    /** The remembered keys are exactly the names of the queued jobs, and no name is queued twice. */
    predicate Valid()
      reads this
    {
      scheduled == Names(jobs) && forall i, j :: 0 <= i < j < |jobs| ==> jobs[i].name != jobs[j].name
    }

    /** Queue one job under a name not queued yet. */
    method Queue(job: Job)
      requires Valid() && job.name !in scheduled
      modifies this
      ensures Valid()
      ensures jobs == old(jobs) + [job] && scheduled == old(scheduled) + {job.name}
    {
      NamesAppend(jobs, job);
      forall i | 0 <= i < |jobs| ensures jobs[i].name != job.name {
        assert jobs[i].name in Names(jobs);
      }
      jobs := jobs + [job];
      scheduled := scheduled + {job.name};
    }

    /**
     * The scheduling loop over `unique_seminars`, in whatever order the set yields:
     * each due seminar whose key is not remembered gets one job and its key remembered;
     * the queue only grows, never holds a name twice, and afterwards every due key is
     * remembered. A second run over the same seminars queues nothing.
     */
    method ScheduleAll(seminars: set<Seminar>, now: int)
      requires Valid()
      modifies this
      ensures Valid()
      ensures old(jobs) <= jobs
      ensures scheduled == old(scheduled) + DueKeys(seminars, now)
      ensures QueuedFrom(jobs, |old(jobs)|, old(scheduled), seminars, now)
      ensures DueKeys(seminars, now) <= old(scheduled) ==> jobs == old(jobs)
    {
      var left := seminars;
      ghost var done: set<Seminar> := {};
      while left != {}
        invariant Valid()
        invariant left + done == seminars && left !! done
        invariant old(jobs) <= jobs
        invariant scheduled == old(scheduled) + DueKeys(done, now)
        invariant QueuedFrom(jobs, |old(jobs)|, old(scheduled), done, now)
        invariant DueKeys(seminars, now) <= old(scheduled) ==> jobs == old(jobs)
        decreases left
      {
        var s :| s in left;
        ghost var before, known := jobs, scheduled;
        Consider(s, now);
        KeysStep(old(scheduled), known, scheduled, done, s, now);
        QueuedStep(before, jobs, |old(jobs)|, old(scheduled), done, s, now);
        assert s in seminars;
        left, done := left - {s}, done + {s};
      }
    }

    /** One seminar of the loop: queued when due and its key not remembered yet, skipped otherwise. */
    method Consider(s: Seminar, now: int)
      requires Valid()
      modifies this
      ensures Valid()
      ensures if Due(s, now) && s.key !in old(scheduled)
        then jobs == old(jobs) + [JobOf(s)] && scheduled == old(scheduled) + {s.key}
        else jobs == old(jobs) && scheduled == old(scheduled)
    {
      if Due(s, now) && s.key !in scheduled {
        Queue(JobOf(s));
      }
    }
  }
}
