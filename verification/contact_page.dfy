/**
 The contact part of the landing page as a state machine: the draft being
 typed, the "submitted" flag (set by a submission and cleared by the reset;
 the page's markup never reads it), the browser storage, and the number of
 post-submission reset timers still waiting to fire.

 The page reacts to three events: a keystroke in one field, a submission
 (carrying the submission moment as an ISO-8601 string), and the firing of
 one reset timer. Every change of the draft is followed by the save step,
 as the page's draft-saving effect runs after each new draft.
 */
module ContactPage {
  import opened ContactForm
  import opened Storage

  datatype Page = Page(draft: Draft, submitted: bool, store: Store, pending: nat)

  datatype Event = Edit(field: Field, value: string) | Submit(date: string) | TimerFires

  /** Opening the page: the saved draft is adopted when there is one, the
      flag is clear and no timer is waiting. The save step then runs on the
      adopted draft, which rewrites what is already stored. */
  function Mount(st: Store): (p: Page)
    requires DraftSlotWellFormed(st)
    ensures p.store == st
    ensures !p.submitted && p.pending == 0
    ensures DraftKey in st ==> Some(DraftEntry(p.draft)) == Lookup(st, DraftKey)
    ensures DraftKey !in st ==> p.draft == EmptyDraft
  {
    var d := Load(st);
    PersistLoadedIsNoOp(st);
    Page(d, false, Persist(st, d), 0)
  }

  /** A keystroke: one field takes the new value, then the whole draft is
      saved if any field is non-empty. */
  function EditField(p: Page, f: Field, v: string): (p': Page)
    ensures Get(p'.draft, f) == v
    ensures forall g :: g != f ==> Get(p'.draft, g) == Get(p.draft, g)
    ensures p'.submitted == p.submitted && p'.pending == p.pending
    ensures HasContent(p'.draft) ==> Lookup(p'.store, DraftKey) == Some(DraftEntry(p'.draft))
    ensures !HasContent(p'.draft) ==> p'.store == p.store
    ensures SameExcept(p.store, p'.store, DraftKey)
  {
    var d := Set(p.draft, f, v);
    p.(draft := d, store := Persist(p.store, d))
  }

  /** Submitting: the flag is raised, the current draft and the given moment
      are recorded (replacing any earlier record), and one more reset timer
      starts. Nothing is validated; an earlier timer is not cancelled. */
  function SubmitForm(p: Page, date: string): (p': Page)
    ensures p'.submitted
    ensures Lookup(p'.store, SubmissionKey) == Some(SubmissionEntry(Submission(p.draft, date)))
    ensures SameExcept(p.store, p'.store, SubmissionKey)
    ensures p'.draft == p.draft
    ensures p'.pending == p.pending + 1
  {
    Page(p.draft, true, Record(p.store, p.draft, date), p.pending + 1)
  }

  /** One reset timer fires: the draft is emptied, the saved draft deleted and
      the flag cleared. The save step that follows sees an empty draft and
      writes nothing, so the saved draft stays deleted. */
  function Fire(p: Page): (p': Page)
    requires p.pending > 0
    ensures p'.draft == EmptyDraft && !p'.submitted
    ensures Lookup(p'.store, DraftKey) == None
    ensures SameExcept(p.store, p'.store, DraftKey)
    ensures p'.pending == p.pending - 1
  {
    var cleared := Page(EmptyDraft, false, Discard(p.store), p.pending - 1);
    cleared.(store := Persist(cleared.store, cleared.draft))
  }

  /** One event. A timer can only fire while one is waiting; with none
      waiting the event does not occur, and the page is left as it is. */
  function Step(p: Page, e: Event): (p': Page)
    ensures e.Edit? ==> Get(p'.draft, e.field) == e.value && p'.submitted == p.submitted && p'.pending == p.pending
    ensures e.Submit? ==> p'.submitted && p'.draft == p.draft && p'.pending == p.pending + 1
    ensures e.TimerFires? && p.pending == 0 ==> p' == p
    ensures e.TimerFires? && p.pending > 0 ==> p'.draft == EmptyDraft && !p'.submitted && p'.pending == p.pending - 1
    ensures e.TimerFires? && p.pending > 0 ==> Lookup(p'.store, DraftKey) == None
  {
    match e
    case Edit(f, v) => EditField(p, f, v)
    case Submit(date) => SubmitForm(p, date)
    case TimerFires => if p.pending > 0 then Fire(p) else p
  }

  /** A sequence of events, in order. */
  function Run(p: Page, es: seq<Event>): Page
    decreases |es|
  {
    if |es| == 0 then p else Run(Step(p, es[0]), es[1..])
  }

  /** What holds of every page reachable from opening it: the draft key holds
      a draft or nothing; whenever the draft has content, the store holds
      exactly that draft; and the submitted flag is set only while a reset
      timer is still waiting. */
  predicate Inv(p: Page) {
    && DraftSlotWellFormed(p.store)
    && (HasContent(p.draft) ==> Lookup(p.store, DraftKey) == Some(DraftEntry(p.draft)))
    && (p.submitted ==> p.pending > 0)
  }

  lemma MountEstablishesInv(st: Store)
    requires DraftSlotWellFormed(st)
    ensures Inv(Mount(st))
  {
  }

  lemma StepPreservesInv(p: Page, e: Event)
    requires Inv(p)
    ensures Inv(Step(p, e))
  {
  }

  lemma {:induction false} RunPreservesInv(p: Page, es: seq<Event>)
    requires Inv(p)
    ensures Inv(Run(p, es))
    decreases |es|
  {
    if |es| > 0 {
      StepPreservesInv(p, es[0]);
      RunPreservesInv(Step(p, es[0]), es[1..]);
    }
  }

  /** Reopening the page after any session restores the draft the session
      ended with, whenever that draft has content. */
  lemma {:induction false} ReloadRestoresDraft(st: Store, es: seq<Event>)
    requires DraftSlotWellFormed(st)
    ensures DraftSlotWellFormed(Run(Mount(st), es).store)
    ensures HasContent(Run(Mount(st), es).draft) ==> Mount(Run(Mount(st), es).store).draft == Run(Mount(st), es).draft
  {
    MountEstablishesInv(st);
    RunPreservesInv(Mount(st), es);
  }

  /** Neither keystrokes nor timers touch the submission record: only a
      submission writes it. */
  lemma {:induction false} RecordSurvivesWithoutSubmit(p: Page, es: seq<Event>)
    requires forall k :: 0 <= k < |es| ==> !es[k].Submit?
    ensures Lookup(Run(p, es).store, SubmissionKey) == Lookup(p.store, SubmissionKey)
    decreases |es|
  {
    if |es| > 0 {
      var q := Step(p, es[0]);
      assert Lookup(q.store, SubmissionKey) == Lookup(p.store, SubmissionKey);
      RecordSurvivesWithoutSubmit(q, es[1..]);
    }
  }

  /** The record always holds the last submission of a session: the draft
      at that moment and the moment itself. */
  lemma LastSubmissionRecorded(p: Page, before: seq<Event>, date: string, after: seq<Event>)
    requires forall k :: 0 <= k < |after| ==> !after[k].Submit?
    ensures Lookup(Run(p, before + [Submit(date)] + after).store, SubmissionKey)
            == Some(SubmissionEntry(Submission(Run(p, before).draft, date)))
  {
    RunAppend(p, before, [Submit(date)]);
    RunAppend(p, before + [Submit(date)], after);
    var q := Run(p, before + [Submit(date)]);
    assert q == SubmitForm(Run(p, before), date);
    RecordSurvivesWithoutSubmit(q, after);
  }

  lemma RunCons(p: Page, e: Event, es: seq<Event>)
    ensures Run(p, [e] + es) == Run(Step(p, e), es)
  {
  }

  lemma {:induction false} RunAppend(p: Page, xs: seq<Event>, ys: seq<Event>)
    ensures Run(p, xs + ys) == Run(Run(p, xs), ys)
    decreases |xs|
  {
    if |xs| > 0 {
      assert (xs + ys)[0] == xs[0];
      assert (xs + ys)[1..] == xs[1..] + ys;
      RunAppend(Step(p, xs[0]), xs[1..], ys);
    } else {
      assert xs + ys == ys;
    }
  }

  /** Submitting again while the flag is already set changes nothing but the
      record, which is rewritten, and the number of waiting timers, which
      grows by one: the flag, the draft and every other stored key stay. */
  lemma ResubmitOnlyRewritesRecord(p: Page, date: string)
    requires p.submitted
    ensures SubmitForm(p, date) == p.(store := Record(p.store, p.draft, date), pending := p.pending + 1)
    ensures SameExcept(p.store, SubmitForm(p, date).store, SubmissionKey)
  {
  }

  /** The timer of an earlier submission is not cancelled by a later one:
      after two submissions the first timer resets the form, and the second,
      still waiting, later wipes a draft typed after that reset, together
      with its saved copy. */
  lemma StaleTimerWipesLaterDraft(p: Page, d1: string, d2: string, f: Field, v: string)
    requires Inv(p) && p.pending == 0
    requires v != ""
    ensures var typed := Run(p, [Submit(d1), Submit(d2), TimerFires, Edit(f, v)]);
            && HasContent(typed.draft)
            && Lookup(typed.store, DraftKey) == Some(DraftEntry(typed.draft))
            && typed.pending == 1
    ensures var wiped := Run(p, [Submit(d1), Submit(d2), TimerFires, Edit(f, v), TimerFires]);
            && wiped.draft == EmptyDraft
            && Lookup(wiped.store, DraftKey) == None
            && !wiped.submitted
  {
    var es := [Submit(d1), Submit(d2), TimerFires, Edit(f, v)];
    RunAppend(p, es, [TimerFires]);
    assert es + [TimerFires] == [Submit(d1), Submit(d2), TimerFires, Edit(f, v), TimerFires];
    var a := Step(p, Submit(d1));
    var b := Step(a, Submit(d2));
    var c := Step(b, TimerFires);
    var t := Step(c, Edit(f, v));
    assert Run(p, es) == t by {
      RunCons(p, Submit(d1), [Submit(d2), TimerFires, Edit(f, v)]);
      RunCons(a, Submit(d2), [TimerFires, Edit(f, v)]);
      RunCons(b, TimerFires, [Edit(f, v)]);
      RunCons(c, Edit(f, v), []);
    }
    SetNonEmptyHasContent(c.draft, f, v);
  }

  /** Erasing every field does not delete the saved draft: the save step skips
      an all-empty draft, so reopening the page brings back the last draft
      that had content. */
  lemma ErasedDraftComesBack(p: Page, f: Field)
    requires Inv(p)
    requires Get(p.draft, f) != ""
    requires forall g :: g != f ==> Get(p.draft, g) == ""
    ensures EditField(p, f, "").draft == EmptyDraft
    ensures Lookup(EditField(p, f, "").store, DraftKey) == Some(DraftEntry(p.draft))
    ensures Mount(EditField(p, f, "").store).draft == p.draft
  {
    var q := EditField(p, f, "");
    HasContentIff(p.draft);
    FieldsDetermineDraft(q.draft, EmptyDraft);
    HasContentIff(q.draft);
  }

  /** A concrete session: typing "Ana" as the name saves the draft, submitting
      records it with the moment, and the reset then empties the form and
      deletes the saved draft while keeping the record. */
  lemma AnaScenario(date: string)
    ensures var typed := Step(Mount(map[]), Edit(Name, "Ana"));
            && typed.draft == Draft("Ana", "", "", "")
            && Lookup(typed.store, DraftKey) == Some(DraftEntry(Draft("Ana", "", "", "")))
    ensures var sent := Run(Mount(map[]), [Edit(Name, "Ana"), Submit(date)]);
            && sent.submitted
            && Lookup(sent.store, SubmissionKey) == Some(SubmissionEntry(Submission(Draft("Ana", "", "", ""), date)))
    ensures var reset := Run(Mount(map[]), [Edit(Name, "Ana"), Submit(date), TimerFires]);
            && reset.draft == EmptyDraft
            && !reset.submitted
            && Lookup(reset.store, DraftKey) == None
            && Lookup(reset.store, SubmissionKey) == Some(SubmissionEntry(Submission(Draft("Ana", "", "", ""), date)))
  {
    var p0 := Mount(map[]);
    var es := [Edit(Name, "Ana"), Submit(date), TimerFires];
    var p1 := Step(p0, Edit(Name, "Ana"));
    var p2 := Step(p1, Submit(date));
    var p3 := Step(p2, TimerFires);
    RunCons(p0, Edit(Name, "Ana"), [Submit(date), TimerFires]);
    RunCons(p1, Submit(date), [TimerFires]);
    RunCons(p2, TimerFires, []);
    RunCons(p0, Edit(Name, "Ana"), [Submit(date)]);
    RunCons(p1, Submit(date), []);
  }
}
