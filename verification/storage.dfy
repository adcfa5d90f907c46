/**
 The browser's key-value storage as the page uses it: the in-progress draft
 lives under one key, the record of the last submission under another, and
 every other key belongs to someone else and is never touched.
 Entries are kept as typed values; the JSON text the browser actually holds
 is taken to encode and decode them faithfully.
 */
module Storage {
  import opened ContactForm

  datatype Option<T> = None | Some(value: T)

  /** What a submission leaves behind: the draft as it was, plus the moment of submission. */
  datatype Submission = Submission(draft: Draft, date: string)

  /** A stored entry: a draft, a submission record, or anything else another script stored. */
  datatype Value = DraftEntry(draft: Draft) | SubmissionEntry(submission: Submission) | Foreign(text: string)

  type Store = map<string, Value>

  /** The key the in-progress draft is kept under. */
  const DraftKey := "contactFormData"

  /** The key the last submission is recorded under. */
  const SubmissionKey := "lastSubmission"

  /** Reading one key: absent, or the value stored there. */
  function Lookup(st: Store, k: string): Option<Value> {
    if k in st then Some(st[k]) else None
  }

  /** The two stores agree on every key other than k. */
  ghost predicate SameExcept(st: Store, st': Store, k: string) {
    forall k' :: k' != k ==> Lookup(st, k') == Lookup(st', k')
  }

  /** The draft key holds nothing, or a draft. Reading it back relies on this:
      the page parses that entry without a try/catch, so a malformed entry
      would make the parse throw. */
  predicate DraftSlotWellFormed(st: Store) {
    DraftKey in st ==> st[DraftKey].DraftEntry?
  }

  /** Saving the draft after it changes: the whole draft is written under the
      draft key, but only when some field is non-empty. */
  function Persist(st: Store, d: Draft): (st': Store)
    ensures HasContent(d) ==> Lookup(st', DraftKey) == Some(DraftEntry(d))
    ensures !HasContent(d) ==> st' == st
    ensures SameExcept(st, st', DraftKey)
  {
    if HasContent(d) then st[DraftKey := DraftEntry(d)] else st
  }

  /** Writing the submission record: overwrites whatever was recorded before. */
  function Record(st: Store, d: Draft, date: string): (st': Store)
    ensures Lookup(st', SubmissionKey) == Some(SubmissionEntry(Submission(d, date)))
    ensures SameExcept(st, st', SubmissionKey)
  {
    st[SubmissionKey := SubmissionEntry(Submission(d, date))]
  }

  /** Deleting the saved draft. */
  function Discard(st: Store): (st': Store)
    ensures Lookup(st', DraftKey) == None
    ensures SameExcept(st, st', DraftKey)
  {
    st - {DraftKey}
  }

  /** Reading the saved draft back: adopted when present, otherwise the empty draft. */
  function Load(st: Store): (d: Draft)
    requires DraftSlotWellFormed(st)
    ensures DraftKey in st ==> Some(DraftEntry(d)) == Lookup(st, DraftKey)
    ensures DraftKey !in st ==> d == EmptyDraft
  {
    if DraftKey in st then st[DraftKey].draft else EmptyDraft
  }

  /** Each write keeps the draft key well formed. */
  lemma WritesKeepSlotWellFormed(st: Store, d: Draft, date: string)
    requires DraftSlotWellFormed(st)
    ensures DraftSlotWellFormed(Persist(st, d))
    ensures DraftSlotWellFormed(Record(st, d, date))
    ensures DraftSlotWellFormed(Discard(st))
  {
  }

  /** Saving a draft with content and reading it back yields the same draft. */
  lemma PersistThenLoad(st: Store, d: Draft)
    requires DraftSlotWellFormed(st)
    requires HasContent(d)
    ensures DraftSlotWellFormed(Persist(st, d))
    ensures Load(Persist(st, d)) == d
  {
  }

  /** Saving an empty draft writes nothing, so what is read back is whatever
      was saved before, not the empty draft. */
  lemma PersistEmptyKeepsOldDraft(st: Store, d: Draft)
    requires DraftSlotWellFormed(st)
    requires !HasContent(d)
    ensures Load(Persist(st, d)) == Load(st)
  {
  }

  /** After the saved draft is deleted, reading it back yields the empty draft. */
  lemma DiscardThenLoad(st: Store)
    requires DraftSlotWellFormed(st)
    ensures DraftSlotWellFormed(Discard(st))
    ensures Load(Discard(st)) == EmptyDraft
  {
  }

  /** Saving the draft that was just read back leaves the store as it was. */
  lemma PersistLoadedIsNoOp(st: Store)
    requires DraftSlotWellFormed(st)
    ensures Persist(st, Load(st)) == st
  {
  }

  /** The draft key and the submission key are distinct, so the draft writes
      never reach the submission record and vice versa. */
  lemma KeysIndependent(st: Store, d: Draft, e: Draft, date: string)
    ensures Lookup(Persist(st, d), SubmissionKey) == Lookup(st, SubmissionKey)
    ensures Lookup(Discard(st), SubmissionKey) == Lookup(st, SubmissionKey)
    ensures Lookup(Record(st, e, date), DraftKey) == Lookup(st, DraftKey)
  {
  }
}
