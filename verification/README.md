# Landing-page logic: testimonial carousel and contact-draft store

The landing page of a psychoanalysis practice (`DanielLannesPage` in
`src/app/page.tsx`) is static markup except for two small state machines.
This project models both and proves their properties in Dafny.

- **Carousel** (`carousel.dfy`, module `Carousel`). A wrap-around pointer over
  the fixed, non-empty list of testimonials. It has "next" and "previous"
  arrows and one indicator button per testimonial. The arrows compute the new
  position with JavaScript's truncating `%`, which is modelled explicitly as
  `JsRem`. Its operands are never negative here, so it agrees with the
  mathematical remainder.
- **Contact draft** (`contact_form.dfy`, module `ContactForm`). The four-field
  form record, edited one field at a time. A field counts as "set" when its
  string is non-empty, which is JavaScript's truthiness for strings.
- **Storage** (`storage.dfy`, module `Storage`). The browser's key-value store
  as a `map<string, Value>`. The draft lives under `contactFormData` and the
  last submission under `lastSubmission`. Every other key is left alone.
- **Page** (`contact_page.dfy`, module `ContactPage`). The contact part of the
  page as a state machine: the draft, the submitted flag, the store, and the
  number of reset timers still waiting. The flag is set by a submission and
  cleared by the reset. The markup never reads it. There are three events: a
  keystroke in one field, a submission carrying its moment as an ISO-8601
  string, and one reset timer firing. The draft-saving effect runs after every new draft:
  after each keystroke, after opening the page, and after the reset. It does
  not run after a submission, because the draft object is unchanged then.

Behaviour the source has that a reader might not expect, each proved as a lemma:

- Erasing every field does not delete the saved draft. The save step skips an
  all-empty draft, so reopening the page brings back the last draft that had
  content (`ContactPage.ErasedDraftComesBack`). One might expect the saved
  draft to disappear once every field is empty, but lines 56-60 never delete it.
- A second submission does not cancel the first submission's reset timer.
  After the first timer resets the form, the second timer later wipes a draft
  typed in between, together with its saved copy
  (`ContactPage.StaleTimerWipesLaterDraft`).
- Reading the saved draft back has no guard against a malformed entry: line 51
  parses it without a try/catch, so a malformed entry under `contactFormData`
  makes `JSON.parse` throw. So `Storage.Load` requires the draft key to be
  absent or to hold a draft (`DraftSlotWellFormed`). Every operation preserves
  this (`ContactPage.Inv`).
- `handleInputChange` and `handleSubmit` are defined but no element in
  `page.tsx` is bound to them. They are modelled as the operations they define.

## Model

| member | source | states |
|---|---|---|
| Carousel.JsRem | src/app/page.tsx:85-91 | JavaScript's `%` leaves a multiple of the divisor when subtracted from the dividend, takes the dividend's sign, and is smaller than the divisor in magnitude; for a non-negative dividend it equals the mathematical remainder |
| Carousel.Next | src/app/page.tsx:85-87 | "next" always yields a valid position; from a valid position it moves one card forward, and from the last card it wraps to the first |
| Carousel.Prev | src/app/page.tsx:89-91 | "previous" always yields a valid position; from a valid position it moves one card back, and from the first card it wraps to the last |
| Carousel.Indicators | src/app/page.tsx:440-443 | one indicator per testimonial, in list order; the k-th button targets position k |
| Carousel.Jump | src/app/page.tsx:443 | pressing an indicator selects exactly that testimonial, which is a valid position |
| Carousel.Apply | src/app/page.tsx:417-443 | every carousel action keeps a valid pointer valid |
| Carousel.NavigateStaysValid | src/app/page.tsx:85-91 | every sequence of arrow and indicator presses from a valid position ends at a valid position |
| Carousel.NextPrevInverse | src/app/page.tsx:85-91 | "previous" undoes "next" and "next" undoes "previous" on every valid position |
| Carousel.NextTimesIsShift | src/app/page.tsx:85-87 | pressing "next" k times from position i lands on (i + k) mod n |
| Carousel.PrevTimesIsShift | src/app/page.tsx:89-91 | pressing "previous" k times from position i lands on (i - k) mod n |
| Carousel.FullCycle | src/app/page.tsx:85-91 | n presses of "next", or of "previous", return to the starting card, and fewer than n presses of "next" never do |
| Carousel.SingleCardNeverMoves | src/app/page.tsx:417-443 | with one testimonial, no action moves the pointer off position 0; this is the case in which the page does not draw the controls |
| Carousel.ShippedListStaysAtStart | src/app/page.tsx:36-45 | the list as shipped has one entry, so "next" and "previous" both keep the pointer at its start, 0 |
| ContactForm.Set | src/app/page.tsx:67-70 | typing into a field sets that field to the value and leaves the other three unchanged |
| ContactForm.FieldsDetermineDraft | src/app/page.tsx:15-20 | a draft is exactly its four fields: two drafts are equal if and only if every field agrees |
| ContactForm.HasContentIff | src/app/page.tsx:57 | the save condition holds if and only if some field is non-empty; it fails if and only if the draft is the empty draft |
| ContactForm.SetLaws | src/app/page.tsx:67-70 | rewriting a field with its own value changes nothing, and the later of two edits to one field wins |
| ContactForm.SetNonEmptyHasContent | src/app/page.tsx:67-70 | typing a non-empty value into any field makes the draft savable |
| Storage.Persist | src/app/page.tsx:56-60 | a draft with content is stored under `contactFormData`; an all-empty draft leaves the store unchanged; no other key changes |
| Storage.Record | src/app/page.tsx:75 | the submission record under `lastSubmission` becomes the draft plus the moment, replacing any earlier one; no other key changes |
| Storage.Load | src/app/page.tsx:49-51 | reading back adopts the stored draft when the draft key is present and yields the empty draft otherwise |
| Storage.Discard | src/app/page.tsx:80 | the saved draft is deleted and no other key changes |
| Storage.WritesKeepSlotWellFormed | src/app/page.tsx:48-83 | saving, recording and deleting all keep the draft key absent or holding a draft |
| Storage.PersistThenLoad | src/app/page.tsx:49-58 | saving a draft with content and reading it back yields the same draft |
| Storage.PersistEmptyKeepsOldDraft | src/app/page.tsx:56-60 | saving an all-empty draft does not change what reading back yields |
| Storage.DiscardThenLoad | src/app/page.tsx:49-51 | after the saved draft is deleted, reading back yields the empty draft |
| Storage.PersistLoadedIsNoOp | src/app/page.tsx:48-60 | saving the draft just read back leaves the store unchanged |
| Storage.KeysIndependent | src/app/page.tsx:58-80 | draft writes never change the submission record, and recording a submission never changes the saved draft |
| ContactPage.Mount | src/app/page.tsx:29-60 | opening the page adopts the saved draft if there is one and the empty draft otherwise; the flag is clear, no timer waits, and the store ends unchanged |
| ContactPage.EditField | src/app/page.tsx:56-70 | a keystroke changes only its field; afterwards the store holds the new draft if it has content and is unchanged otherwise; no other key changes; flag and timers are kept |
| ContactPage.SubmitForm | src/app/page.tsx:72-78 | submission raises the flag, records the current draft and moment whatever their contents, keeps the draft and every other key, and starts one more timer |
| ContactPage.Fire | src/app/page.tsx:78-82 | a reset timer empties the draft, clears the flag and deletes the saved draft; the save step that follows does not recreate it; every other key, including the record, is kept |
| ContactPage.Step | src/app/page.tsx:67-83 | a keystroke sets its field and keeps the flag and timers; a submission sets the flag, keeps the draft and adds a timer; a timer firing with one waiting empties the draft, clears the flag, deletes the saved draft and removes that timer; with none waiting it changes nothing |
| ContactPage.MountEstablishesInv | src/app/page.tsx:48-60 | the freshly opened page satisfies the invariant: any draft with content is exactly the stored one, and the flag is set only while a timer waits |
| ContactPage.StepPreservesInv | src/app/page.tsx:56-83 | every keystroke, submission and timer firing preserves the invariant |
| ContactPage.RunPreservesInv | src/app/page.tsx:56-83 | every sequence of events preserves the invariant |
| ContactPage.ReloadRestoresDraft | src/app/page.tsx:49-58 | after any session, reopening the page restores the session's final draft whenever it has content |
| ContactPage.RecordSurvivesWithoutSubmit | src/app/page.tsx:67-82 | keystrokes and timer firings never change the submission record |
| ContactPage.LastSubmissionRecorded | src/app/page.tsx:72-75 | after any session the record holds the draft and moment of the last submission |
| ContactPage.ResubmitOnlyRewritesRecord | src/app/page.tsx:72-83 | submitting while the flag is already set yields the same page with only the record rewritten and one more timer waiting; the flag, the draft and every other stored key are kept |
| ContactPage.StaleTimerWipesLaterDraft | src/app/page.tsx:72-83 | with no cancellation, after two submissions the second timer wipes a draft typed after the first reset, and its saved copy |
| ContactPage.ErasedDraftComesBack | src/app/page.tsx:56-60 | erasing the last non-empty field leaves the old draft stored, and reopening the page brings it back |
| ContactPage.AnaScenario | src/app/page.tsx:67-83 | typing "Ana" saves `{Ana, "", "", ""}`; submitting records it with the moment; the reset empties the draft and deletes the saved copy, but keeps the record |

## Left out

- All markup, styling, anchors and external links (`page.tsx` after line 93). They are presentation with no state.
- The mobile-menu flag and its handler. It is a UI toggle unrelated to either state machine.
- The JSON encoding of stored entries. Entries are typed values, and encoding followed by decoding is taken to be the identity. An empty stored string is therefore not modelled either: the encoded draft is never empty, so the truthiness test on line 50 reduces to presence.
- Malformed stored drafts. The source parses the entry without a guard, so `Storage.Load` requires a well-formed draft slot instead of modelling a parse failure.
- The clock. The submission moment is an opaque string parameter of the submit event.
- Real time and the 3000 ms delay. A reset timer is a discrete event. The page counts waiting timers, and a firing with none waiting is ignored by `ContactPage.Step`.
- React's scheduling and re-rendering, except the order "draft changes, then the save step runs". The save step is keyed on the draft object, so it runs after every keystroke, after opening the page and after the reset, but not after a submission.
- Arbitrary `name` attributes in the input handler. Field names are restricted to the four draft fields.
- The default form action that the submit handler prevents. It is a browser mechanism with no model state.
- The quote text and picture address of the shipped testimonial. They are presentation content and do not affect the pointer; only the list's length matters.
