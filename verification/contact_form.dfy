/**
 The contact form's in-progress draft: four text fields, edited one at a time.
 */
module ContactForm {

  /** The four inputs of the contact form. */
  datatype Field = Name | Email | Phone | Message

  /** The form's current contents. */
  datatype Draft = Draft(name: string, email: string, phone: string, message: string)

  /** The form as first rendered, and as left behind by the post-submission reset. */
  const EmptyDraft := Draft("", "", "", "")

  /** The contents of one field. */
  function Get(d: Draft, f: Field): string {
    match f
    case Name => d.name
    case Email => d.email
    case Phone => d.phone
    case Message => d.message
  }

  /** Typing into field f: that field takes the new value, the rest are kept. */
  function Set(d: Draft, f: Field, v: string): (r: Draft)
    ensures Get(r, f) == v
    ensures forall g :: g != f ==> Get(r, g) == Get(d, g)
  {
    match f
    case Name => d.(name := v)
    case Email => d.(email := v)
    case Phone => d.(phone := v)
    case Message => d.(message := v)
  }

  /** A JavaScript string is truthy exactly when it is non-empty, so the
      draft "has content" when at least one field is truthy. */
  predicate HasContent(d: Draft) {
    d.name != "" || d.email != "" || d.phone != "" || d.message != ""
  }

  /** Two drafts are equal exactly when they agree on every field. */
  lemma {:induction false} FieldsDetermineDraft(d: Draft, e: Draft)
    ensures (forall f :: Get(d, f) == Get(e, f)) <==> d == e
  {
    if forall f :: Get(d, f) == Get(e, f) {
      assert Get(d, Name) == Get(e, Name);
      assert Get(d, Email) == Get(e, Email);
      assert Get(d, Phone) == Get(e, Phone);
      assert Get(d, Message) == Get(e, Message);
    }
  }

  /** A draft has content exactly when some field is non-empty, and has none
      exactly when it is the empty draft. */
  lemma HasContentIff(d: Draft)
    ensures HasContent(d) <==> exists f :: Get(d, f) != ""
    ensures !HasContent(d) <==> d == EmptyDraft
  {
    if d.name != "" { assert Get(d, Name) != ""; }
    if d.email != "" { assert Get(d, Email) != ""; }
    if d.phone != "" { assert Get(d, Phone) != ""; }
    if d.message != "" { assert Get(d, Message) != ""; }
  }

  /** Setting a field to what it already holds changes nothing, and the last
      of two edits to the same field wins. */
  lemma SetLaws(d: Draft, f: Field, v: string, w: string)
    ensures Set(d, f, Get(d, f)) == d
    ensures Set(Set(d, f, v), f, w) == Set(d, f, w)
  {
  }

  /** Typing a non-empty value into any field gives the draft content. */
  lemma SetNonEmptyHasContent(d: Draft, f: Field, v: string)
    requires v != ""
    ensures HasContent(Set(d, f, v))
  {
  }
}
