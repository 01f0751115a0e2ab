/** The check the edit form runs while an email is typed: the address is
    taken when a contact other than the one being edited already has it. */
module EmailCheck {
  import opened Model

  const Taken: string := "Email already exists"

  /** The response for contact `id`, given `lookup`, the store's answer to
      "which contact has this email". A failed lookup is passed on. */
  function Get(id: ContactId, lookup: Result<Option<Contact>, Error>): (r: Result<string, Error>)
    ensures lookup.Err? <==> r.Err?
    ensures lookup.Err? ==> r.error == lookup.error
    ensures r.Ok? ==> r.value == Taken || r.value == ""
    ensures r == Ok(Taken) <==> lookup.Ok? && lookup.value.Some? && lookup.value.value.id != id
    ensures lookup == Ok(None) ==> r == Ok("")
  {
    match lookup
    case Err(e) => Err(e)
    case Ok(found) =>
      if found.Some? && found.value.id != id then Ok(Taken) else Ok("")
  }

  /** The store's answer: the first contact holding `email`. */
  function ByEmail(store: seq<Contact>, email: string): (found: Option<Contact>)
    ensures found.None? <==> forall i :: 0 <= i < |store| ==> store[i].email != email
    ensures found.Some? ==> found.value in store && found.value.email == email
  {
    if store == [] then None
    else if store[0].email == email then Some(store[0])
    else ByEmail(store[1..], email)
  }

  /** Emails are unique in the store (the table's UNIQUE constraint). */
  ghost predicate UniqueEmails(store: seq<Contact>)
  {
    forall i, j :: 0 <= i < |store| && 0 <= j < |store| && store[i].email == store[j].email ==> i == j
  }

  /** Against a store with unique emails, the address is reported taken for
      contact `id` exactly when some contact with another id holds it. */
  lemma {:induction false} TakenByAnother(store: seq<Contact>, id: ContactId, email: string)
    requires UniqueEmails(store)
    ensures Get(id, Ok(ByEmail(store, email))) == Ok(Taken) <==>
      exists i :: 0 <= i < |store| && store[i].email == email && store[i].id != id
  {
    var found := ByEmail(store, email);
    if found.Some? {
      var k :| 0 <= k < |store| && store[k] == found.value;
      forall i | 0 <= i < |store| && store[i].email == email ensures store[i] == found.value {
        assert i == k;
      }
    }
  }
}
