/**
 * Admin allow-list check (src/lib/adminAuth.ts).
 *
 * The allow-list is the `emails` array of the `admins/allowed` document. The
 * one remote read is an input: the document is missing, present with some
 * `emails` field, or the read fails with an error. Results that the source
 * returns or throws are `Ok(value)` or `Err(error)`.
 */
module AdminAuth {
  import opened Results
  import opened Text

  /**
   * The `emails` field of `admins/allowed`: an array, whose entries are given
   * by their `String(e)` renderings, or any value that is not an array
   * (absent, null, a string, an object, ...).
   */
  datatype EmailsField = ArrayOf(entries: seq<string>) | NotAnArray

  /** What `getDoc(doc(db, 'admins', 'allowed'))` gives: no document, a document, or a failure. */
  datatype AllowedRead = Missing | Present(emails: EmailsField) | Failed(error: string)

  /** A signed-in user; the email claim may be absent (null). */
  datatype User = User(email: Option<string>)

  /** `!user?.email` is false: there is a user, with an email that is present and not empty. */
  predicate HasEmail(user: Option<User>) {
    user.Some? && user.value.email.Some? && user.value.email.value != ""
  }

  /** The entries the document lists, before normalisation: none unless `emails` is an array. */
  function ListedEntries(read: AllowedRead): seq<string> {
    if read.Present? && read.emails.ArrayOf? then read.emails.entries else []
  }

  /** `emails.map((e) => String(e).toLowerCase())`. */
  function LowerAll(entries: seq<string>): (r: seq<string>)
    ensures |r| == |entries|
    ensures forall i :: 0 <= i < |entries| ==> r[i] == Lower(entries[i])
  {
    if entries == [] then [] else [Lower(entries[0])] + LowerAll(entries[1..])
  }

  /**
   * `fetchAllowedEmails`: a failed read is rethrown with its own error; a
   * missing document or a non-array `emails` field gives the empty list;
   * otherwise every entry lower-cased, same length and order.
   */
  function FetchAllowedEmails(read: AllowedRead): (r: Result<seq<string>, string>)
    ensures r.Err? <==> read.Failed?
    ensures read.Failed? ==> r.error == read.error
    ensures read.Missing? ==> r == Ok([])
    ensures read.Present? && read.emails.NotAnArray? ==> r == Ok([])
    ensures r.Ok? ==> |r.value| == |ListedEntries(read)|
    ensures r.Ok? ==> forall i :: 0 <= i < |r.value| ==> r.value[i] == Lower(ListedEntries(read)[i])
    ensures r.Ok? ==> forall i :: 0 <= i < |r.value| ==> IsLower(r.value[i])
  {
    match read
    case Missing => Ok([])
    case Present(ArrayOf(entries)) => Ok(LowerAll(entries))
    case Present(NotAnArray) => Ok([])
    case Failed(error) => Err(error)
  }

  /**
   * `verifyAdminAccess`: false for no user or no email, whatever the remote
   * document holds (it is not read); otherwise the read's error is rethrown,
   * or the answer is whether some listed entry equals the email once both
   * are lower-cased.
   */
  function VerifyAdminAccess(user: Option<User>, read: AllowedRead): (r: Result<bool, string>)
    ensures !HasEmail(user) ==> r == Ok(false)
    ensures HasEmail(user) && read.Failed? ==> r == Err(read.error)
    ensures HasEmail(user) && !read.Failed? ==>
      r.Ok? &&
      (r.value <==> exists i :: 0 <= i < |ListedEntries(read)| &&
                     Lower(ListedEntries(read)[i]) == Lower(user.value.email.value))
  {
    if !HasEmail(user) then Ok(false)
    else
      match FetchAllowedEmails(read)
      case Err(error) => Err(error)
      case Ok(allowed) => Ok(Lower(user.value.email.value) in allowed)
  }

  /** A fetch failure is never turned into a refusal: the answer is an error exactly when there is an email and the read failed. */
  lemma FailureIsNeverRefusal(user: Option<User>, read: AllowedRead)
    ensures VerifyAdminAccess(user, read).Err? <==> HasEmail(user) && read.Failed?
  {
  }

  /** Without a document, or with a non-array `emails` field, every user is refused. */
  lemma EmptyListRefusesEveryone(user: Option<User>, read: AllowedRead)
    requires read.Missing? || (read.Present? && read.emails.NotAnArray?)
    ensures VerifyAdminAccess(user, read) == Ok(false)
  {
  }

  /** Two emails that differ only in letter case get the same answer. */
  lemma EmailCaseIgnored(email1: string, email2: string, read: AllowedRead)
    requires Lower(email1) == Lower(email2)
    ensures VerifyAdminAccess(Some(User(Some(email1))), read) == VerifyAdminAccess(Some(User(Some(email2))), read)
  {
  }

  /** Two lists whose entries differ only in letter case give the same answers. */
  lemma {:induction false} ListCaseIgnored(user: Option<User>, entries1: seq<string>, entries2: seq<string>)
    requires |entries1| == |entries2|
    requires forall i :: 0 <= i < |entries1| ==> Lower(entries1[i]) == Lower(entries2[i])
    ensures VerifyAdminAccess(user, Present(ArrayOf(entries1))) == VerifyAdminAccess(user, Present(ArrayOf(entries2)))
  {
    assert LowerAll(entries1) == LowerAll(entries2);
  }

  /** An entry listed in any letter case admits the user whose email matches it case-insensitively. */
  lemma ListedEmailAdmitted(email: string, entries: seq<string>, i: nat)
    requires email != ""
    requires i < |entries| && Lower(entries[i]) == Lower(email)
    ensures VerifyAdminAccess(Some(User(Some(email))), Present(ArrayOf(entries))) == Ok(true)
  {
  }


  /** `Admin@Example.com` and `admin@example.com` lower-case to the same text. */
  lemma ExampleAddressesMatch()
    ensures Lower("Admin@" + "Example.com") == Lower("admin@" + "example.com")
  {
    assert Lower("Admin@") == "admin@" && Lower("Example.com") == "example.com";
    LowerAppend("Admin@", "Example.com");
    assert Lower("admin@") == "admin@" && Lower("example.com") == "example.com";
    LowerAppend("admin@", "example.com");
  }

  /** A list holding `Admin@Example.com` admits the user `admin@example.com`. */
  lemma MixedCaseEntryAdmitted(entry: string, email: string)
    requires entry == "Admin@" + "Example.com" && email == "admin@" + "example.com"
    ensures VerifyAdminAccess(Some(User(Some(email))), Present(ArrayOf([entry]))) == Ok(true)
  {
    ExampleAddressesMatch();
    ListedEmailAdmitted(email, [entry], 0);
  }

  /** Normalising an already normalised list changes nothing. */
  lemma {:induction false} NormaliseIdempotent(entries: seq<string>)
    ensures LowerAll(LowerAll(entries)) == LowerAll(entries)
  {
    forall i | 0 <= i < |entries|
      ensures LowerAll(LowerAll(entries))[i] == LowerAll(entries)[i]
    {
      LowerIdempotent(entries[i]);
    }
  }
}
