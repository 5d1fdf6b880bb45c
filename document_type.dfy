/**
 * Document type detection and the document submit rule
 * (src/pages/admin/DocumentsManagement.tsx).
 *
 * A document's `type` is never entered by the admin: it is derived from the
 * URL on every create and every update, by a case-insensitive classifier
 * with three outcomes tested in a fixed order.
 */
module DocumentType {
  import opened Results
  import opened Text

  datatype DocType = PDF | Drive | External

  /** The suffix that marks a PDF link. */
  const PdfSuffix: string := ".pdf"

  /** The host that marks a Google Drive link. */
  const DriveHost: string := "drive.google.com"

  /**
   * `detectDocType`: `PDF` exactly when the lower-cased URL ends with
   * `.pdf`; otherwise `Drive` exactly when it contains `drive.google.com`;
   * otherwise `External`.
   */
  function DetectDocType(url: string): (t: DocType)
    ensures t == PDF <==> EndsWith(Lower(url), PdfSuffix)
    ensures t == Drive <==> !EndsWith(Lower(url), PdfSuffix) && exists i :: OccursAt(Lower(url), DriveHost, i)
    ensures t == External <==> !EndsWith(Lower(url), PdfSuffix) && !exists i :: OccursAt(Lower(url), DriveHost, i)
  {
    var u := Lower(url);
    if EndsWith(u, PdfSuffix) then PDF
    else if Includes(u, DriveHost) then Drive
    else External
  }

  /** Classification ignores letter case: a URL and its lower-case form get the same type. */
  lemma DetectIgnoresCase(url: string)
    ensures DetectDocType(url) == DetectDocType(Lower(url))
  {
    LowerIdempotent(url);
  }

  /** Any URL ending in `.pdf`, in any letter case (`.PDF`, `.Pdf`, ...), is a PDF, even a Drive link. */
  lemma PdfSuffixIsPdf(prefix: string, suffix: string)
    requires Lower(suffix) == PdfSuffix
    ensures DetectDocType(prefix + suffix) == PDF
  {
    LowerAppend(prefix, suffix);
    EndsWithAppend(Lower(prefix), PdfSuffix);
  }

  /** A URL mentioning `drive.google.com`, in any letter case, is never `External`. */
  lemma DriveHostNeverExternal(before: string, host: string, after: string)
    requires Lower(host) == DriveHost
    ensures DetectDocType(before + host + after) != External
  {
    var url := before + host + after;
    LowerAppend(before + host, after);
    LowerAppend(before, host);
    var u := Lower(url);
    assert u == Lower(before) + DriveHost + Lower(after);
    assert u[|before|..|before| + |DriveHost|] == DriveHost;
    assert OccursAt(u, DriveHost, |before|);
  }

  /** The empty URL is `External`. */
  lemma EmptyUrlIsExternal()
    ensures DetectDocType("") == External
  {
  }

  // ---------------------------------------------------------------------
  // The submit rule (`handleSubmit`) and the dialog that feeds it
  // ---------------------------------------------------------------------

  /** A stored document. */
  datatype Document = Document(id: string, title: string, description: string, url: string, docType: DocType)

  /** The dialog's form state: the only fields the admin edits. */
  datatype DocumentForm = DocumentForm(title: string, description: string, url: string)

  /** The record written to the store: the form's fields and the derived type. */
  datatype DocumentData = DocumentData(title: string, description: string, url: string, docType: DocType)

  /** The write that `handleSubmit` issues: a create, or an update of the document being edited. */
  datatype Write = Create(data: DocumentData) | Update(id: string, data: DocumentData)

  /** A record whose stored type is the one its URL classifies as. */
  predicate TypeMatchesUrl(data: DocumentData) {
    data.docType == DetectDocType(data.url)
  }

  /**
   * `handleOpenDialog`: editing a document pre-fills the form with its title,
   * description and URL; a new document starts from an empty form.
   */
  function OpenDialog(editing: Option<Document>): (form: DocumentForm)
    ensures editing.None? ==> form == DocumentForm("", "", "")
    ensures editing.Some? ==>
      form.title == editing.value.title && form.description == editing.value.description &&
      form.url == editing.value.url
  {
    match editing
    case None => DocumentForm("", "", "")
    case Some(d) => DocumentForm(d.title, d.description, d.url)
  }

  /**
   * `handleSubmit`: an update of the edited document's id when one is being
   * edited, a create otherwise; either way the record carries the form's
   * title, description and URL and the type detected from that URL.
   */
  function SubmitWrite(editing: Option<Document>, form: DocumentForm): (w: Write)
    ensures w.Update? <==> editing.Some?
    ensures w.Update? ==> w.id == editing.value.id
    ensures w.data.title == form.title && w.data.description == form.description && w.data.url == form.url
    ensures TypeMatchesUrl(w.data)
  {
    var data := DocumentData(form.title, form.description, form.url, DetectDocType(form.url));
    match editing
    case None => Create(data)
    case Some(d) => Update(d.id, data)
  }

  /**
   * The type is never taken from the admin or from the document being
   * edited: two submissions of the same form for the same id write the same
   * record, whatever the old documents held.
   */
  lemma SubmittedTypeIgnoresOldDocument(old1: Document, old2: Document, form: DocumentForm)
    requires old1.id == old2.id
    ensures SubmitWrite(Some(old1), form) == SubmitWrite(Some(old2), form)
  {
  }

  /**
   * Opening a document and saving it unchanged rewrites it with the type its
   * URL classifies as: a document whose type already matches is written back
   * as it was, and one whose stored type was wrong is corrected.
   */
  lemma ResaveUnchanged(d: Document)
    ensures var w := SubmitWrite(Some(d), OpenDialog(Some(d)));
      && w == Update(d.id, DocumentData(d.title, d.description, d.url, DetectDocType(d.url)))
      && (d.docType == DetectDocType(d.url) <==> w.data == DocumentData(d.title, d.description, d.url, d.docType))
  {
  }
}
