/**
 * The response gate (`modifiable?`, `html?`, `attachment?`): only a 200
 * response declared as HTML and not served as an attachment is rewritten.
 */
module Gate {
  import opened Wrappers
  import opened Text
  import opened Headers

  /** `html?`: a `Content-Type` field is present, and the first one contains `text/html`. */
  function IsHtml(entries: seq<Entry>): (r: bool)
    ensures r <==> exists k, i :: FirstField(entries, "Content-Type", k) &&
                                 OccursAt(entries[k].value, "text/html", i)
  {
    FirstFieldUnique(entries, "Content-Type");
    match Lookup(entries, "Content-Type")
    case Some(v) => Contains(v, "text/html")
    case None => false
  }

  /** `attachment?`: a `Content-Disposition` field is present, and the first one contains `attachment`. */
  function IsAttachment(entries: seq<Entry>): (r: bool)
    ensures r <==> exists k, i :: FirstField(entries, "Content-Disposition", k) &&
                                 OccursAt(entries[k].value, "attachment", i)
  {
    FirstFieldUnique(entries, "Content-Disposition");
    match Lookup(entries, "Content-Disposition")
    case Some(v) => Contains(v, "attachment")
    case None => false
  }

  /**
   * `modifiable?` on the status and headers of a response, spelled out: the
   * status is exactly 200, the first `Content-Type` field holds `text/html`
   * at some index, and there is either no `Content-Disposition` field or
   * its first one holds `attachment` nowhere.
   */
  function Modifiable(status: int, entries: seq<Entry>): (r: bool)
    ensures r <==>
      status == 200 &&
      (exists k, i :: FirstField(entries, "Content-Type", k) && OccursAt(entries[k].value, "text/html", i)) &&
      (forall k :: FirstField(entries, "Content-Disposition", k) ==>
                   forall i :: !OccursAt(entries[k].value, "attachment", i))
  {
    status == 200 && IsHtml(entries) && !IsAttachment(entries)
  }

  /** Whatever index `Lookup` reports is the only first field of that name. */
  lemma FirstFieldUnique(entries: seq<Entry>, name: string)
    ensures forall k :: FirstField(entries, name, k) ==> Lookup(entries, name) == Some(entries[k].value)
  {
    forall k | FirstField(entries, name, k) ensures Lookup(entries, name) == Some(entries[k].value) {
      var r := Lookup(entries, name);
      var j :| 0 <= j < |entries| && entries[j] == Field(name, r.value) &&
               forall k' :: 0 <= k' < j ==> !IsField(entries[k'], name);
    }
  }

  /** An HTML page is rewritten. */
  lemma HtmlPageIsModifiable()
    ensures Modifiable(200, [Field("Content-Type", "text/html; charset=utf-8")])
  {
    assert OccursAt("text/html; charset=utf-8", "text/html", 0);
  }

  /** A JSON response is not. */
  lemma JsonIsNotModifiable()
    ensures !Modifiable(200, [Field("Content-Type", "application/json")])
  {
    assert 'x' in "text/html" && 'x' !in "application/json";
    MissingCharNotContained("application/json", "text/html", 'x');
  }

  /** An HTML attachment is not. */
  lemma AttachmentIsNotModifiable()
    ensures !Modifiable(200, [Field("Content-Type", "text/html"),
                              Field("Content-Disposition", "attachment; filename=x")])
  {
    assert OccursAt("attachment; filename=x", "attachment", 0);
  }

  /** Any status other than 200, a redirect say, is never rewritten, whatever the headers. */
  lemma NonOkIsNotModifiable(status: int, entries: seq<Entry>)
    requires status != 200
    ensures !Modifiable(status, entries)
  {
  }
}
