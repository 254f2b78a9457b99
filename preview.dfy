/** The preview pane of the email form: a read-only projection of the
    composition, recomputed on every render. */
module Preview {
  import opened Attachments
  import Payload

  /** How one attachment is shown: its file name, its description, and
      whether an inline image is rendered for it. */
  datatype Entry = Entry(name: string, description: string, isImage: bool)

  /** The whole pane: subject heading, converted body, one entry per
      attachment, and the recipient line. */
  datatype Pane = Pane(subject: string, body: string, entries: seq<Entry>, recipients: string)

  /** An image is rendered exactly for MIME types that start with `image/`. */
  predicate IsImageType(mimeType: string)
  {
    "image/" <= mimeType
  }

  /** One entry per attachment, in list order. */
  function Entries(files: seq<Attachment>): (r: seq<Entry>)
    ensures |r| == |files|
    ensures forall i :: 0 <= i < |files| ==>
      r[i].name == files[i].file.name &&
      r[i].description == files[i].description &&
      (r[i].isImage <==> IsImageType(files[i].file.mimeType))
  {
    if files == [] then []
    else [Entry(files[0].file.name, files[0].description, IsImageType(files[0].file.mimeType))]
         + Entries(files[1..])
  }

  /** The pane for a composition; the body goes through the same converter
      the submission uses. */
  function Render(subject: string, body: string, recipients: string, files: seq<Attachment>,
                  convert: string -> string): (pane: Pane)
    ensures pane.subject == subject && pane.body == convert(body) && pane.recipients == recipients
    ensures |pane.entries| == |files|
    ensures forall i :: 0 <= i < |files| ==>
      pane.entries[i].name == files[i].file.name &&
      pane.entries[i].description == files[i].description &&
      (pane.entries[i].isImage <==> IsImageType(files[i].file.mimeType))
  {
    Pane(subject, convert(body), Entries(files), recipients)
  }

  /** The pane shows what would be sent: the same subject, the same
      converted body and the same recipient string as the request, and, for
      the Nth attachment, the name of the Nth file part's file and the text
      of the Nth description part. */
  lemma PreviewMatchesRequest(subject: string, body: string, recipients: string,
                              files: seq<Attachment>, convert: string -> string)
    ensures var pane := Render(subject, body, recipients, files, convert);
      var p := Payload.Request(subject, body, recipients, files, convert);
      Payload.GetAll(p, "subject") == [Payload.Text(pane.subject)] &&
      Payload.GetAll(p, "body") == [Payload.Text(pane.body)] &&
      Payload.GetAll(p, "recipients") == [Payload.Text(pane.recipients)] &&
      |Payload.GetAll(p, "files")| == |Payload.GetAll(p, "descriptions")| == |pane.entries| &&
      forall i :: 0 <= i < |pane.entries| ==>
        Payload.GetAll(p, "files")[i].FileValue? &&
        Payload.GetAll(p, "files")[i].blob.name == pane.entries[i].name &&
        Payload.GetAll(p, "descriptions")[i] == Payload.Text(pane.entries[i].description)
  {
    Payload.RequestReadBack(subject, body, recipients, files, convert);
  }

  /** Editing a description changes that preview entry's description and
      nothing else in the preview list. */
  lemma {:induction false} EntriesDescriptionChanged(files: seq<Attachment>, index: nat, description: string)
    requires index < |files|
    ensures Entries(DescriptionChanged(files, index, description)) ==
      Entries(files)[index := Entries(files)[index].(description := description)]
  {
  }

  /** Removing an attachment drops exactly its preview entry; the later
      entries move up one place. */
  lemma {:induction false} EntriesRemoved(files: seq<Attachment>, index: int)
    requires 0 <= index < |files|
    ensures Entries(Removed(files, index)) == Entries(files)[..index] + Entries(files)[index + 1..]
  {
  }

  /** A drop adds, after the existing preview entries, one entry per dropped
      file with its name, an empty description, and an image exactly when
      the file's type is an image type. */
  lemma {:induction false} EntriesAppended(files: seq<Attachment>, dropped: seq<Blob>)
    ensures var a := Entries(Appended(files, dropped));
      a[..|files|] == Entries(files) &&
      forall j :: 0 <= j < |dropped| ==>
        a[|files| + j] == Entry(dropped[j].name, "", IsImageType(dropped[j].mimeType))
  {
  }
}
