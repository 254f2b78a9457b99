/** The attachment list of the email form: an ordered sequence of
    (file, description) pairs, with the three edits the form offers:
    append on drop, edit one description, remove one entry. */
module Attachments {

  /** A dropped file as the browser hands it over: its name, its MIME type
      and its bytes. */
  datatype Blob = Blob(name: string, mimeType: string, data: seq<bv8>)

  /** One entry of the list: the file and its free-text description. */
  datatype Attachment = Attachment(file: Blob, description: string)

  /** The files of the list, in list order. */
  function Blobs(files: seq<Attachment>): (r: seq<Blob>)
    ensures |r| == |files|
    ensures forall i :: 0 <= i < |files| ==> r[i] == files[i].file
  {
    if files == [] then [] else [files[0].file] + Blobs(files[1..])
  }

  /** The descriptions of the list, in list order. */
  function Descriptions(files: seq<Attachment>): (r: seq<string>)
    ensures |r| == |files|
    ensures forall i :: 0 <= i < |files| ==> r[i] == files[i].description
  {
    if files == [] then [] else [files[0].description] + Descriptions(files[1..])
  }

  /** Each dropped file wrapped as a new entry with an empty description. */
  function Wrap(dropped: seq<Blob>): (r: seq<Attachment>)
    ensures |r| == |dropped|
    ensures forall j :: 0 <= j < |dropped| ==> r[j] == Attachment(dropped[j], "")
  {
    if dropped == [] then [] else [Attachment(dropped[0], "")] + Wrap(dropped[1..])
  }

  /** The list after a drop: the old entries, then the dropped files in
      drop order, each with an empty description. */
  function Appended(files: seq<Attachment>, dropped: seq<Blob>): (r: seq<Attachment>)
    ensures |r| == |files| + |dropped|
    ensures forall i :: 0 <= i < |files| ==> r[i] == files[i]
    ensures forall j :: 0 <= j < |dropped| ==> r[|files| + j] == Attachment(dropped[j], "")
  {
    files + Wrap(dropped)
  }

  /** The list after the description at `index` is replaced. */
  function DescriptionChanged(files: seq<Attachment>, index: nat, description: string): (r: seq<Attachment>)
    requires index < |files|
    ensures |r| == |files|
    ensures r[index].file == files[index].file && r[index].description == description
    ensures forall i :: 0 <= i < |files| && i != index ==> r[i] == files[i]
  {
    files[index := files[index].(description := description)]
  }

  /** The entries whose position differs from `index`, in order: a filter
      by position, so an index outside the list removes nothing. */
  function Removed(files: seq<Attachment>, index: int): (r: seq<Attachment>)
    ensures 0 <= index < |files| ==> |r| == |files| - 1
    ensures 0 <= index < |files| ==> forall i :: 0 <= i < index ==> r[i] == files[i]
    ensures 0 <= index < |files| ==> forall i :: index <= i < |r| ==> r[i] == files[i + 1]
    ensures !(0 <= index < |files|) ==> r == files
  {
    if files == [] then []
    else (if index == 0 then [] else [files[0]]) + Removed(files[1..], index - 1)
  }

  /** A drop leaves the old files first and the dropped files after them. */
  lemma BlobsAppended(files: seq<Attachment>, dropped: seq<Blob>)
    ensures Blobs(Appended(files, dropped)) == Blobs(files) + dropped
  {
  }

  /** Editing a description never moves, adds or drops a file. */
  lemma BlobsDescriptionChanged(files: seq<Attachment>, index: nat, description: string)
    requires index < |files|
    ensures Blobs(DescriptionChanged(files, index, description)) == Blobs(files)
  {
  }

  /** Removing an entry removes exactly that file from the file order, and
      exactly that description from the description order. */
  lemma {:induction false} RemovedProjections(files: seq<Attachment>, index: int)
    requires 0 <= index < |files|
    ensures Blobs(Removed(files, index)) == Blobs(files)[..index] + Blobs(files)[index + 1..]
    ensures Descriptions(Removed(files, index)) == Descriptions(files)[..index] + Descriptions(files)[index + 1..]
  {
    var r := Removed(files, index);
    var b := Blobs(files)[..index] + Blobs(files)[index + 1..];
    var d := Descriptions(files)[..index] + Descriptions(files)[index + 1..];
    assert |Blobs(r)| == |b| && |Descriptions(r)| == |d|;
    forall i | 0 <= i < |r| ensures Blobs(r)[i] == b[i] && Descriptions(r)[i] == d[i] {
      if i < index {
        assert r[i] == files[i];
      } else {
        assert r[i] == files[i + 1];
      }
    }
  }
}
