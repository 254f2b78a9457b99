/** The outgoing multipart request of the email form, as the ordered list
    of named parts that `FormData.append` accumulates. */
module Payload {
  import opened Attachments

  /** What a part carries: text, or a file with its name and type. */
  datatype Value = Text(text: string) | FileValue(blob: Blob)

  /** One `name=value` part of the multipart body. */
  datatype Part = Part(name: string, value: Value)

  /** The three fixed parts that open every request. */
  function HeaderParts(subject: string, markdownBody: string, recipients: string): seq<Part>
  {
    [Part("subject", Text(subject)), Part("body", Text(markdownBody)), Part("recipients", Text(recipients))]
  }

  /** Per attachment, in list order, one `files` part followed by one
      `descriptions` part. */
  function AttachmentParts(files: seq<Attachment>): (r: seq<Part>)
    ensures |r| == 2 * |files|
    ensures forall k :: 0 <= k < |r| ==> r[k].name == "files" || r[k].name == "descriptions"
    ensures forall i :: 0 <= i < |files| ==>
      r[2 * i] == Part("files", FileValue(files[i].file)) &&
      r[2 * i + 1] == Part("descriptions", Text(files[i].description))
  {
    if files == [] then [] else PartsOf(files[0]) + AttachmentParts(files[1..])
  }

  /** The five part names the request uses. */
  const FieldNames: set<string> := {"subject", "body", "recipients", "files", "descriptions"}

  /** The whole request for a composition; the body is sent as the
      converter's markup of the editor's HTML. */
  function Request(subject: string, body: string, recipients: string, files: seq<Attachment>,
                   convert: string -> string): (r: seq<Part>)
    ensures |r| == 3 + 2 * |files|
    ensures forall k :: 0 <= k < |r| ==> r[k].name in FieldNames
  {
    HeaderParts(subject, convert(body), recipients) + AttachmentParts(files)
  }

  /** Every value stored under `name`, in the order the parts were
      appended: what `FormData.getAll(name)` returns on the request as
      built, before any wire encoding. */
  function GetAll(parts: seq<Part>, name: string): seq<Value>
  {
    if parts == [] then []
    else (if parts[0].name == name then [parts[0].value] else []) + GetAll(parts[1..], name)
  }

  /** Looking up a name in two part lists laid end to end gives the values
      from the first list, then those from the second. */
  lemma {:induction false} GetAllConcat(a: seq<Part>, b: seq<Part>, name: string)
    ensures GetAll(a + b, name) == GetAll(a, name) + GetAll(b, name)
  {
    if a == [] {
      assert a + b == b;
    } else {
      var first := if a[0].name == name then [a[0].value] else [];
      assert (a + b)[0] == a[0];
      assert (a + b)[1..] == a[1..] + b;
      assert GetAll(a + b, name) == first + GetAll(a[1..] + b, name);
      GetAllConcat(a[1..], b, name);
      assert first + (GetAll(a[1..], name) + GetAll(b, name)) == (first + GetAll(a[1..], name)) + GetAll(b, name);
    }
  }

  /** Appending one more attachment's two parts at the end of the list. */
  lemma AttachmentPartsSnoc(files: seq<Attachment>, a: Attachment)
    ensures AttachmentParts(files + [a]) == AttachmentParts(files) + PartsOf(a)
  {
    var l := AttachmentParts(files + [a]);
    var r := AttachmentParts(files) + PartsOf(a);
    assert |l| == |r|;
    forall k | 0 <= k < |l| ensures l[k] == r[k] {
      var i := k / 2;
      assert (files + [a])[i] == if i < |files| then files[i] else a;
      if k % 2 == 0 {
        assert k == 2 * i;
      } else {
        assert k == 2 * i + 1;
      }
    }
  }

  /** The two parts of one attachment, as one loop step appends them. */
  function PartsOf(a: Attachment): seq<Part>
  {
    [Part("files", FileValue(a.file)), Part("descriptions", Text(a.description))]
  }

  /** One attachment's parts hold its file under `files`, its description
      under `descriptions`, and nothing under any other name. */
  lemma PartsOfReadBack(a: Attachment, name: string)
    ensures GetAll(PartsOf(a), name) ==
      if name == "files" then [FileValue(a.file)]
      else if name == "descriptions" then [Text(a.description)]
      else []
  {
    var f, d := Part("files", FileValue(a.file)), Part("descriptions", Text(a.description));
    assert |"files"| == 5 && |"descriptions"| == 12;
    assert PartsOf(a) == [f] + [d];
    GetAllConcat([f], [d], name);
  }

  /** Looking up a name in the attachment parts: first attachment's parts,
      then the rest's. */
  lemma AttachmentPartsCons(files: seq<Attachment>, name: string)
    requires files != []
    ensures GetAll(AttachmentParts(files), name) ==
            GetAll(PartsOf(files[0]), name) + GetAll(AttachmentParts(files[1..]), name)
  {
    assert AttachmentParts(files) == PartsOf(files[0]) + AttachmentParts(files[1..]);
    GetAllConcat(PartsOf(files[0]), AttachmentParts(files[1..]), name);
  }

  /** One iteration of the request-building loop: after a prefix of the
      parts, appending the next attachment's file part and description part
      gives the parts of a prefix one attachment longer. */
  lemma AttachmentPartsStep(header: seq<Part>, files: seq<Attachment>, index: nat)
    requires index < |files|
    ensures header + AttachmentParts(files[..index])
            + [Part("files", FileValue(files[index].file))]
            + [Part("descriptions", Text(files[index].description))]
            == header + AttachmentParts(files[..index + 1])
  {
    assert files[..index + 1] == files[..index] + [files[index]];
    AttachmentPartsSnoc(files[..index], files[index]);
  }

  /** The attachment parts hold no `subject`, `body` or `recipients` part. */
  lemma {:induction false} AttachmentPartsNoHeader(files: seq<Attachment>, name: string)
    requires name != "files" && name != "descriptions"
    ensures GetAll(AttachmentParts(files), name) == []
  {
    if files != [] {
      AttachmentPartsCons(files, name);
      PartsOfReadBack(files[0], name);
      AttachmentPartsNoHeader(files[1..], name);
    }
  }

  /** Reading back the `files` parts gives the attachments' files in list
      order. */
  lemma {:induction false} AttachmentFilesReadBack(files: seq<Attachment>)
    ensures |GetAll(AttachmentParts(files), "files")| == |files|
    ensures forall i :: 0 <= i < |files| ==>
      GetAll(AttachmentParts(files), "files")[i] == FileValue(files[i].file)
  {
    if files != [] {
      AttachmentPartsCons(files, "files");
      PartsOfReadBack(files[0], "files");
      AttachmentFilesReadBack(files[1..]);
      var rest := GetAll(AttachmentParts(files[1..]), "files");
      assert GetAll(AttachmentParts(files), "files") == [FileValue(files[0].file)] + rest;
      forall i | 0 < i < |files|
        ensures GetAll(AttachmentParts(files), "files")[i] == FileValue(files[i].file)
      {
        assert files[1..][i - 1] == files[i];
      }
    }
  }

  /** Reading back the `descriptions` parts gives the attachments'
      descriptions in list order. */
  lemma {:induction false} AttachmentDescriptionsReadBack(files: seq<Attachment>)
    ensures |GetAll(AttachmentParts(files), "descriptions")| == |files|
    ensures forall i :: 0 <= i < |files| ==>
      GetAll(AttachmentParts(files), "descriptions")[i] == Text(files[i].description)
  {
    if files != [] {
      AttachmentPartsCons(files, "descriptions");
      PartsOfReadBack(files[0], "descriptions");
      AttachmentDescriptionsReadBack(files[1..]);
      var rest := GetAll(AttachmentParts(files[1..]), "descriptions");
      assert GetAll(AttachmentParts(files), "descriptions") == [Text(files[0].description)] + rest;
      forall i | 0 < i < |files|
        ensures GetAll(AttachmentParts(files), "descriptions")[i] == Text(files[i].description)
      {
        assert files[1..][i - 1] == files[i];
      }
    }
  }

  /** The request opens with subject, converted body and the recipient
      string verbatim, in that order, and then, for the Nth attachment, its
      file at part 3 + 2N and its description right after it. */
  lemma RequestLayout(subject: string, body: string, recipients: string, files: seq<Attachment>,
                      convert: string -> string)
    ensures var p := Request(subject, body, recipients, files, convert);
      |p| == 3 + 2 * |files| &&
      p[0] == Part("subject", Text(subject)) &&
      p[1] == Part("body", Text(convert(body))) &&
      p[2] == Part("recipients", Text(recipients)) &&
      forall i :: 0 <= i < |files| ==>
        p[3 + 2 * i] == Part("files", FileValue(files[i].file)) &&
        p[3 + 2 * i + 1] == Part("descriptions", Text(files[i].description))
  {
  }

  /** Each header name occurs exactly once among the header parts, and no
      attachment name occurs there. */
  lemma HeaderReadBack(subject: string, markdownBody: string, recipients: string)
    ensures var h := HeaderParts(subject, markdownBody, recipients);
      GetAll(h, "subject") == [Text(subject)] &&
      GetAll(h, "body") == [Text(markdownBody)] &&
      GetAll(h, "recipients") == [Text(recipients)] &&
      GetAll(h, "files") == [] && GetAll(h, "descriptions") == []
  {
    var s, b, r := Part("subject", Text(subject)), Part("body", Text(markdownBody)), Part("recipients", Text(recipients));
    // the five part names differ in length, hence from one another
    assert |"subject"| == 7 && |"body"| == 4 && |"recipients"| == 10;
    assert |"files"| == 5 && |"descriptions"| == 12;
    assert HeaderParts(subject, markdownBody, recipients) == [s] + ([b] + [r]);
    GetAllConcat([s], [b] + [r], "subject");
    GetAllConcat([s], [b] + [r], "body");
    GetAllConcat([s], [b] + [r], "recipients");
    GetAllConcat([s], [b] + [r], "files");
    GetAllConcat([s], [b] + [r], "descriptions");
    GetAllConcat([b], [r], "subject");
    GetAllConcat([b], [r], "body");
    GetAllConcat([b], [r], "recipients");
    GetAllConcat([b], [r], "files");
    GetAllConcat([b], [r], "descriptions");
  }

  /** What `FormData.getAll` returns on the request as built: exactly one
      subject, one body (the converted one) and one recipient string (not
      split, not trimmed), and as many files as descriptions, one per
      attachment, where the Nth file pairs with the Nth description. */
  lemma RequestReadBack(subject: string, body: string, recipients: string,
                                           files: seq<Attachment>, convert: string -> string)
    ensures GetAll(Request(subject, body, recipients, files, convert), "subject") == [Text(subject)]
    ensures GetAll(Request(subject, body, recipients, files, convert), "body") == [Text(convert(body))]
    ensures GetAll(Request(subject, body, recipients, files, convert), "recipients") == [Text(recipients)]
    ensures GetAll(Request(subject, body, recipients, files, convert), "files") ==
            GetAll(AttachmentParts(files), "files")
    ensures GetAll(Request(subject, body, recipients, files, convert), "descriptions") ==
            GetAll(AttachmentParts(files), "descriptions")
    ensures |GetAll(AttachmentParts(files), "files")| == |GetAll(AttachmentParts(files), "descriptions")| == |files|
    ensures forall i :: 0 <= i < |files| ==>
      GetAll(AttachmentParts(files), "files")[i] == FileValue(files[i].file) &&
      GetAll(AttachmentParts(files), "descriptions")[i] == Text(files[i].description)
  {
    var h := HeaderParts(subject, convert(body), recipients);
    var a := AttachmentParts(files);
    assert Request(subject, body, recipients, files, convert) == h + a;
    HeaderReadBack(subject, convert(body), recipients);
    AttachmentFilesReadBack(files);
    AttachmentDescriptionsReadBack(files);
    GetAllConcat(h, a, "subject");
    AttachmentPartsNoHeader(files, "subject");
    GetAllConcat(h, a, "body");
    AttachmentPartsNoHeader(files, "body");
    GetAllConcat(h, a, "recipients");
    AttachmentPartsNoHeader(files, "recipients");
    GetAllConcat(h, a, "files");
    GetAllConcat(h, a, "descriptions");
  }
}
