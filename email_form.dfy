/** The state of the email form component and its event handlers. Each
    piece of React state is a field; each handler is a method that updates
    the fields as the handler's `set...` calls do. Submission is split at
    its one `await`: `BeginSubmit` runs up to the request, `Settle` runs when
    the request settles, and `HandleSubmit` is the two back to back. */
module Form {
  import opened Attachments
  import Payload

  /** How the request settled, with the transport's error description on
      failure. */
  datatype Outcome = Success | Failure(reason: string)

  const SuccessMessage: string := "Emails sent successfully!"
  const ErrorPrefix: string := "Error: "

  class EmailForm {
    var subject: string
    var body: string           // the editor's HTML
    var recipients: string     // comma-separated, never parsed here
    var message: string        // the status line
    var files: seq<Attachment>
    var loading: bool          // shows the busy overlay

    /** Every field starts empty and nothing is in flight. */
    constructor ()
      ensures subject == "" && body == "" && recipients == "" && message == ""
      ensures files == [] && !loading
    {
      subject, body, recipients, message := "", "", "", "";
      files, loading := [], false;
    }

    /** The browser submits the form only when both `required` inputs,
        subject and recipients, are non-empty. */
    predicate CanSubmit()
      reads this
    {
      subject != "" && recipients != ""
    }

    /** The subject input's change handler. */
    method SetSubject(value: string)
      modifies this
      ensures subject == value
      ensures body == old(body) && recipients == old(recipients) && message == old(message)
      ensures files == old(files) && loading == old(loading)
    {
      subject := value;
    }

    /** The rich-text editor's change handler: the HTML is kept verbatim. */
    method SetBody(html: string)
      modifies this
      ensures body == html
      ensures subject == old(subject) && recipients == old(recipients) && message == old(message)
      ensures files == old(files) && loading == old(loading)
    {
      body := html;
    }

    /** The recipients input's change handler. */
    method SetRecipients(value: string)
      modifies this
      ensures recipients == value
      ensures subject == old(subject) && body == old(body) && message == old(message)
      ensures files == old(files) && loading == old(loading)
    {
      recipients := value;
    }

    /** The drop zone's handler: the accepted files join the end of the list. */
    method OnDrop(acceptedFiles: seq<Blob>)
      modifies this
      ensures files == Appended(old(files), acceptedFiles)
      ensures subject == old(subject) && body == old(body) && recipients == old(recipients)
      ensures message == old(message) && loading == old(loading)
    {
      files := Appended(files, acceptedFiles);
    }

    /** A description textarea's change handler: copy the list, overwrite
        the description of the entry at `index`, store the copy. An index
        outside the list is an error in the source (the entry is
        undefined), so callers must not pass one. */
    method HandleDescriptionChange(index: int, description: string)
      requires 0 <= index < |files|
      modifies this
      ensures files == DescriptionChanged(old(files), index, description)
      ensures subject == old(subject) && body == old(body) && recipients == old(recipients)
      ensures message == old(message) && loading == old(loading)
    {
      var newFiles := files;
      newFiles := newFiles[index := newFiles[index].(description := description)];
      files := newFiles;
    }

    /** A remove button's handler: keep the entries at every other index. */
    method HandleRemoveFile(index: int)
      modifies this
      ensures files == Removed(old(files), index)
      ensures subject == old(subject) && body == old(body) && recipients == old(recipients)
      ensures message == old(message) && loading == old(loading)
    {
      files := Removed(files, index);
    }

    /** Builds the request part by part, as the `FormData` appends do:
        subject, converted body, recipients, then each attachment's file and
        description in list order. */
    method BuildRequest(convert: string -> string) returns (formData: seq<Payload.Part>)
      ensures formData == Payload.Request(subject, body, recipients, files, convert)
    {
      var markdownBody := convert(body);
      formData := [];
      formData := formData + [Payload.Part("subject", Payload.Text(subject))];
      formData := formData + [Payload.Part("body", Payload.Text(markdownBody))];
      formData := formData + [Payload.Part("recipients", Payload.Text(recipients))];
      var index := 0;
      while index < |files|
        invariant 0 <= index <= |files|
        invariant formData == Payload.HeaderParts(subject, markdownBody, recipients)
                              + Payload.AttachmentParts(files[..index])
      {
        Payload.AttachmentPartsStep(Payload.HeaderParts(subject, markdownBody, recipients), files, index);
        formData := formData + [Payload.Part("files", Payload.FileValue(files[index].file))];
        formData := formData + [Payload.Part("descriptions", Payload.Text(files[index].description))];
        index := index + 1;
      }
      assert files[..index] == files;
    }

    /** The submit handler up to its `await`: raise the busy flag (there is
        no check for a submission already in flight) and build the request
        from the composition as it is now. Nothing else changes; in
        particular the status line keeps its last message. */
    method BeginSubmit(convert: string -> string) returns (formData: seq<Payload.Part>)
      requires CanSubmit()
      modifies this
      ensures loading
      ensures formData == Payload.Request(subject, body, recipients, files, convert)
      ensures subject == old(subject) && body == old(body) && recipients == old(recipients)
      ensures files == old(files) && message == old(message)
    {
      loading := true;
      formData := BuildRequest(convert);
    }

    /** The submit handler after its `await`. On success the status line
        reports it and the composition is cleared; on failure the status line
        carries the transport's reason and the composition is left as it is.
        Either way the busy flag drops. */
    method Settle(outcome: Outcome)
      modifies this
      ensures !loading
      ensures outcome.Success? ==>
        message == SuccessMessage && subject == "" && body == "" && recipients == "" && files == []
      ensures outcome.Failure? ==>
        message == ErrorPrefix + outcome.reason &&
        subject == old(subject) && body == old(body) && recipients == old(recipients) &&
        files == old(files)
    {
      match outcome {
        case Success =>
          message := SuccessMessage;
          subject := "";
          body := "";
          recipients := "";
          files := [];
        case Failure(reason) =>
          message := ErrorPrefix + reason;
      }
      loading := false;
    }

    /** A whole submission with no other event in between: the request is
        the composition at submit time, the busy flag is up while it is in
        flight, and the outcome is reduced into the state as `Settle` says. */
    method HandleSubmit(convert: string -> string, outcome: Outcome)
      returns (formData: seq<Payload.Part>, ghost loadingInFlight: bool)
      requires CanSubmit()
      modifies this
      ensures formData == Payload.Request(old(subject), old(body), old(recipients), old(files), convert)
      ensures loadingInFlight && !loading
      ensures outcome.Success? ==>
        message == SuccessMessage && subject == "" && body == "" && recipients == "" && files == []
      ensures outcome.Failure? ==>
        message == ErrorPrefix + outcome.reason &&
        subject == old(subject) && body == old(body) && recipients == old(recipients) &&
        files == old(files)
    {
      formData := BeginSubmit(convert);
      loadingInFlight := loading;
      Settle(outcome);
    }
  }

  /** After a failed submission the composition is untouched, so submitting
      again sends exactly the same request. */
  method RetryAfterFailure(form: EmailForm, convert: string -> string, reason: string, next: Outcome)
    returns (first: seq<Payload.Part>, second: seq<Payload.Part>)
    requires form.CanSubmit()
    modifies form
    ensures first == second
  {
    ghost var inFlight;
    first, inFlight := form.HandleSubmit(convert, Failure(reason));
    second, inFlight := form.HandleSubmit(convert, next);
  }
}
