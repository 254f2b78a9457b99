# EmailForm composition state, in Dafny

This project models the state of `EmailForm`, the one React component of a
small email-sender front end. In the form, a user writes a subject, a
rich-text body and a comma-separated recipient string. They drop files,
give each file a description, and submit everything as one multipart
request. The model covers four parts:

- `attachments.dfy` (module `Attachments`): the attachment list, an ordered
  sequence of `(file, description)` pairs. It has the three edits the form
  makes: append on drop, overwrite one description, filter out one index.
- `payload.dfy` (module `Payload`): the multipart request as the ordered
  list of named parts that `FormData.append` builds. `GetAll` is what
  `FormData.getAll(name)` returns on the request as built: the values
  stored under one name, in order.
- `preview.dfy` (module `Preview`): the preview pane, a pure projection of
  the state.
- `email_form.dfy` (module `Form`): class `EmailForm`. Its fields are the
  component's six `useState` cells. Its methods are the event handlers.
  Submission is split at its one `await`. `BeginSubmit` raises `loading` and
  builds the request in a loop. `Settle` reduces the transport outcome into
  the state. `HandleSubmit` runs the two back to back.

The HTML-to-Markdown converter (Turndown) is a parameter
`convert: string -> string`. Being a Dafny function, it is total and
deterministic. The HTTP call is replaced by an `Outcome` argument:
`Success | Failure(reason)`.

Behaviour kept as the code has it:

- `handleSubmit` has no guard against a second submission. `BeginSubmit`
  raises `loading` whatever its old value was.
- Submitting does not clear the status line. It keeps its last message
  until the request settles.
- `handleDescriptionChange` with an index outside the list throws (line 26
  writes to a property of `undefined`). It is modelled as a `requires`.
- `handleRemoveFile` with an index outside the list is a no-op, because
  line 31 filters by position.
- The `required` inputs (lines 79 and 93) are checked by the browser before
  `handleSubmit` runs. They are modelled by the predicate
  `EmailForm.CanSubmit()` (subject and recipients non-empty), which is a
  `requires` of `BeginSubmit` and `HandleSubmit`.

## Model

| member | source | states |
|---|---|---|
| `Attachments.Wrap` | src/components/EmailForm.js:20 | each dropped file becomes one entry with that file and an empty description, in drop order |
| `Attachments.Appended` | src/components/EmailForm.js:20 | after a drop the length grows by the number dropped; every old entry stays unchanged at its position; the Nth dropped file sits at old length + N with an empty description |
| `Attachments.DescriptionChanged` | src/components/EmailForm.js:24-28 | for an in-range index, the length and every file are kept; the entry at the index gets the new description; every other entry is unchanged |
| `Attachments.Removed` | src/components/EmailForm.js:30-33 | for an in-range index, the list is one shorter; entries before the index are unchanged and later entries shift down by one; an out-of-range index (negative included) leaves the list unchanged |
| `Attachments.BlobsAppended` | src/components/EmailForm.js:20 | the file order after a drop is the old file order followed by the dropped files |
| `Attachments.BlobsDescriptionChanged` | src/components/EmailForm.js:24-28 | a description edit leaves the file order exactly as it was |
| `Attachments.RemovedProjections` | src/components/EmailForm.js:30-33 | a removal cuts exactly that position out of the file order and out of the description order |
| `Payload.HeaderParts` | src/components/EmailForm.js:43-45 | the request opens with the subject, the converted body and the recipient string, in that order, under the names `subject`, `body`, `recipients` |
| `Payload.PartsOf` | src/components/EmailForm.js:47-48 | one attachment contributes its file under `files`, then its description under `descriptions` |
| `Payload.Request` | src/components/EmailForm.js:40-49 | the request has 3 + 2·(number of attachments) parts, and every part is named `subject`, `body`, `recipients`, `files` or `descriptions` |
| `Payload.GetAll` | src/components/EmailForm.js:42-49 | the values stored under one name, in the order they were appended, as `FormData.getAll` returns them |
| `Payload.AttachmentPartsStep` | src/components/EmailForm.js:46-49 | one iteration of the `forEach`, appending a file part and a description part, extends the parts of the first N attachments to those of the first N+1 |
| `Payload.AttachmentParts` | src/components/EmailForm.js:46-49 | twice as many parts as attachments; for the Nth attachment, part 2N is its `files` part and part 2N+1 its `descriptions` part |
| `Payload.AttachmentPartsSnoc` | src/components/EmailForm.js:46-49 | one more loop step appends exactly that attachment's `files` part and then its `descriptions` part |
| `Payload.AttachmentPartsNoHeader` | src/components/EmailForm.js:46-49 | the attachment parts use no name other than `files` and `descriptions` |
| `Payload.PartsOfReadBack` | src/components/EmailForm.js:47-48 | one loop step stores the attachment's file under `files`, its description under `descriptions`, and nothing under any other name |
| `Payload.AttachmentFilesReadBack` | src/components/EmailForm.js:46-49 | reading back the `files` values gives one value per attachment: the attachments' files, in list order |
| `Payload.AttachmentDescriptionsReadBack` | src/components/EmailForm.js:46-49 | reading back the `descriptions` values gives one value per attachment: the attachments' descriptions, in list order |
| `Payload.HeaderReadBack` | src/components/EmailForm.js:43-45 | the header holds exactly one `subject`, one `body` and one `recipients` part with the given values, and no attachment part |
| `Payload.RequestLayout` | src/components/EmailForm.js:40-49 | the request has 3 + 2·(number of attachments) parts: `subject` = subject, `body` = convert(body), `recipients` = the recipient string verbatim; then the Nth file at part 3+2N and its description at part 4+2N |
| `Payload.RequestReadBack` | src/components/EmailForm.js:40-49 | on the request as built, `FormData.getAll` gives one subject, one converted body and one unsplit recipient string; it gives as many files as descriptions, one per attachment, and the Nth file pairs with the Nth description |
| `Preview.IsImageType` | src/components/EmailForm.js:129 | an inline image is shown exactly when the MIME type starts with `image/` |
| `Preview.Render` | src/components/EmailForm.js:121-136 | the pane is the subject, convert(body), one entry per attachment (its file's name, its description, the image mark iff its type starts with `image/`) and the recipient string |
| `Preview.Entries` | src/components/EmailForm.js:125-133 | one preview entry per attachment, in list order, showing that file's name and description; marked image exactly when its MIME type starts with `image/` |
| `Preview.PreviewMatchesRequest` | src/components/EmailForm.js:121-136 | the pane's subject, body and recipients are the values the request carries, and the body is the same convert(body); the Nth preview entry names the Nth file sent and shows the Nth description sent |
| `Preview.EntriesDescriptionChanged` | src/components/EmailForm.js:125-133 | after a description edit the preview changes only that entry's description |
| `Preview.EntriesRemoved` | src/components/EmailForm.js:125-133 | after a removal the preview loses exactly that entry and the later entries move up |
| `Preview.EntriesAppended` | src/components/EmailForm.js:125-133 | after a drop the old preview entries stay first; each dropped file adds an entry with its name, an empty description, and the image mark iff its type starts with `image/` |
| `Form.EmailForm.constructor` | src/components/EmailForm.js:11-16 | the form starts with every text field empty, no attachments and `loading` false |
| `Form.EmailForm.CanSubmit` | src/components/EmailForm.js:79 | the browser lets the form submit only when the `required` subject input and the `required` recipients input (line 93) are both non-empty |
| `Form.EmailForm.SetSubject` | src/components/EmailForm.js:77 | the subject becomes the input's value; nothing else changes |
| `Form.EmailForm.SetBody` | src/components/EmailForm.js:84 | the body becomes the editor's HTML verbatim; nothing else changes |
| `Form.EmailForm.SetRecipients` | src/components/EmailForm.js:91 | the recipient string becomes the input's value; nothing else changes |
| `Form.EmailForm.OnDrop` | src/components/EmailForm.js:19-21 | the attachment list becomes the old list with the accepted files appended; nothing else changes |
| `Form.EmailForm.HandleDescriptionChange` | src/components/EmailForm.js:24-28 | for an in-range index, the list becomes the old one with that description replaced; nothing else changes |
| `Form.EmailForm.HandleRemoveFile` | src/components/EmailForm.js:30-33 | for any index, the list becomes the old one filtered by position; nothing else changes |
| `Form.EmailForm.BuildRequest` | src/components/EmailForm.js:40-49 | the parts appended one by one in the `forEach` loop equal `Payload.Request` of the current state |
| `Form.EmailForm.BeginSubmit` | src/components/EmailForm.js:35-49 | `loading` becomes true whatever it was; the request is the composition as it stands; the composition and the status line are unchanged |
| `Form.EmailForm.Settle` | src/components/EmailForm.js:51-66 | `loading` ends false; on success the status is "Emails sent successfully!" and subject, body, recipients and files are emptied; on failure with reason r the status is "Error: " + r and the composition is unchanged |
| `Form.EmailForm.HandleSubmit` | src/components/EmailForm.js:35-67 | an uninterrupted submission sends the composition at submit time, has `loading` true while in flight and false afterwards, and ends as `Settle` says |
| `Form.RetryAfterFailure` | src/components/EmailForm.js:62-63 | after a failed submission, submitting again sends exactly the same request |

## Left out

- The HTTP call (lines 52-56) is network I/O. It is replaced by the `Outcome` argument of `Settle` and `HandleSubmit`. The endpoint, method and headers are not modelled.
- The wire encoding of the request is not modelled. `GetAll` and the lemmas about it describe the `FormData` as built at lines 42-49, not the bytes axios sends at line 52. The multipart/form-data encoding turns every bare line break in a text value into CRLF and fixes a charset, so the converted body, or a description typed over several lines, can reach the server with different line breaks. The subject and recipients come from single-line inputs.
- Turndown (lines 8, 40, 123) is a foreign library. It is the parameter `convert`, about which nothing is assumed except that it is a function.
- The ReactQuill editor and the react-dropzone widget (lines 18-22, 82-87, 96-99) are reduced to "set the body to a string" (`SetBody`) and "append a sequence of files" (`OnDrop`).
- `URL.createObjectURL` (line 130) is a browser resource call. A preview entry records only whether an image is shown (`isImage`), not the object URL. The source never revokes these URLs, and the model adds no ownership rule for them.
- `Preview.Entries`: does not model the object URL created for each image entry on every render, because it is a browser handle outside the model's state.
- Interleaving of events is captured only at the `await`: `BeginSubmit` and `Settle` are separate steps, and each handler is otherwise one atomic step on the current state. React's batching of `set...` calls, re-render timing, and the stale `files` closure of `onDrop` (line 20) are not modelled.
- `HandleDescriptionChange`: the copy at line 25 is shallow, so line 26 also changes the entry object still referenced by the previous state's array. The model works on values and does not capture that aliasing. Nothing else in the component reads the previous array.
- The `required` validation (lines 79, 93) is done by the browser, not by the component. It appears only as the precondition `CanSubmit()`. Whitespace-only values pass it, as in a browser.
- The editable attachment list (lines 100-113) and all other JSX layout and styling (lines 69-148) are not modelled. The list is what passes in-range indices to the two per-entry handlers.
