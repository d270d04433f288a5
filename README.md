# Papercut message display, modelled in Dafny

Papercut is a desktop SMTP server for development: it receives mail and
shows it. This project models two pieces of it.

- **The MIME part classifier** (`MessageHelper`, in `message_helper.dfy`).
  It takes the leaf parts of a parsed message in document order. It picks
  the main body: the first non-attachment `text/html` part, else the first
  non-attachment text part, else none. It also selects the image parts and
  the attachment parts. Everything here is pure: functions over a sequence
  of parts, plus lemmas that state what each selection returns.
- **The message-detail view-model** (`MessageDetail`, in
  `message_detail.dfy`). This is a class with one field per backing field
  of the C# class.
  - `LoadMessageEntry` accepts "show this entry" or "show nothing".
  - `DisplayMimeMessage` fills the display fields from a delivered message.
  - `Complete` is the loader's delivery of a message to the subscription.

  The pure function `Render` says what a display update does to the display
  fields. The methods are proved against it. The lemmas state what `Render`
  shows: the body, the envelope, the alternate text body, the attachment
  count, and the fault when there is no main body.

The loader runs in the background. It is modelled by tokens. Each non-null
request issues a fresh token. Disposing the subscription forgets the token.
A delivery takes effect only for the token of the subscription that is still
alive. `LatestRequestWins` shows the consequence: a late delivery for an
earlier request is dropped.

`wrappers.dfy` holds `Option`, `Result` and the exceptions the code can
raise.

### Behaviour kept as the code has it

The code has a few surprising behaviours; the model keeps them as written:

- `HtmlFile` is cleared only when no message is shown. Displaying a message
  never assigns it (`DisplayedAttachmentCount` states that it is left alone).
- If the main body is HTML and there is no other text part, `TextBody` keeps
  the previous message's value (`DisplayedHtmlOnlyKeepsTextBody`).
- The alternate text part may be a part flagged as an attachment, because the
  lookup does not filter on the flag (`DisplayedAlternateBody`).
- A message with no non-attachment text part makes the code dereference a
  null main body. By then `Headers` has already been assigned. The model
  returns this as a `NullReferenceException` fault, after which `IsLoading`
  stays set and `SelectedTabIndex` is not reset (`DisplayFailsWithoutMainBody`,
  `Complete`).
- Showing nothing does not clear the subject, the addresses, the date or the
  headers (`ClearKeepsEnvelope`).
- The code has no handler for a failed load, so no load-failure transition is
  modelled.

## Model

| member | source | states |
|---|---|---|
| MessageHelper.IsContentHtml | Papercut.Core/Helper/MessageHelper.cs:35-38 | a text part is HTML exactly when its content type is `text/html` |
| MessageHelper.Where | Papercut.Core/Helper/MessageHelper.cs:63 | the LINQ filter never returns more elements than it was given |
| MessageHelper.WhereMembers | Papercut.Core/Helper/MessageHelper.cs:63 | an element is in the filtered sequence exactly when it is in the input and satisfies the predicate |
| MessageHelper.WhereCount | Papercut.Core/Helper/MessageHelper.cs:63 | the filtered sequence has one element per input position that satisfies the predicate |
| MessageHelper.WhereAppend | Papercut.Core/Helper/MessageHelper.cs:63 | filtering keeps document order: filtering `a + b` is filtering `a`, then filtering `b` |
| MessageHelper.FirstOrDefault | Papercut.Core/Helper/MessageHelper.cs:84 | a found element is in the sequence and satisfies the predicate |
| MessageHelper.FirstOrDefaultNone | Papercut.Core/Helper/MessageHelper.cs:84 | the search finds nothing exactly when no element satisfies the predicate |
| MessageHelper.FirstOrDefaultFirst | Papercut.Core/Helper/MessageHelper.cs:84 | the search returns the element at the lowest position that satisfies the predicate |
| MessageHelper.FirstOrDefaultPrefix | Papercut.Core/Helper/MessageHelper.cs:84 | a hit in a prefix is the hit of the whole sequence |
| MessageHelper.FirstOrDefaultAfter | Papercut.Core/Helper/MessageHelper.cs:84 | the search skips a prefix in which nothing satisfies the predicate |
| MessageHelper.FirstOfWhere | Papercut.Core/Helper/MessageHelper.cs:77-89 | searching the filtered sequence returns the first input element that passes both the filter and the search predicate |
| MessageHelper.FirstOfWhereNone | Papercut.Core/Helper/MessageHelper.cs:77-89 | searching the filtered sequence finds nothing exactly when no input element passes both predicates |
| MessageHelper.GetMainBodyTextPart | Papercut.Core/Helper/MessageHelper.cs:74-90 | the main body, when there is one, is a non-attachment text part of the message |
| MessageHelper.MainBodyNone | Papercut.Core/Helper/MessageHelper.cs:77-89 | there is no main body exactly when no part is a non-attachment text part |
| MessageHelper.MainBodyIsHtml | Papercut.Core/Helper/MessageHelper.cs:84-86 | the main body is HTML exactly when some non-attachment text part is HTML |
| MessageHelper.MainBodyPrefersFirstHtml | Papercut.Core/Helper/MessageHelper.cs:83-86 | the first non-attachment HTML text part is the main body, wherever it stands |
| MessageHelper.MainBodyFallsBackToFirstText | Papercut.Core/Helper/MessageHelper.cs:88-89 | with no HTML candidate, the first non-attachment text part is the main body |
| MessageHelper.HtmlWinsRegardlessOfPosition | Papercut.Core/Helper/MessageHelper.cs:83-86 | any parts before the first HTML candidate, plain text included, do not change the choice |
| MessageHelper.GetImages | Papercut.Core/Helper/MessageHelper.cs:58-64 | null input fails with `ArgumentNullException("prefilteredMimeParts")`; otherwise it succeeds with at most as many parts as were given |
| MessageHelper.GetAttachments | Papercut.Core/Helper/MessageHelper.cs:66-72 | null input fails with `ArgumentNullException("prefilteredMimeParts")`; otherwise it succeeds with at most as many parts as were given |
| MessageHelper.ImagesExactly | Papercut.Core/Helper/MessageHelper.cs:63 | the images are exactly the parts of media type `image`, one per such position, whatever their subtype or flag |
| MessageHelper.AttachmentsExactly | Papercut.Core/Helper/MessageHelper.cs:71 | the attachments are exactly the flagged parts, one per flagged position, whatever their media type |
| MessageHelper.ImagesInDocumentOrder | Papercut.Core/Helper/MessageHelper.cs:63 | images keep document order |
| MessageHelper.AttachmentsInDocumentOrder | Papercut.Core/Helper/MessageHelper.cs:71 | attachments keep document order |
| MessageHelper.ImageMayAlsoBeAttachment | Papercut.Core/Helper/MessageHelper.cs:58-72 | a flagged image is returned by both selections, so the two do not partition the parts |
| MessageDetail.Join | src/ViewModels/MessageDetailViewModel.cs:310 | joining no headers gives the empty string; otherwise the length is the headers' total length plus one separator between each pair of neighbours |
| MessageDetail.JoinAppend | src/ViewModels/MessageDetailViewModel.cs:310 | joining one more header appends a separator and that header |
| MessageDetail.FirstOtherTextPart | src/ViewModels/MessageDetailViewModel.cs:333-334 | the alternate part, when found, is a text part of the message and not the main body itself |
| MessageDetail.OtherTextPartNone | src/ViewModels/MessageDetailViewModel.cs:333-334 | there is no alternate part exactly when every text part is the main body itself |
| MessageDetail.OtherTextPartFirst | src/ViewModels/MessageDetailViewModel.cs:333-334 | the alternate part is the text part at the lowest position that is not the main body, attachment or not |
| MessageDetail.ClearKeepsEnvelope | src/ViewModels/MessageDetailViewModel.cs:340-349 | showing nothing clears the attachment count, HTML flag, HTML file, text body and body, resets the tab, keeps the envelope and headers, and does not fail |
| MessageDetail.DisplayFailsWithoutMainBody | src/ViewModels/MessageDetailViewModel.cs:310-314 | displaying a message fails exactly when no part is a non-attachment text part; by then only `Headers` has changed, to the joined headers |
| MessageDetail.DisplayedEnvelope | src/ViewModels/MessageDetailViewModel.cs:310-322 | a displayed message shows the headers joined with CR LF, and each envelope field with a missing value as the empty string |
| MessageDetail.DisplayedHtmlBody | src/ViewModels/MessageDetailViewModel.cs:312-323 | with a non-attachment HTML part, the body is the first such part's text and is shown as HTML |
| MessageDetail.DisplayedPlainBody | src/ViewModels/MessageDetailViewModel.cs:312-338 | with no HTML candidate, the body is the first non-attachment text part's text, not shown as HTML, and the text body is cleared |
| MessageDetail.DisplayedAlternateBody | src/ViewModels/MessageDetailViewModel.cs:331-335 | with an HTML body, the text body is the text of the first other text part, attachment or not |
| MessageDetail.DisplayedHtmlOnlyKeepsTextBody | src/ViewModels/MessageDetailViewModel.cs:331-335 | with an HTML body and no other text part, the text body keeps its previous value |
| MessageDetail.DisplayedAttachmentCount | src/ViewModels/MessageDetailViewModel.cs:327-349 | the attachment count is the number of flagged parts, so it is positive exactly when some part is flagged; the tab resets and the HTML file is untouched |
| MessageDetail.MessageDetailViewModel.constructor | src/ViewModels/MessageDetailViewModel.cs:44-72 | a fresh view-model has every display field at its default, is not loading and has no live subscription |
| MessageDetail.MessageDetailViewModel.HasAttachmentsAfterDisplay | src/ViewModels/MessageDetailViewModel.cs:254-260 | once a message is displayed, `HasAttachments` holds exactly when one of its parts is flagged as an attachment |
| MessageDetail.MessageDetailViewModel.ShowEnvelope | src/ViewModels/MessageDetailViewModel.cs:316-322 | the six envelope fields take the message's values, a missing value becoming the empty string; nothing else changes |
| MessageDetail.MessageDetailViewModel.ShowContent | src/ViewModels/MessageDetailViewModel.cs:322-338 | the HTML flag, the attachment count and the text body take the values `Render` gives them; nothing else changes |
| MessageDetail.MessageDetailViewModel.ShowMainBody | src/ViewModels/MessageDetailViewModel.cs:314-349 | once the main body is found, the display becomes what `Render` shows; `Headers` and `HtmlFile` do not change |
| MessageDetail.MessageDetailViewModel.DisplayMimeMessage | src/ViewModels/MessageDetailViewModel.cs:306-350 | the new display fields and the fault are those of `Render` on the old display; no field outside the display changes |
| MessageDetail.MessageDetailViewModel.LoadMessageEntry | src/ViewModels/MessageDetailViewModel.cs:279-304 | the previous subscription is disposed; a null entry shows nothing and clears `IsLoading`; an entry sets `IsLoading`, issues a fresh token and leaves the display alone; validity is kept |
| MessageDetail.MessageDetailViewModel.Complete | src/ViewModels/MessageDetailViewModel.cs:292-301 | a delivery applies exactly for the live token; a stale one changes nothing; an applied one displays the message as `Render` does and clears `IsLoading` unless displaying failed; validity is kept; after a successful display, `HasAttachments` holds exactly when some part of the message is flagged |
| MessageDetail.LatestRequestWins | src/ViewModels/MessageDetailViewModel.cs:279-304 | from any valid state, when B is requested before A's load completes, A's late delivery is dropped and the view-model ends up showing B rendered over its earlier display, not loading |

## Left out

- `GetExtension` is not modelled. It reads the Windows registry, which is outside the core.
- MIME parsing is not modelled. Parts arrive already parsed, and each part's attachment flag is taken from the parser as given.
- `Matches` compares media types exactly. MimeKit's case-insensitive comparison is not modelled.
- The formatting of addresses, dates and headers (`ToString`) is not modelled. The loader is taken to deliver them as text.
- `MessageViewModel.ShowMessage` and `PartsListViewModel.MimeMessage` belong to other view-models, which are not part of this model.
- Property-change notifications (`NotifyOfPropertyChange`) are not modelled. They have no effect on the fields.
- The loader is external and is not modelled. So are its background thread and its dispatch to the UI thread. A request returns a token, and a caller delivers the message for it through `Complete`.
- The contents of a `MessageEntry` are not modelled. The view-model only passes the entry on to the loader.
- `Complete` never disposes the live subscription, as in the code. A second delivery with the same token would apply again. Each load delivers once, but that is the loader's behaviour and is not modelled.
- `GetMainBodyTextPart`: a null input (an exception inside LINQ) is not modelled. Its only caller passes a list it has just built.
- `FirstOtherTextPart`: `Except` also removes duplicates. This is not modelled because it cannot change the first element.
- `Part` identity is an `id` number. A statement about positions assumes `DistinctIds`, meaning no part object occurs twice.
