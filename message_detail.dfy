/**
 * Papercut's message-detail view-model: the object behind the message pane.
 * It accepts "show this message" / "show nothing" requests, runs the load
 * asynchronously, and on completion fills its display fields from the
 * message with the help of the part classifier.
 *
 * The subscription to a pending load is modelled by a generation counter:
 * every non-null request issues a fresh token, disposing a subscription
 * forgets its token, and a completion is delivered only for the token of the
 * subscription that is still alive.
 */
module MessageDetail {
  import opened Wrappers
  import opened MessageHelper

  /** The mailbox entry a request names; the view-model never looks inside it. */
  datatype MessageEntry = MessageEntry(name: string)

  /**
   * The parsed message as the loader delivers it. Addresses, the date and
   * the headers appear as their already formatted text; a missing value is
   * `None`.
   */
  datatype MimeMessage = MimeMessage(
    headers: seq<string>,
    bodyParts: seq<Part>,
    from: Option<string>,
    to: Option<string>,
    cc: Option<string>,
    bcc: Option<string>,
    date: Option<string>,
    subject: Option<string>)

  /** The view-model's display fields, taken together; `None` is a null string. */
  datatype Display = Display(
    subject: Option<string>,
    from: Option<string>,
    to: Option<string>,
    cc: Option<string>,
    bcc: Option<string>,
    date: Option<string>,
    headers: Option<string>,
    body: Option<string>,
    textBody: Option<string>,
    htmlFile: Option<string>,
    isHtml: bool,
    attachmentCount: int,
    selectedTabIndex: int)

  /** The display fields of a freshly constructed view-model: every field at its default. */
  const InitialDisplay := Display(None, None, None, None, None, None, None, None, None, None, false, 0, 0)

  /** The display after an update, and the exception that cut the update short, if any. */
  datatype Rendering = Rendering(display: Display, fault: Option<Exception>)

  /** The separator the headers are joined with. */
  const HeaderSeparator := "\r\n"

  /** The total length of a list of strings. */
  function TotalLength(xs: seq<string>): nat {
    if xs == [] then 0 else |xs[0]| + TotalLength(xs[1..])
  }

  /** `string.Join(sep, xs)`: the items with one separator between neighbours. */
  function Join(sep: string, xs: seq<string>): (r: string)
    ensures xs == [] ==> r == ""
    ensures xs != [] ==> |r| == TotalLength(xs) + (|xs| - 1) * |sep|
  {
    if xs == [] then ""
    else if |xs| == 1 then xs[0]
    else xs[0] + sep + Join(sep, xs[1..])
  }

  /** Joining one more item appends a separator and the item. */
  lemma {:induction false} JoinAppend(sep: string, xs: seq<string>, x: string)
    requires xs != []
    ensures Join(sep, xs + [x]) == Join(sep, xs) + sep + x
  {
    if |xs| > 1 {
      assert (xs + [x])[1..] == xs[1..] + [x];
      JoinAppend(sep, xs[1..], x);
    } else {
      assert (xs + [x])[1..] == [x];
    }
  }

  /** Whether a part is some object other than `mainBody`. */
  function IsNot(mainBody: Part): Part -> bool {
    (p: Part) => p.id != mainBody.id
  }

  /**
   * `parts.OfType<TextPart>().Except(new[] { mainBody }).FirstOrDefault()`:
   * the first text part that is not the main body itself, attachment or not.
   * (`Except` also drops repeats, which cannot change the first element.)
   */
  function FirstOtherTextPart(parts: seq<Part>, mainBody: Part): (r: Option<Part>)
    ensures r.Some? ==> r.value in parts && r.value.TextPart? && r.value.id != mainBody.id
  {
    WhereMembers(parts, IsTextPart);
    FirstOrDefault(Where(parts, IsTextPart), IsNot(mainBody))
  }

  /** There is no other text part exactly when every text part is the main body itself. */
  lemma OtherTextPartNone(parts: seq<Part>, mainBody: Part)
    ensures FirstOtherTextPart(parts, mainBody).None? <==> forall p :: p in parts && p.TextPart? ==> p.id == mainBody.id
  {
    FirstOfWhereNone(parts, IsTextPart, IsNot(mainBody));
  }

  /** The other text part is the one at the lowest position that is not the main body. */
  lemma OtherTextPartFirst(parts: seq<Part>, mainBody: Part, k: nat)
    requires k < |parts| && parts[k].TextPart? && parts[k].id != mainBody.id
    requires forall j :: 0 <= j < k ==> !parts[j].TextPart? || parts[j].id == mainBody.id
    ensures FirstOtherTextPart(parts, mainBody) == Some(parts[k])
  {
    FirstOfWhere(parts, IsTextPart, IsNot(mainBody), k);
  }

  /** A text part, attachment or not (LINQ's `OfType<TextPart>()`). */
  predicate IsTextPart(p: Part) {
    p.TextPart?
  }

  /**
   * What `DisplayMimeMessage` does to the display fields. With no message
   * the body-related fields are cleared. With a message the envelope and
   * body fields are filled in; when the message has no main body the
   * dereference of the missing part throws after `Headers` was assigned.
   */
  function Render(d: Display, m: Option<MimeMessage>): Rendering {
    match m
    case None =>
      Rendering(d.(attachmentCount := 0, isHtml := false, htmlFile := None, textBody := None, body := None,
                   selectedTabIndex := 0),
                None)
    case Some(msg) =>
      var withHeaders := d.(headers := Some(Join(HeaderSeparator, msg.headers)));
      match GetMainBodyTextPart(msg.bodyParts)
      case None => Rendering(withHeaders, Some(NullReferenceException))
      case Some(main) => Rendering(MainBodyShown(withHeaders, msg, main), None)
  }

  /** The display fields `DisplayMimeMessage` assigns once the main body `main` is found. */
  function MainBodyShown(d: Display, msg: MimeMessage, main: Part): Display
    requires main.TextPart?
  {
    var html := IsContentHtml(main);
    d.(body := Some(main.text),
       from := Some(msg.from.GetOr("")),
       to := Some(msg.to.GetOr("")),
       cc := Some(msg.cc.GetOr("")),
       bcc := Some(msg.bcc.GetOr("")),
       date := Some(msg.date.GetOr("")),
       subject := Some(msg.subject.GetOr("")),
       isHtml := html,
       attachmentCount := |GetAttachments(Some(msg.bodyParts)).value|,
       textBody := if html then AlternateText(msg.bodyParts, main, d.textBody) else None,
       selectedTabIndex := 0)
  }

  /**
   * The text body shown beside an HTML main body: the text of the first other
   * text part, or `previous` when there is none.
   */
  function AlternateText(parts: seq<Part>, main: Part, previous: Option<string>): Option<string> {
    match FirstOtherTextPart(parts, main)
    case Some(alternate) => Some(alternate.text)
    case None => previous
  }

  // ---------------------------------------------------------------------------
  // What a rendering promises.

  /** Showing nothing clears the body fields and keeps the envelope fields. */
  lemma ClearKeepsEnvelope(d: Display)
    ensures Render(d, None).fault.None?
    ensures var r := Render(d, None).display;
            r.attachmentCount == 0 && !r.isHtml && r.htmlFile.None? && r.textBody.None?
            && r.body.None? && r.selectedTabIndex == 0
    ensures var r := Render(d, None).display;
            r.subject == d.subject && r.from == d.from && r.to == d.to && r.cc == d.cc
            && r.bcc == d.bcc && r.date == d.date && r.headers == d.headers
  {
  }

  /**
   * Displaying a message throws exactly when it has no non-attachment text
   * part; by then only `Headers` has been assigned.
   */
  lemma DisplayFailsWithoutMainBody(d: Display, msg: MimeMessage)
    ensures Render(d, Some(msg)).fault.Some?
            <==> forall i :: 0 <= i < |msg.bodyParts| ==> !IsBodyCandidate(msg.bodyParts[i])
    ensures Render(d, Some(msg)).fault.Some? ==>
              Render(d, Some(msg)).display == d.(headers := Some(Join(HeaderSeparator, msg.headers)))
  {
    var parts := msg.bodyParts;
    MainBodyNone(parts);
    if GetMainBodyTextPart(parts).Some? {
      var p := GetMainBodyTextPart(parts).value;
      var i :| 0 <= i < |parts| && parts[i] == p;
    }
  }

  /**
   * A displayed message fills the envelope fields, a missing value becoming
   * the empty string, and joins the headers with CR LF.
   */
  lemma DisplayedEnvelope(d: Display, msg: MimeMessage)
    requires Render(d, Some(msg)).fault.None?
    ensures var r := Render(d, Some(msg)).display;
            r.headers == Some(Join("\r\n", msg.headers))
            && r.from == Some(if msg.from.Some? then msg.from.value else "")
            && r.to == Some(if msg.to.Some? then msg.to.value else "")
            && r.cc == Some(if msg.cc.Some? then msg.cc.value else "")
            && r.bcc == Some(if msg.bcc.Some? then msg.bcc.value else "")
            && r.date == Some(if msg.date.Some? then msg.date.value else "")
            && r.subject == Some(if msg.subject.Some? then msg.subject.value else "")
  {
  }

  /**
   * When the message has a non-attachment HTML text part, the body is the
   * first such part and is shown as HTML, whatever plain-text parts precede it.
   */
  lemma DisplayedHtmlBody(d: Display, msg: MimeMessage, i: nat)
    requires i < |msg.bodyParts| && IsHtmlBody(msg.bodyParts[i])
    requires forall j :: 0 <= j < i ==> !IsHtmlBody(msg.bodyParts[j])
    ensures var r := Render(d, Some(msg));
            r.fault.None? && r.display.body == Some(msg.bodyParts[i].text) && r.display.isHtml
  {
    MainBodyPrefersFirstHtml(msg.bodyParts, i);
  }

  /**
   * Without an HTML candidate the body is the first non-attachment text part,
   * it is not shown as HTML, and the text body is cleared.
   */
  lemma DisplayedPlainBody(d: Display, msg: MimeMessage, i: nat)
    requires forall j :: 0 <= j < |msg.bodyParts| ==> !IsHtmlBody(msg.bodyParts[j])
    requires i < |msg.bodyParts| && IsBodyCandidate(msg.bodyParts[i])
    requires forall j :: 0 <= j < i ==> !IsBodyCandidate(msg.bodyParts[j])
    ensures var r := Render(d, Some(msg));
            r.fault.None? && r.display.body == Some(msg.bodyParts[i].text)
            && !r.display.isHtml && r.display.textBody.None?
  {
    MainBodyFallsBackToFirstText(msg.bodyParts, i);
  }

  /**
   * With an HTML body at position `mi`, the text body is the text of the first
   * text part at any other position, attachment or not.
   */
  lemma DisplayedAlternateBody(d: Display, msg: MimeMessage, mi: nat, k: nat)
    requires DistinctIds(msg.bodyParts)
    requires mi < |msg.bodyParts| && IsHtmlBody(msg.bodyParts[mi])
    requires forall j :: 0 <= j < mi ==> !IsHtmlBody(msg.bodyParts[j])
    requires k < |msg.bodyParts| && k != mi && msg.bodyParts[k].TextPart?
    requires forall j :: 0 <= j < k && j != mi ==> !msg.bodyParts[j].TextPart?
    ensures Render(d, Some(msg)).display.textBody == Some(msg.bodyParts[k].text)
  {
    var parts := msg.bodyParts;
    MainBodyPrefersFirstHtml(parts, mi);
    var main := parts[mi];
    forall j | 0 <= j < k ensures !parts[j].TextPart? || parts[j].id == main.id {
      if j == mi {
        assert parts[j] == main;
      }
    }
    assert parts[k].id != main.id by {
      if k < mi {
        assert parts[k].id != parts[mi].id;
      } else {
        assert parts[mi].id != parts[k].id;
      }
    }
    OtherTextPartFirst(parts, main, k);
  }

  /**
   * With an HTML body and no other text part, the text body keeps whatever
   * the previous message left in it.
   */
  lemma DisplayedHtmlOnlyKeepsTextBody(d: Display, msg: MimeMessage, mi: nat)
    requires mi < |msg.bodyParts| && IsHtmlBody(msg.bodyParts[mi])
    requires forall j :: 0 <= j < |msg.bodyParts| && j != mi ==> !msg.bodyParts[j].TextPart?
    ensures Render(d, Some(msg)).display.textBody == d.textBody
  {
  }

  /**
   * A displayed message counts its flagged parts, so it has attachments
   * exactly when one of its parts is flagged; the tab resets and the HTML
   * file name is left alone.
   */
  lemma DisplayedAttachmentCount(d: Display, msg: MimeMessage)
    requires Render(d, Some(msg)).fault.None?
    ensures var r := Render(d, Some(msg)).display;
            r.attachmentCount == |set i | 0 <= i < |msg.bodyParts| && msg.bodyParts[i].isAttachment|
            && (r.attachmentCount > 0 <==> exists i :: 0 <= i < |msg.bodyParts| && msg.bodyParts[i].isAttachment)
            && r.selectedTabIndex == 0 && r.htmlFile == d.htmlFile
  {
    var parts := msg.bodyParts;
    AttachmentsExactly(parts);
    var attachments := GetAttachments(Some(parts)).value;
    if |attachments| > 0 {
      assert attachments[0] in parts;
      var i :| 0 <= i < |parts| && parts[i] == attachments[0];
    }
    if i :| 0 <= i < |parts| && parts[i].isAttachment {
      assert parts[i] in attachments;
    }
  }

  // ---------------------------------------------------------------------------
  // The view-model.

  class MessageDetailViewModel {
    var attachmentCount: int
    var bcc: Option<string>
    var body: Option<string>
    var cc: Option<string>
    var date: Option<string>
    var from: Option<string>
    var headers: Option<string>
    var htmlFile: Option<string>
    var isHtml: bool
    var isLoading: bool
    var selectedTabIndex: int
    var subject: Option<string>
    var textBody: Option<string>
    var to: Option<string>

    /** The number of tokens issued so far. */
    var generation: nat
    /** The token of the load subscription not yet disposed, if any. */
    var loading: Option<nat>

    /**
     * Only the newest token can be alive, and the view-model can be loading
     * only while a subscription is alive.
     */
    ghost predicate Valid()
      reads this
    {
      0 <= attachmentCount
      && (loading.Some? ==> loading.value == generation)
      && (isLoading ==> loading.Some?)
    }

    /** The display fields as one value. */
    function Snapshot(): Display
      reads this
    {
      Display(subject, from, to, cc, bcc, date, headers, body, textBody, htmlFile, isHtml, attachmentCount,
              selectedTabIndex)
    }

    /** `HasAttachments`: whether the attachment count is positive. */
    function HasAttachments(): bool
      reads this
    {
      attachmentCount > 0
    }

    /**
     * Once a message is displayed, the view-model has attachments exactly
     * when one of the message's parts is flagged as an attachment.
     */
    lemma HasAttachmentsAfterDisplay(d: Display, msg: MimeMessage)
      requires Render(d, Some(msg)).fault.None? && Snapshot() == Render(d, Some(msg)).display
      ensures HasAttachments() <==> exists i :: 0 <= i < |msg.bodyParts| && msg.bodyParts[i].isAttachment
    {
      DisplayedAttachmentCount(d, msg);
    }

    constructor ()
      ensures Valid()
      ensures Snapshot() == InitialDisplay && !isLoading
      ensures generation == 0 && loading.None?
    {
      attachmentCount := 0;
      bcc, body, cc, date, from, headers, htmlFile := None, None, None, None, None, None, None;
      subject, textBody, to := None, None, None;
      isHtml, isLoading := false, false;
      selectedTabIndex := 0;
      generation, loading := 0, None;
    }

    /**
     * `DisplayMimeMessage`: assigns the display fields one by one. Returns the
     * exception that interrupts it when the message has no main body.
     */
    method DisplayMimeMessage(m: Option<MimeMessage>) returns (fault: Option<Exception>)
      modifies this`headers, this`body, this`from, this`to, this`cc, this`bcc, this`date, this`subject
      modifies this`isHtml, this`attachmentCount, this`textBody, this`htmlFile, this`selectedTabIndex
      ensures Snapshot() == Render(old(Snapshot()), m).display
      ensures fault == Render(old(Snapshot()), m).fault
    {
      ghost var d0 := Snapshot();
      fault := None;
      if m.Some? {
        var mailMessage := m.value;
        headers := Some(Join(HeaderSeparator, mailMessage.headers));
        var parts := mailMessage.bodyParts;
        var mainBody := GetMainBodyTextPart(parts);
        if mainBody.None? {
          fault := Some(NullReferenceException);
          assert Snapshot() == d0.(headers := headers);
          DisplayFailsWithoutMainBody(d0, mailMessage);
          return;
        }
        ShowMainBody(mailMessage, mainBody.value);
        assert Render(d0, m) == Rendering(MainBodyShown(d0.(headers := headers), mailMessage, mainBody.value), None);
        return;
      } else {
        attachmentCount := 0;
        isHtml := false;
        htmlFile := None;
        textBody := None;
        body := None;
      }
      selectedTabIndex := 0;
    }

    /** The envelope fields of `msg`, a missing value shown as the empty string. */
    method ShowEnvelope(msg: MimeMessage)
      modifies this`from, this`to, this`cc, this`bcc, this`date, this`subject
      ensures from == Some(msg.from.GetOr("")) && to == Some(msg.to.GetOr("")) && cc == Some(msg.cc.GetOr(""))
      ensures bcc == Some(msg.bcc.GetOr("")) && date == Some(msg.date.GetOr("")) && subject == Some(msg.subject.GetOr(""))
    {
      from := Some(msg.from.GetOr(""));
      to := Some(msg.to.GetOr(""));
      cc := Some(msg.cc.GetOr(""));
      bcc := Some(msg.bcc.GetOr(""));
      date := Some(msg.date.GetOr(""));
      subject := Some(msg.subject.GetOr(""));
    }

    /**
     * The HTML flag, the attachment count and the text body for main body
     * `main` among `parts`.
     */
    method ShowContent(parts: seq<Part>, main: Part)
      requires main.TextPart?
      modifies this`isHtml, this`attachmentCount, this`textBody
      ensures isHtml == IsContentHtml(main)
      ensures attachmentCount == |GetAttachments(Some(parts)).value|
      ensures textBody == if isHtml then AlternateText(parts, main, old(textBody)) else None
    {
      isHtml := IsContentHtml(main);
      var attachments := GetAttachments(Some(parts));
      attachmentCount := |attachments.value|;
      var text := textBody;
      if isHtml {
        var textPartNotHtml := FirstOtherTextPart(parts, main);
        if textPartNotHtml.Some? {
          text := Some(textPartNotHtml.value.text);
        }
      } else {
        text := None;
      }
      textBody := text;
    }

    /**
     * The part of `DisplayMimeMessage` that runs once the main body `main` of
     * `msg` is found: the body, the envelope, the HTML flag, the attachment
     * count, the text body and the tab.
     */
    method ShowMainBody(msg: MimeMessage, main: Part)
      requires main.TextPart?
      modifies this`body, this`from, this`to, this`cc, this`bcc, this`date, this`subject, this`isHtml
      modifies this`attachmentCount, this`textBody, this`selectedTabIndex
      ensures Snapshot() == MainBodyShown(old(Snapshot()), msg, main)
    {
      body := Some(main.text);
      ShowEnvelope(msg);
      ShowContent(msg.bodyParts, main);
      selectedTabIndex := 0;
    }

    /**
     * `LoadMessageEntry`: disposes the pending load, then either shows nothing
     * at once or marks the view-model loading and starts a load, whose token
     * it returns. No display field changes until that load completes.
     */
    method LoadMessageEntry(messageEntry: Option<MessageEntry>) returns (token: Option<nat>)
      requires Valid()
      modifies this
      ensures Valid()
      ensures messageEntry.None? ==>
                token.None? && loading.None? && !isLoading && generation == old(generation)
                && Snapshot() == Render(old(Snapshot()), None).display
      ensures messageEntry.Some? ==>
                token == Some(old(generation) + 1) && loading == token && isLoading
                && generation == old(generation) + 1 && Snapshot() == old(Snapshot())
    {
      // dispose the previous subscription: its token can no longer complete
      loading := None;
      if messageEntry.None? {
        var _ := DisplayMimeMessage(None);
        isLoading := false;
        token := None;
      } else {
        isLoading := true;
        generation := generation + 1;
        loading := Some(generation);
        token := loading;
      }
    }

    /**
     * The loader delivers message `m` for the load that was issued `token`.
     * A disposed subscription delivers nothing; the live one displays the
     * message and clears `IsLoading`, unless displaying it throws.
     */
    method Complete(token: nat, m: MimeMessage) returns (applied: bool, fault: Option<Exception>)
      requires Valid()
      modifies this
      ensures Valid()
      ensures applied <==> old(loading) == Some(token)
      ensures !applied ==> fault.None? && unchanged(this)
      ensures applied ==>
                Snapshot() == Render(old(Snapshot()), Some(m)).display
                && fault == Render(old(Snapshot()), Some(m)).fault
                && isLoading == (old(isLoading) && fault.Some?)
                && generation == old(generation) && loading == old(loading)
      ensures applied && fault.None? ==>
                (HasAttachments() <==> exists i :: 0 <= i < |m.bodyParts| && m.bodyParts[i].isAttachment)
    {
      ghost var d0 := Snapshot();
      applied := loading == Some(token);
      fault := None;
      if applied {
        fault := DisplayMimeMessage(Some(m));
        if fault.None? {
          isLoading := false;
          HasAttachmentsAfterDisplay(d0, m);
        }
      }
    }
  }

  /**
   * Latest request wins: from any valid state, when message A is requested
   * and then message B before A's load completes, A's late delivery is
   * dropped and only B is displayed.
   */
  method LatestRequestWins(vm: MessageDetailViewModel, a: MessageEntry, b: MessageEntry, ma: MimeMessage,
                           mb: MimeMessage)
    requires vm.Valid()
    requires exists i :: 0 <= i < |mb.bodyParts| && IsBodyCandidate(mb.bodyParts[i])
    modifies vm
    ensures vm.Valid() && !vm.isLoading
    ensures vm.Snapshot() == Render(old(vm.Snapshot()), Some(mb)).display
  {
    ghost var d0 := vm.Snapshot();
    var tokenA := vm.LoadMessageEntry(Some(a));
    var tokenB := vm.LoadMessageEntry(Some(b));
    var appliedA, _ := vm.Complete(tokenA.value, ma);
    assert !appliedA;
    DisplayFailsWithoutMainBody(d0, mb);
    var appliedB, fault := vm.Complete(tokenB.value, mb);
    assert appliedB && fault.None?;
  }
}
