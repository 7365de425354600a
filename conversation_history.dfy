/**
 * The conversation view's in-memory message buffer for the selected peer and
 * the flags around it. Hub push events (new, edited, deleted message, peer
 * status) and the responses to the view's own requests (history, older page,
 * send, edit, delete) each become one method of the component. A method that
 * issues a request returns it; the response arrives later as a call of its own.
 * Messages are compared by `id` only; timestamps are opaque and never ordered.
 */
module ConversationHistory {
  import opened Wrappers
  import opened JsText
  import opened JsArray

  /** A message as the history API and the hub deliver it. */
  datatype Message = Message(id: int, senderId: string, receiverId: string, content: string, timestamp: string)

  /** The requests the view sends to the message API. */
  datatype Request =
    | HistoryRequest(userId: string, before: Option<string>)
    | SendRequest(receiverId: string, content: string)
    | UpdateRequest(messageId: int, content: string)
    | DeleteRequest(messageId: int)

  /** The `userId` entry of the `SimpleChanges` passed to `ngOnChanges`. */
  datatype UserIdChange = UserIdChange(currentValue: string, firstChange: bool)

  /** The dialog text shown when a delete request fails. */
  const GenericErrorText: string := "Something went wrong while processing the request."

  ghost predicate HasId(h: seq<Message>, id: int) {
    exists i :: 0 <= i < |h| && h[i].id == id
  }

  /** No two messages of the buffer share an `id`. */
  ghost predicate UniqueIds(h: seq<Message>) {
    forall i, j :: 0 <= i < j < |h| ==> h[i].id != h[j].id
  }

  /** The buffer after an edited-message event: the first message with the id takes the new content. */
  function EditContent(h: seq<Message>, id: int, content: string): (r: seq<Message>)
    ensures !HasId(h, id) ==> r == h
    ensures |r| == |h|
    ensures forall k :: IsFirstMatch(h, (m: Message) => m.id == id, k) ==>
      && r[k] == h[k].(content := content)
      && forall j :: 0 <= j < |h| && j != k ==> r[j] == h[j]
    ensures forall j :: 0 <= j < |h| ==> r[j].id == h[j].id
  {
    match FindIndex(h, (m: Message) => m.id == id)
    case None => h
    case Some(k) => h[k := h[k].(content := content)]
  }

  /** The buffer after a delete: every message with the id is filtered out. */
  function RemoveMessage(h: seq<Message>, id: int): (r: seq<Message>)
    ensures !HasId(r, id)
    ensures !HasId(h, id) ==> r == h
    ensures forall j :: 0 <= j < |r| ==> r[j] in h
    ensures forall j :: 0 <= j < |h| && h[j].id != id ==> h[j] in r
  {
    Filter(h, (m: Message) => m.id != id)
  }

  /** The buffer after a send response: the returned message is appended unless its id is already there. */
  function AppendIfAbsent(h: seq<Message>, m: Message): (r: seq<Message>)
    ensures HasId(r, m.id)
    ensures HasId(h, m.id) ==> r == h
    ensures !HasId(h, m.id) ==> r == h + [m]
    ensures UniqueIds(h) ==> UniqueIds(r)
  {
    if FindIndex(h, (x: Message) => x.id == m.id).Some? then h
    else
      assert HasId(h + [m], m.id) by { assert (h + [m])[|h|].id == m.id; }
      h + [m]
  }

  /** A send response delivered twice changes nothing the second time. */
  lemma AppendIfAbsentIdempotent(h: seq<Message>, m: Message)
    ensures AppendIfAbsent(AppendIfAbsent(h, m), m) == AppendIfAbsent(h, m)
  {
  }

  /** Deleting keeps the remaining messages in their relative order: it commutes with concatenation. */
  lemma RemoveMessageConcat(a: seq<Message>, b: seq<Message>, id: int)
    ensures RemoveMessage(a + b, id) == RemoveMessage(a, id) + RemoveMessage(b, id)
  {
    FilterConcat(a, b, (m: Message) => m.id != id);
  }

  /** Deleting the same id twice is deleting it once. */
  lemma RemoveMessageIdempotent(h: seq<Message>, id: int)
    ensures RemoveMessage(RemoveMessage(h, id), id) == RemoveMessage(h, id)
  {
    FilterIdempotent(h, (m: Message) => m.id != id);
  }

  /** Deleting never creates a duplicate id. */
  lemma {:induction false} RemoveMessageKeepsUniqueIds(h: seq<Message>, id: int)
    requires UniqueIds(h)
    ensures UniqueIds(RemoveMessage(h, id))
  {
    if h != [] {
      var tail := h[1..];
      UniqueIdsTail(h);
      RemoveMessageKeepsUniqueIds(tail, id);
      var rest := RemoveMessage(tail, id);
      if h[0].id != id {
        assert RemoveMessage(h, id) == [h[0]] + rest;
        RemoveMessageKeepsAbsentId(tail, id, h[0].id);
        UniqueIdsCons(h[0], rest);
      } else {
        assert RemoveMessage(h, id) == rest;
      }
    }
  }

  /** The tail of a buffer with unique ids has unique ids, none of them the head's. */
  lemma UniqueIdsTail(h: seq<Message>)
    requires h != [] && UniqueIds(h)
    ensures UniqueIds(h[1..]) && !HasId(h[1..], h[0].id)
  {
    var tail := h[1..];
    forall i, j | 0 <= i < j < |tail| ensures tail[i].id != tail[j].id {
      assert tail[i] == h[i + 1] && tail[j] == h[j + 1];
    }
    forall i | 0 <= i < |tail| ensures tail[i].id != h[0].id {
      assert tail[i] == h[i + 1];
    }
  }

  /** A delete brings in no id that was not there. */
  lemma RemoveMessageKeepsAbsentId(h: seq<Message>, id: int, other: int)
    requires !HasId(h, other)
    ensures !HasId(RemoveMessage(h, id), other)
  {
    var r := RemoveMessage(h, id);
    forall j | 0 <= j < |r| ensures r[j].id != other {
      assert r[j] in h;
    }
  }

  /** Putting a message with a fresh id in front keeps ids unique. */
  lemma UniqueIdsCons(m: Message, h: seq<Message>)
    requires UniqueIds(h) && !HasId(h, m.id)
    ensures UniqueIds([m] + h)
  {
    var r := [m] + h;
    forall i, j | 0 <= i < j < |r| ensures r[i].id != r[j].id {
      assert r[j] == h[j - 1];
      if i > 0 {
        assert r[i] == h[i - 1];
      }
    }
  }

  /** Editing content keeps every id, so it never creates a duplicate id either. */
  lemma EditContentKeepsUniqueIds(h: seq<Message>, id: int, content: string)
    requires UniqueIds(h)
    ensures UniqueIds(EditContent(h, id, content))
  {
    var r := EditContent(h, id, content);
    assert forall j :: 0 <= j < |h| ==> r[j].id == h[j].id;
  }

  /**
   * The edit response leaves the buffer as it was (see `OnMessageEdited`), while
   * the evidently intended update, the one the edited-message event performs,
   * changes the message the response's `find` locates whenever its content differs.
   */
  lemma EditResponseMissesMessage(h: seq<Message>, id: int, content: string, k: int)
    requires IsFirstMatch(h, (m: Message) => m.id == id, k) && h[k].content != content
    ensures EditContent(h, id, content) != h
    ensures EditContent(h, id, content)[k].content == content
  {
    assert EditContent(h, id, content)[k].content != h[k].content;
  }

  /** A push-delivered message is appended without an id check: an id already in the buffer is duplicated. */
  lemma PushCanDuplicateId(h: seq<Message>, m: Message)
    requires HasId(h, m.id)
    ensures !UniqueIds(h + [m])
  {
    var i :| 0 <= i < |h| && h[i].id == m.id;
    assert (h + [m])[i].id == (h + [m])[|h|].id;
  }

  /** An older page is prepended as it is: an id it shares with the buffer is duplicated. */
  lemma OlderPageCanDuplicateId(older: seq<Message>, h: seq<Message>, i: int, j: int)
    requires 0 <= i < |older| && 0 <= j < |h| && older[i].id == h[j].id
    ensures !UniqueIds(older + h)
  {
    assert (older + h)[i].id == (older + h)[|older| + j].id;
  }

  /** `newMessageContent.trim() === ''`: empty or whitespace only. */
  predicate IsBlank(s: string)
    ensures IsBlank(s) <==> AllWhitespace(s)
  {
    TrimEmptyIffAllWhitespace(s);
    Trim(s) == ""
  }

  /** What the dialog shows when the delete request fails with HTTP status `status`. */
  function DeleteErrorText(status: int, serverMessage: string): (text: string)
    ensures status in {401, 404, 500} ==> text == serverMessage
    ensures status !in {401, 404, 500} ==> text == GenericErrorText
  {
    if status == 401 || status == 404 || status == 500 then serverMessage else GenericErrorText
  }

  class ConversationHistoryComponent {
    /** The selected peer (the `userId` input). */
    var userId: string
    var conversationHistory: seq<Message>
    /**
     * The `content` property that the edit response assigns on the array object
     * itself. Pushing onto the array keeps it; every handler that replaces the
     * array with a new one drops it.
     */
    var strayContent: Option<string>
    var isLoadingMoreMessages: bool
    var lastScrollTop: int
    var newMessageContent: string
    var selectedMessage: Option<Message>
    var isContextMenuVisible: bool
    var isEditing: bool
    var loggedInUserName: string
    var loggedUserId: Option<string>
    var isActive: bool
    var isEmojiPickerVisible: bool
    var selectedEmoji: string

    constructor ()
      ensures userId == "" && conversationHistory == [] && strayContent == None
      ensures !isLoadingMoreMessages && lastScrollTop == 0 && newMessageContent == ""
      ensures selectedMessage == None && !isContextMenuVisible && !isEditing
      ensures loggedInUserName == "" && loggedUserId == None && !isActive
      ensures !isEmojiPickerVisible && selectedEmoji == ""
    {
      userId := "";
      conversationHistory := [];
      strayContent := None;
      isLoadingMoreMessages := false;
      lastScrollTop := 0;
      newMessageContent := "";
      selectedMessage := None;
      isContextMenuVisible := false;
      isEditing := false;
      loggedInUserName := "";
      loggedUserId := None;
      isActive := false;
      isEmojiPickerVisible := false;
      selectedEmoji := "";
    }

    // ---- initialisation and the signed-in user ----

    /** `ngOnInit`: the history is requested only when a peer is selected. */
    method NgOnInit() returns (request: Option<Request>)
      ensures request.Some? <==> userId != ""
      ensures request.Some? ==> request.value == HistoryRequest(userId, None)
    {
      request := None;
      if userId != "" {
        request := FetchConversationHistory(userId);
      }
    }

    /** The signed-in user's name as the authentication service publishes it. */
    method OnLoggedInUserName(name: string)
      modifies this`loggedInUserName
      ensures loggedInUserName == name
    {
      loggedInUserName := name;
    }

    /** The signed-in user's id as the authentication service publishes it (`undefined` is `None`). */
    method OnLoggedUserId(id: Option<string>)
      modifies this`loggedUserId
      ensures loggedUserId == id
    {
      loggedUserId := id;
    }

    // ---- hub push events ----

    /** `ReceiveMessage`: appended, without an id check, exactly when the signed-in user is the receiver. */
    method ReceiveNewMessage(data: Message)
      modifies this`conversationHistory
      ensures loggedUserId == Some(data.receiverId) ==> conversationHistory == old(conversationHistory) + [data]
      ensures loggedUserId != Some(data.receiverId) ==> conversationHistory == old(conversationHistory)
    {
      if loggedUserId == Some(data.receiverId) {
        conversationHistory := conversationHistory + [data];
      }
    }

    /** `ReceiveEditedMessage`: the first message with the id takes the new content. */
    method ReceiveEditedMessage(messageId: int, content: string)
      modifies this`conversationHistory
      ensures conversationHistory == EditContent(old(conversationHistory), messageId, content)
    {
      var found := FindIndex(conversationHistory, (m: Message) => m.id == messageId);
      if found.Some? {
        var k := found.value;
        conversationHistory := conversationHistory[k := conversationHistory[k].(content := content)];
      }
    }

    /** `ReceiveDeletedMessage`: every message with the id is filtered out into a new array. */
    method ReceiveDeletedMessage(messageId: int)
      modifies this`conversationHistory, this`strayContent
      ensures conversationHistory == RemoveMessage(old(conversationHistory), messageId)
      ensures strayContent == None
    {
      conversationHistory := Filter(conversationHistory, (m: Message) => m.id != messageId);
      strayContent := None;
    }

    /** `UpdateStatus`: the peer's active flag, when the event is about the selected peer. */
    method ReceiveUpdatedStatus(active: bool, receiverId: string)
      modifies this`isActive
      ensures isActive == if userId == receiverId then active else old(isActive)
    {
      if userId == receiverId {
        isActive := active;
      }
    }

    // ---- history and backward pagination ----

    /** `fetchConversationHistory`: the newest page, with no cursor. */
    method FetchConversationHistory(peerId: string) returns (request: Option<Request>)
      ensures request == Some(HistoryRequest(peerId, None))
    {
      request := Some(HistoryRequest(peerId, None));
    }

    /** The history response: the buffer is replaced wholesale by the page. */
    method OnConversationHistory(data: seq<Message>, active: bool)
      modifies this`conversationHistory, this`strayContent, this`isActive
      ensures conversationHistory == data && strayContent == None && isActive == active
    {
      conversationHistory := data;
      strayContent := None;
      isActive := active;
    }

    /** `fetchMoreConversationHistory`: marks a page as loading and requests the page before `before`. */
    method FetchMoreConversationHistory(peerId: string, before: string) returns (request: Request)
      modifies this`isLoadingMoreMessages
      ensures isLoadingMoreMessages
      ensures request == HistoryRequest(peerId, Some(before))
    {
      isLoadingMoreMessages := true;
      request := HistoryRequest(peerId, Some(before));
    }

    /**
     * The older-page response: the page goes in front of the buffer, neither
     * deduplicated nor sorted. `isActiveProperty` is the response's `IsActive`
     * property; when it is absent the flag becomes `undefined`, which reads as false.
     */
    method OnMoreConversationHistory(olderMessages: seq<Message>, isActiveProperty: Option<bool>)
      modifies this`conversationHistory, this`strayContent, this`isLoadingMoreMessages, this`isActive
      ensures conversationHistory == olderMessages + old(conversationHistory)
      ensures conversationHistory[|olderMessages|..] == old(conversationHistory)
      ensures strayContent == None && !isLoadingMoreMessages
      ensures isActive == isActiveProperty.GetOr(false)
    {
      conversationHistory := olderMessages + conversationHistory;
      isLoadingMoreMessages := false;
      strayContent := None;
      isActive := isActiveProperty.GetOr(false);
    }

    /** A failed older-page request: only the loading flag is cleared. */
    method OnMoreConversationHistoryError()
      modifies this`isLoadingMoreMessages
      ensures !isLoadingMoreMessages
    {
      isLoadingMoreMessages := false;
    }

    /**
     * `onScroll` with the container's `scrollTop`: scrolling up near the top of a
     * non-empty buffer, with no page already loading, requests the page before the
     * first message's timestamp. The position is remembered in every case.
     */
    method OnScroll(scrollTop: int) returns (request: Option<Request>)
      modifies this`isLoadingMoreMessages, this`lastScrollTop
      ensures lastScrollTop == scrollTop
      ensures request.Some? <==>
        scrollTop < old(lastScrollTop) && !old(isLoadingMoreMessages) && scrollTop < 20 && conversationHistory != []
      ensures request.Some? ==>
        request.value == HistoryRequest(userId, Some(conversationHistory[0].timestamp)) && isLoadingMoreMessages
      ensures request.None? ==> isLoadingMoreMessages == old(isLoadingMoreMessages)
    {
      request := None;
      var isScrollingUp := scrollTop < lastScrollTop;
      if isScrollingUp && !isLoadingMoreMessages && scrollTop < 20 && |conversationHistory| > 0 {
        var oldestMessageTimestamp := conversationHistory[0].timestamp;
        var more := FetchMoreConversationHistory(userId, oldestMessageTimestamp);
        request := Some(more);
      }
      lastScrollTop := scrollTop;
    }

    /**
     * A new `userId` input followed by `ngOnChanges`. After the first change the
     * buffer is emptied and, for a non-empty id, the history is requested.
     */
    method NgOnChanges(change: Option<UserIdChange>) returns (request: Option<Request>)
      modifies this`userId, this`conversationHistory, this`strayContent
      ensures change.Some? ==> userId == change.value.currentValue
      ensures change.None? ==> userId == old(userId)
      ensures change.Some? && !change.value.firstChange ==> conversationHistory == [] && strayContent == None
      ensures !(change.Some? && !change.value.firstChange) ==>
        conversationHistory == old(conversationHistory) && strayContent == old(strayContent)
      ensures request.Some? <==> change.Some? && !change.value.firstChange && change.value.currentValue != ""
      ensures request.Some? ==> request.value == HistoryRequest(change.value.currentValue, None)
    {
      request := None;
      if change.Some? {
        userId := change.value.currentValue;
        if !change.value.firstChange {
          conversationHistory := [];
          strayContent := None;
          if userId != "" {
            request := FetchConversationHistory(userId);
          }
        }
      }
    }

    // ---- sending ----

    /** `sendMessage` as issued: blank content sends nothing; nothing changes until the response. */
    method SendMessage() returns (request: Option<Request>)
      ensures request.None? <==> AllWhitespace(newMessageContent)
      ensures request.Some? ==> request.value == SendRequest(userId, newMessageContent)
    {
      if IsBlank(newMessageContent) {
        return None;
      }
      request := Some(SendRequest(userId, newMessageContent));
    }

    /** The send response: the returned message is appended unless its id is present; the input is cleared. */
    method OnMessageSent(sent: Message)
      modifies this`conversationHistory, this`isEmojiPickerVisible, this`newMessageContent
      ensures conversationHistory == AppendIfAbsent(old(conversationHistory), sent)
      ensures isEmojiPickerVisible == (HasId(old(conversationHistory), sent.id) && old(isEmojiPickerVisible))
      ensures newMessageContent == ""
    {
      var existingMessage := FindIndex(conversationHistory, (m: Message) => m.id == sent.id);
      if existingMessage.None? {
        conversationHistory := conversationHistory + [sent];
        isEmojiPickerVisible := false;
      }
      newMessageContent := "";
    }

    // ---- context menu and editing ----

    method ShowContextMenu(message: Message)
      modifies this`selectedMessage, this`isContextMenuVisible, this`isEditing
      ensures selectedMessage == Some(message) && isContextMenuVisible && !isEditing
    {
      selectedMessage := Some(message);
      isContextMenuVisible := true;
      isEditing := false;
    }

    method HideContextMenu()
      modifies this`selectedMessage, this`isContextMenuVisible
      ensures selectedMessage == None && !isContextMenuVisible
    {
      selectedMessage := None;
      isContextMenuVisible := false;
    }

    method EditMessageTextBox(message: Message)
      modifies this`selectedMessage, this`isContextMenuVisible, this`isEditing
      ensures selectedMessage == Some(message) && !isContextMenuVisible && isEditing
    {
      selectedMessage := Some(message);
      isContextMenuVisible := false;
      isEditing := true;
    }

    /** `editMessage` as issued: nothing changes until the response. */
    method EditMessage(message: Message) returns (request: Request)
      ensures request == UpdateRequest(message.id, message.content)
    {
      request := UpdateRequest(message.id, message.content);
    }

    /**
     * The edit response as written: when some message has the id, the new content
     * is assigned to the array object, not to that message, so no message changes.
     * The menu and edit mode are closed.
     */
    method OnMessageEdited(message: Message)
      modifies this`strayContent, this`isContextMenuVisible, this`isEditing
      ensures conversationHistory == old(conversationHistory)
      ensures strayContent == if HasId(conversationHistory, message.id) then Some(message.content) else old(strayContent)
      ensures !isContextMenuVisible && !isEditing
    {
      var editedMessage := FindIndex(conversationHistory, (m: Message) => m.id == message.id);
      if editedMessage.Some? {
        strayContent := Some(message.content);
      }
      isContextMenuVisible := false;
      isEditing := false;
    }

    method CancelEdit()
      modifies this`isContextMenuVisible, this`isEditing
      ensures !isContextMenuVisible && !isEditing
    {
      isContextMenuVisible := false;
      isEditing := false;
    }

    // ---- deleting ----

    /** `deleteMessage` as issued: nothing changes until the response. */
    method DeleteMessage(messageId: int) returns (request: Request)
      ensures request == DeleteRequest(messageId)
    {
      request := DeleteRequest(messageId);
    }

    /** The successful delete response: the message is filtered out, the menu and edit mode closed. */
    method OnMessageDeleted(messageId: int)
      modifies this`conversationHistory, this`strayContent, this`isContextMenuVisible, this`isEditing
      ensures conversationHistory == RemoveMessage(old(conversationHistory), messageId)
      ensures strayContent == None && !isContextMenuVisible && !isEditing
    {
      conversationHistory := Filter(conversationHistory, (m: Message) => m.id != messageId);
      strayContent := None;
      isContextMenuVisible := false;
      isEditing := false;
    }

    /** The failed delete response: only a dialog is shown; the buffer and the flags stay as they are. */
    method OnDeleteMessageError(status: int, serverMessage: string) returns (dialogText: string)
      ensures dialogText == DeleteErrorText(status, serverMessage)
    {
      dialogText := DeleteErrorText(status, serverMessage);
    }

    // ---- emoji picker ----

    method OpenEmojiPicker()
      modifies this`isEmojiPickerVisible
      ensures isEmojiPickerVisible == !old(isEmojiPickerVisible)
    {
      isEmojiPickerVisible := !isEmojiPickerVisible;
    }

    /** `addEmoji`: the chosen emoji is remembered and appended to the message being typed. */
    method AddEmoji(emoji: string)
      modifies this`selectedEmoji, this`newMessageContent
      ensures selectedEmoji == emoji && newMessageContent == old(newMessageContent) + emoji
    {
      selectedEmoji := emoji;
      newMessageContent := newMessageContent + emoji;
    }
  }
}
