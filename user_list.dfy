/**
 * The sidebar user table: push events patch the unread count or the status
 * message of the first user record with a matching id, a click moves the
 * current selection to the previous one, and a new `users` input clears both.
 */
module UserList {
  import opened Wrappers
  import opened JsText
  import opened JsArray

  /** The fields of a user chat record that the component reads or writes. */
  datatype UserChat = UserChat(userId: string, name: string, messageCount: int, isRead: bool, statusMessage: string)

  /** What `userSelected` emits on a click. */
  datatype UserSelection = UserSelection(userId: string, userName: string, statusMessage: string)

  /** `updateChatStatus(userId, previousUserId!)`: the previous id may still be `null`. */
  datatype ChatStatusRequest = UpdateChatStatus(userId: string, previousUserId: Option<string>)

  const PredefinedColors: seq<string> := ["red", "blue", "orange", "green", "purple", "teal"]

  /** The record a handler's `users.find(user => user.userId === userId)` returns, by position. */
  function FindUser(users: seq<UserChat>, userId: string): Option<nat> {
    FindIndex(users, (u: UserChat) => u.userId == userId)
  }

  /** Every record other than the one at `k` is as it was. */
  ghost predicate OthersUnchanged(before: seq<UserChat>, after: seq<UserChat>, k: int) {
    |after| == |before| && forall j :: 0 <= j < |before| && j != k ==> after[j] == before[j]
  }

  /** The users after an unread-count event: only the first match gets the new count and read flag. */
  function UpdateMessageCount(users: seq<UserChat>, userId: string, messageCount: int, isRead: bool): (r: seq<UserChat>)
    ensures (forall j :: 0 <= j < |users| ==> users[j].userId != userId) ==> r == users
    ensures forall k :: IsFirstMatch(users, (u: UserChat) => u.userId == userId, k) ==>
      && OthersUnchanged(users, r, k)
      && r[k] == users[k].(messageCount := messageCount, isRead := isRead)
  {
    match FindUser(users, userId)
    case None => users
    case Some(k) => users[k := users[k].(messageCount := messageCount, isRead := isRead)]
  }

  /** The users after a status-message event: only the first match gets the new status message. */
  function UpdateStatusMessage(users: seq<UserChat>, userId: string, statusMessage: string): (r: seq<UserChat>)
    ensures (forall j :: 0 <= j < |users| ==> users[j].userId != userId) ==> r == users
    ensures forall k :: IsFirstMatch(users, (u: UserChat) => u.userId == userId, k) ==>
      && OthersUnchanged(users, r, k)
      && r[k] == users[k].(statusMessage := statusMessage)
  {
    match FindUser(users, userId)
    case None => users
    case Some(k) => users[k := users[k].(statusMessage := statusMessage)]
  }

  /** The text of the unread-message notification. */
  function Notification(messageCount: nat, name: string): (text: string)
    ensures |text| == |"You have "| + |DecimalString(messageCount)| + |" unread message from "| + |name|
    ensures text[..9] == "You have " && text[|text| - |name|..] == name
    ensures text[|text| - |name| - 21..|text| - |name|] == " unread message from "
  {
    "You have " + DecimalString(messageCount) + " unread message from " + name
  }

  /** The notification embeds the count, readable back as a number, and the name. */
  lemma NotificationContents(messageCount: nat, name: string)
    ensures var text := Notification(messageCount, name);
      var digits := DecimalString(messageCount);
      && text[..9] == "You have "
      && text[9..9 + |digits|] == digits
      && DecimalValue(digits) == messageCount
      && text[|text| - |name|..] == name
  {
    DecimalRoundTrip(messageCount);
  }

  /** `getRandomColor(index)`: `None` is the `undefined` that a negative remainder indexes. */
  function GetRandomColor(index: int): (r: Option<string>)
    ensures index >= 0 ==> r == Some(PredefinedColors[index % 6])
    ensures index < 0 ==> (r.Some? <==> index % 6 == 0)
  {
    var colorIndex := TruncatingRem(index, |PredefinedColors|);
    if colorIndex >= 0 then Some(PredefinedColors[colorIndex]) else None
  }

  /** The colours cycle with period six over the non-negative indices. */
  lemma RandomColorPeriodic(index: int)
    requires index >= 0
    ensures GetRandomColor(index + 6) == GetRandomColor(index)
    ensures GetRandomColor(index).Some?
  {
    assert (index + 6) % 6 == index % 6;
  }

  class UserListComponent {
    var users: seq<UserChat>
    var selectedUserId: Option<string>
    var previousUserId: Option<string>

    constructor ()
      ensures users == [] && selectedUserId == None && previousUserId == None
    {
      users := [];
      selectedUserId := None;
      previousUserId := None;
    }

    /** The user-list response requested in `ngOnInit`; the selection is left alone. */
    method OnUserListLoaded(data: seq<UserChat>)
      modifies this`users
      ensures users == data
    {
      users := data;
    }

    /** The `UpdateMessageCount` push event; `notification` is what `showNotification` emits. */
    method OnUpdatedMessageCount(messageCount: int, isRead: bool, userId: string) returns (notification: Option<string>)
      modifies this`users
      ensures users == UpdateMessageCount(old(users), userId, messageCount, isRead)
      ensures notification.Some? <==> FindUser(old(users), userId).Some? && messageCount > 0
      ensures notification.Some? ==>
        notification.value == Notification(messageCount, old(users)[FindUser(old(users), userId).value].name)
    {
      notification := None;
      var found := FindUser(users, userId);
      if found.Some? {
        var k := found.value;
        users := users[k := users[k].(messageCount := messageCount, isRead := isRead)];
        if messageCount > 0 {
          notification := Some(Notification(messageCount, users[k].name));
        }
      }
    }

    /** The status-message push event. */
    method OnStatusMessageUpdate(userId: string, statusMessage: string)
      modifies this`users
      ensures users == UpdateStatusMessage(old(users), userId, statusMessage)
    {
      var found := FindUser(users, userId);
      if found.Some? {
        var k := found.value;
        users := users[k := users[k].(statusMessage := statusMessage)];
      }
    }

    /** A new `users` input followed by `ngOnChanges`: both selections are cleared. */
    method OnUsersInputChanged(newUsers: seq<UserChat>)
      modifies this`users, this`selectedUserId, this`previousUserId
      ensures users == newUsers && selectedUserId == None && previousUserId == None
    {
      users := newUsers;
      selectedUserId := None;
      previousUserId := None;
    }

    /** `onUserClick`: the selection moves to the clicked user, the old one becomes the previous. */
    method OnUserClick(userId: string, userName: string, statusMessage: string)
      returns (selection: UserSelection, request: ChatStatusRequest)
      modifies this`selectedUserId, this`previousUserId
      ensures previousUserId == old(selectedUserId) && selectedUserId == Some(userId)
      ensures request == UpdateChatStatus(userId, old(selectedUserId))
      ensures selection == UserSelection(userId, userName, statusMessage)
    {
      selection := UserSelection(userId, userName, statusMessage);
      previousUserId := selectedUserId;
      selectedUserId := Some(userId);
      request := UpdateChatStatus(userId, previousUserId);
    }
  }
}
