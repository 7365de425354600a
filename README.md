# Chat client core in Dafny

This project models the logic of an Angular chat client that can be stated and checked. That logic sits in three places:

- **The conversation view** (`ConversationHistoryComponent`). It keeps an in-memory buffer of the messages exchanged with the selected peer. Hub push events change the buffer: a new message, an edited message, a deleted message. So do the responses to the view's own requests: the initial history, an older page, a send and a delete. The edit response changes no message; it only sets a `content` property on the array object itself (see Findings). Flags around the buffer drive backward pagination on scroll, the reset when the peer changes, the context menu, edit mode and the emoji picker.
- **The sidebar user table** (`UserListComponent`). Push events patch the unread count or the status message of the first user record with a matching id. A click moves the selection. Two pure helpers give a user's initials and a colour.
- **The profile panel** (`UserProfileComponent`), which has a small status-message edit mode. The model also covers three form validators: password strength, no consecutive whitespace, and no space character.

Each component is a Dafny `class` whose fields are the component's fields. Each event handler or callback is a method whose `ensures` gives the new state in terms of the old one. A handler that sends a request returns that request as a value. Its success or error callback is a separate method, called when the response arrives. The buffer updates are specified by pure functions on `seq<Message>` (`EditContent`, `RemoveMessage`, `AppendIfAbsent`). Lemmas beside those functions state what the updates preserve. The validators and helpers are pure functions.

The model follows the code, not an idealised reconciler:

- Pushed messages are appended without an id check.
- Older pages are prepended without deduplication or sorting.
- Timestamps are opaque and never compared.
- The edit-command response does not change any message (see Findings).

Modules: `ConversationHistory`, `UserList`, `UserProfile`, `ValidatePassword`, `NoConsecutiveSpaces`, `NoSpaceAllowed`, one per source file. `Initials` holds `getInitials`, which appears identically in the conversation view and the user list. The helper modules hold the JavaScript built-ins the code relies on:

- `JsText`: the `\s` class and `trim`, `split` on one character together with its inverse join, ASCII `toUpperCase`, the truncating `%`, the decimal rendering of a number, and `indexOf`.
- `JsArray`: `find`, as a position, and `filter`.
- `Wrappers` and `ValidationErrors`: small shared datatypes.

## Model

| member | source | states |
|---|---|---|
| `ConversationHistory.ConversationHistoryComponent.constructor` | src/app/pages/components/conversation-history/conversation-history.component.ts:30-54 | The buffer starts empty, every flag starts off, `lastScrollTop` is 0, and no user is signed in yet. |
| `ConversationHistory.ConversationHistoryComponent.NgOnInit` | src/app/pages/components/conversation-history/conversation-history.component.ts:89-92 | A history request with no cursor is issued exactly when a peer id is set. |
| `ConversationHistory.ConversationHistoryComponent.OnLoggedInUserName` | src/app/pages/components/conversation-history/conversation-history.component.ts:101-103 | The signed-in user name is stored as published. |
| `ConversationHistory.ConversationHistoryComponent.OnLoggedUserId` | src/app/pages/components/conversation-history/conversation-history.component.ts:112-114 | The signed-in user id is stored as published (possibly `undefined`). |
| `ConversationHistory.ConversationHistoryComponent.ReceiveNewMessage` | src/app/pages/components/conversation-history/conversation-history.component.ts:123-128 | When the signed-in user is the message's receiver, the message is appended at the end: length plus one, old buffer a prefix, no id check. Otherwise the buffer is unchanged. The sender is not checked. |
| `ConversationHistory.PushCanDuplicateId` | src/app/pages/components/conversation-history/conversation-history.component.ts:123-128 | For every buffer: pushing a message whose id is already in the buffer leaves a buffer without unique ids, because the push does no id check. |
| `ConversationHistory.EditContent` | src/app/pages/components/conversation-history/conversation-history.component.ts:142-149 | Only the first message with the id gets the new content. Length, order, ids, all other fields and all other messages are unchanged. An unknown id leaves the buffer unchanged. |
| `ConversationHistory.ConversationHistoryComponent.ReceiveEditedMessage` | src/app/pages/components/conversation-history/conversation-history.component.ts:142-149 | The edited-message event sets the buffer to `EditContent` of the old buffer. |
| `ConversationHistory.EditContentKeepsUniqueIds` | src/app/pages/components/conversation-history/conversation-history.component.ts:142-149 | An edit never creates a duplicate id. |
| `ConversationHistory.RemoveMessage` | src/app/pages/components/conversation-history/conversation-history.component.ts:162-166 | No message with the id remains. Every message with another id is kept, and nothing new appears. An unknown id leaves the buffer unchanged. |
| `ConversationHistory.ConversationHistoryComponent.ReceiveDeletedMessage` | src/app/pages/components/conversation-history/conversation-history.component.ts:162-166 | The deleted-message event sets the buffer to `RemoveMessage` of the old buffer, as a new array. |
| `ConversationHistory.RemoveMessageConcat` | src/app/pages/components/conversation-history/conversation-history.component.ts:503-505 | A delete commutes with concatenation, so the kept messages keep their relative order. |
| `ConversationHistory.RemoveMessageIdempotent` | src/app/pages/components/conversation-history/conversation-history.component.ts:162-166 | Deleting the same id twice gives the same buffer as deleting it once. |
| `ConversationHistory.RemoveMessageKeepsUniqueIds` | src/app/pages/components/conversation-history/conversation-history.component.ts:499-508 | A delete never creates a duplicate id. |
| `ConversationHistory.ConversationHistoryComponent.ReceiveUpdatedStatus` | src/app/pages/components/conversation-history/conversation-history.component.ts:178-184 | The peer's active flag takes the event's value only when the event is about the selected peer. |
| `ConversationHistory.ConversationHistoryComponent.FetchConversationHistory` | src/app/pages/components/conversation-history/conversation-history.component.ts:201-202 | Issues a history request for the peer with no cursor. No state changes. |
| `ConversationHistory.ConversationHistoryComponent.OnConversationHistory` | src/app/pages/components/conversation-history/conversation-history.component.ts:203-207 | The history response replaces the buffer wholesale with the response data and sets the peer's active flag. |
| `ConversationHistory.ConversationHistoryComponent.FetchMoreConversationHistory` | src/app/pages/components/conversation-history/conversation-history.component.ts:224-226 | Sets `isLoadingMoreMessages` and issues a history request with the given cursor. |
| `ConversationHistory.ConversationHistoryComponent.OnMoreConversationHistory` | src/app/pages/components/conversation-history/conversation-history.component.ts:227-234 | The new buffer is `older ++ current`, so the old buffer is its suffix. There is no dedup and no sort. Loading ends, and the active flag takes the response's `IsActive` property (false when absent). |
| `ConversationHistory.OlderPageCanDuplicateId` | src/app/pages/components/conversation-history/conversation-history.component.ts:228-231 | For every older page and buffer: if the page shares an id with the buffer, `older.concat(current)` does not have unique ids, because pages are not deduplicated. |
| `ConversationHistory.ConversationHistoryComponent.OnMoreConversationHistoryError` | src/app/pages/components/conversation-history/conversation-history.component.ts:235-237 | A failed page request only clears `isLoadingMoreMessages`. The buffer is unchanged. |
| `ConversationHistory.ConversationHistoryComponent.OnScroll` | src/app/pages/components/conversation-history/conversation-history.component.ts:274-288 | A page is requested iff all four hold: scrolling up, not already loading, `scrollTop < 20`, and the buffer is non-empty. The cursor is the first message's timestamp. `lastScrollTop` becomes `scrollTop` in every case. |
| `ConversationHistory.ConversationHistoryComponent.NgOnChanges` | src/app/pages/components/conversation-history/conversation-history.component.ts:308-316 | A non-first `userId` change empties the buffer. A fetch follows only for a non-empty id. A first change, or no `userId` change, leaves the buffer alone. |
| `ConversationHistory.IsBlank` | src/app/pages/components/conversation-history/conversation-history.component.ts:347 | `trim() === ''` holds exactly when every character is whitespace. |
| `JsText.Trim` | src/app/pages/components/conversation-history/conversation-history.component.ts:347 | `trim()` is a contiguous piece of the string that neither starts nor ends with whitespace. Everything cut off on either side is whitespace. |
| `JsText.LeadingWhitespace` | src/app/pages/components/conversation-history/conversation-history.component.ts:347 | The leading run `trim()` drops is all whitespace and stops at the first non-whitespace character. |
| `JsText.TrailingWhitespace` | src/app/pages/components/conversation-history/conversation-history.component.ts:347 | The trailing run `trim()` drops is all whitespace and stops at the last non-whitespace character. |
| `ConversationHistory.ConversationHistoryComponent.SendMessage` | src/app/pages/components/conversation-history/conversation-history.component.ts:346-353 | Empty or whitespace-only content issues nothing. Otherwise it issues a send of the content to the selected peer. No state changes before the response. |
| `ConversationHistory.AppendIfAbsent` | src/app/pages/components/conversation-history/conversation-history.component.ts:356-363 | The sent message ends up in the buffer. It is appended only when its id is absent. Unique ids stay unique. |
| `ConversationHistory.AppendIfAbsentIdempotent` | src/app/pages/components/conversation-history/conversation-history.component.ts:356-363 | Delivering the same send response twice changes nothing the second time. |
| `ConversationHistory.ConversationHistoryComponent.OnMessageSent` | src/app/pages/components/conversation-history/conversation-history.component.ts:355-371 | The buffer becomes `AppendIfAbsent` of the old buffer. The emoji picker closes when the message was appended. The input is cleared either way. |
| `ConversationHistory.ConversationHistoryComponent.ShowContextMenu` | src/app/pages/components/conversation-history/conversation-history.component.ts:384-389 | Selects the message, shows the menu and turns editing off. |
| `ConversationHistory.ConversationHistoryComponent.HideContextMenu` | src/app/pages/components/conversation-history/conversation-history.component.ts:395-398 | Clears the selection and hides the menu. |
| `ConversationHistory.ConversationHistoryComponent.EditMessageTextBox` | src/app/pages/components/conversation-history/conversation-history.component.ts:407-412 | Selects the message, hides the menu and turns editing on. |
| `ConversationHistory.ConversationHistoryComponent.EditMessage` | src/app/pages/components/conversation-history/conversation-history.component.ts:428-429 | Issues an update of the message's id with its content. No state changes before the response. |
| `ConversationHistory.ConversationHistoryComponent.OnMessageEdited` | src/app/pages/components/conversation-history/conversation-history.component.ts:430-446 | Every message in the buffer is unchanged. The content lands on the array object only, and only when the id is present. The menu and edit mode turn off. |
| `ConversationHistory.EditResponseMissesMessage` | src/app/pages/components/conversation-history/conversation-history.component.ts:437-442 | For every buffer whose first message with the id has different content, the intended edit gives that message the new content and so changes the buffer, while the as-written response leaves every message unchanged. |
| `ConversationHistory.ConversationHistoryComponent.CancelEdit` | src/app/pages/components/conversation-history/conversation-history.component.ts:454-457 | The menu and edit mode turn off. |
| `ConversationHistory.ConversationHistoryComponent.DeleteMessage` | src/app/pages/components/conversation-history/conversation-history.component.ts:499-500 | Issues a delete of the id. No state changes before the response. |
| `ConversationHistory.ConversationHistoryComponent.OnMessageDeleted` | src/app/pages/components/conversation-history/conversation-history.component.ts:501-508 | The buffer becomes `RemoveMessage` of the old buffer. The menu and edit mode turn off. |
| `ConversationHistory.DeleteErrorText` | src/app/pages/components/conversation-history/conversation-history.component.ts:510-518 | Statuses 401, 404 and 500 show the server's message. Every other status shows the generic text. |
| `ConversationHistory.ConversationHistoryComponent.OnDeleteMessageError` | src/app/pages/components/conversation-history/conversation-history.component.ts:509-519 | A failed delete shows the dialog text and changes no field. The method has no `modifies` clause. |
| `ConversationHistory.ConversationHistoryComponent.OpenEmojiPicker` | src/app/pages/components/conversation-history/conversation-history.component.ts:530-532 | Flips the emoji picker's visibility. |
| `ConversationHistory.ConversationHistoryComponent.AddEmoji` | src/app/pages/components/conversation-history/conversation-history.component.ts:543-546 | Remembers the emoji and appends it to the message being typed. |
| `Initials.InitialsOfWords` | src/app/pages/components/conversation-history/conversation-history.component.ts:325-331 | For words joined by single spaces, the initials are exactly the upper-cased first letter of each word, in order. |
| `Initials.GetInitials` | src/app/pages/components/user-list/user-list.component.ts:151-155 | There are at most as many initials as space-separated parts, which is the number of spaces plus one. |
| `Initials.InitialsOfParts` | src/app/pages/components/user-list/user-list.component.ts:153 | Each part gives at most one initial, and no initial is a lower-case ASCII letter. |
| `Initials.InitialsConcat` | src/app/pages/components/user-list/user-list.component.ts:153 | The initials of concatenated parts are the concatenated initials, so order is kept. |
| `Initials.InitialsOfNonEmptyParts` | src/app/pages/components/user-list/user-list.component.ts:153 | Non-empty parts give exactly one initial each: the upper-cased first character, in order. |
| `JsText.Split` | src/app/pages/components/user-list/user-list.component.ts:152 | `split(' ')` always yields at least one part, and no part contains the separator. With `SplitJoin` and `JoinSplit` this pins the function down. |
| `JsText.Join` | src/app/pages/components/user-list/user-list.component.ts:152 | The inverse of `split(' ')`: the join of the parts with the separator between them starts with the first part. When no part contains the separator, it has exactly one separator fewer than there are parts. With `SplitJoin` and `JoinSplit` it undoes and is undone by `split`. The empty-separator `join('')` on line 153 is `InitialsOfParts`'s concatenation. |
| `Initials.InitialOf` | src/app/pages/components/user-list/user-list.component.ts:153 | `part.charAt(0).toUpperCase()` is empty exactly for an empty part. Otherwise it is the one upper-cased first character, never a lower-case ASCII letter. |
| `JsText.ToUpperAscii` | src/app/pages/components/user-list/user-list.component.ts:153 | `toUpperCase` maps each ASCII lower-case letter to the upper-case letter at the same alphabet position and leaves every other character alone. No result is a lower-case ASCII letter. |
| `JsText.SplitJoin` | src/app/pages/components/user-list/user-list.component.ts:152 | Joining the result of `split(' ')` with the same separator gives the name back. |
| `JsText.JoinSplit` | src/app/pages/components/user-list/user-list.component.ts:152 | Splitting a join of separator-free parts gives the parts back. |
| `JsText.SplitCount` | src/app/pages/components/user-list/user-list.component.ts:152 | `split(' ')` yields one part more than the number of spaces. |
| `JsArray.FindIndex` | src/app/pages/components/user-list/user-list.component.ts:88 | `find` stops at the first element satisfying the test. When it finds nothing, no element satisfies it. |
| `JsArray.Filter` | src/app/pages/components/conversation-history/conversation-history.component.ts:163-165 | `filter` keeps exactly the elements passing the test, adds nothing, and is the identity when all pass. |
| `JsArray.FilterConcat` | src/app/pages/components/conversation-history/conversation-history.component.ts:503-505 | `filter` commutes with concatenation, so relative order is kept. |
| `JsArray.FilterIdempotent` | src/app/pages/components/conversation-history/conversation-history.component.ts:163-165 | Filtering twice with the same test gives the same result as filtering once. |
| `UserList.UpdateMessageCount` | src/app/pages/components/user-list/user-list.component.ts:86-92 | Only the first user with the id gets the new `messageCount` and `isRead`. All other users and fields are unchanged. An unknown id changes nothing. |
| `UserList.UpdateStatusMessage` | src/app/pages/components/user-list/user-list.component.ts:107-114 | Only the first user with the id gets the new `statusMessage`. An unknown id changes nothing. |
| `UserList.Notification` | src/app/pages/components/user-list/user-list.component.ts:94 | The template literal is "You have ", the count's decimal digits, " unread message from " and the name, and its length is the sum of those parts. |
| `UserList.NotificationContents` | src/app/pages/components/user-list/user-list.component.ts:93-96 | The notification text embeds the count, which reads back as the same number, followed by the user's name. |
| `JsText.DecimalRoundTrip` | src/app/pages/components/user-list/user-list.component.ts:94 | The decimal rendering of a count reads back as the same number. |
| `JsText.DecimalString` | src/app/pages/components/user-list/user-list.component.ts:94 | The rendering is a non-empty string of digits with no leading zero. |
| `UserList.GetRandomColor` | src/app/pages/components/user-list/user-list.component.ts:162-165 | For `i >= 0` the result is `predefinedColors[i % 6]`, always in bounds. For `i < 0` the truncating `%` indexes `undefined` unless `i` is a multiple of 6. |
| `JsText.TruncatingRem` | src/app/pages/components/user-list/user-list.component.ts:163 | JavaScript's `%` has the dividend's sign and magnitude below the divisor, and differs from the dividend by a multiple of the divisor. |
| `UserList.RandomColorPeriodic` | src/app/pages/components/user-list/user-list.component.ts:162-165 | Over non-negative indices the colour always exists and cycles with period 6. |
| `UserList.UserListComponent.constructor` | src/app/pages/components/user-list/user-list.component.ts:36-39 | No users, no selection, no previous selection. |
| `UserList.UserListComponent.OnUserListLoaded` | src/app/pages/components/user-list/user-list.component.ts:73-78 | The loaded list replaces the users. The selection is untouched. |
| `UserList.UserListComponent.OnUpdatedMessageCount` | src/app/pages/components/user-list/user-list.component.ts:86-99 | The users become `UpdateMessageCount` of the old users. A notification is emitted iff a matching user exists and the count is positive. It names that user. |
| `UserList.UserListComponent.OnStatusMessageUpdate` | src/app/pages/components/user-list/user-list.component.ts:107-115 | The users become `UpdateStatusMessage` of the old users. |
| `UserList.UserListComponent.OnUsersInputChanged` | src/app/pages/components/user-list/user-list.component.ts:123-128 | A new `users` input resets both `selectedUserId` and `previousUserId` to null. |
| `UserList.UserListComponent.OnUserClick` | src/app/pages/components/user-list/user-list.component.ts:138-144 | The new previous id is the old selected id, and the new selected id is the clicked one. It emits the selection and requests a chat-status update with both ids. |
| `UserProfile.UserProfileComponent.constructor` | src/app/pages/components/user-profile/user-profile.component.ts:20-36 | No profile, no edited text, not editing, nothing selected. |
| `UserProfile.UserProfileComponent.OnProfileLoaded` | src/app/pages/components/user-profile/user-profile.component.ts:48-53 | The loaded profile is stored. |
| `UserProfile.UserProfileComponent.ToggleEdit` | src/app/pages/components/user-profile/user-profile.component.ts:60-65 | The flag flips, so two toggles restore it. Entering edit mode copies the profile's status message. Leaving it keeps the edited text. With no profile loaded, entering throws after the flip. |
| `UserProfile.UserProfileComponent.SaveStatusMessage` | src/app/pages/components/user-profile/user-profile.component.ts:72-77 | Issues an update with the profile id and the edited text. With no profile loaded it throws. No state changes before the response. |
| `UserProfile.UserProfileComponent.OnStatusMessageSaved` | src/app/pages/components/user-profile/user-profile.component.ts:78-82 | The profile takes the response's status message and edit mode ends. |
| `UserProfile.UserProfileComponent.OnStatusMessageSelect` | src/app/pages/components/user-profile/user-profile.component.ts:89-92 | The edited text becomes the selected value, and the selection is then cleared to ''. |
| `UserProfile.UserProfileComponent.CancelEdit` | src/app/pages/components/user-profile/user-profile.component.ts:97-99 | Edit mode ends. The profile's status message and the edited text are unchanged. |
| `ValidatePassword.Test` | src/app/shared/helpers/validate-password.ts:17-20 | A regex character-class test is true exactly when some character of the string is in the class. |
| `ValidatePassword.ValidatePassword` | src/app/shared/helpers/validate-password.ts:13-27 | The result is an error iff the string lacks one of four things: a lower-case a-z, an upper-case A-Z, a character of the bracket set, or a digit 0-9. |
| `ValidatePassword.FourCharactersSuffice` | src/app/shared/helpers/validate-password.ts:17-26 | There is no length requirement: four characters, one per class, are accepted. |
| `ValidatePassword.AcceptedInContext` | src/app/shared/helpers/validate-password.ts:17-23 | Acceptance is monotone: any string containing an accepted string is accepted. |
| `ValidatePassword.OutsideSpecialSetRejected` | src/app/shared/helpers/validate-password.ts:19 | '/', '=', '\|', '"', space, quote and backtick are not special characters. A password relying on one of them is rejected. |
| `ValidatePassword.EmptyRejected` | src/app/shared/helpers/validate-password.ts:17-24 | The empty string is rejected. |
| `JsText.IsWhitespace` | src/app/shared/helpers/no-consecutive-spaces.ts:15 | `\s` is the ECMAScript WhiteSpace and LineTerminator set. On ASCII it is exactly space and tab through carriage return (U+0009 to U+000D). |
| `NoConsecutiveSpaces.TestWhitespacePair` | src/app/shared/helpers/no-consecutive-spaces.ts:15 | `/\s\s/.test` is true exactly when two adjacent characters are both whitespace. |
| `NoConsecutiveSpaces.NoConsecutiveSpaces` | src/app/shared/helpers/no-consecutive-spaces.ts:13-19 | The result is an error iff some `value[i]` and `value[i+1]` are both whitespace. |
| `NoConsecutiveSpaces.SpaceThenTabRejected` | src/app/shared/helpers/no-consecutive-spaces.ts:15 | Any whitespace counts: a space followed by a tab is rejected. |
| `NoConsecutiveSpaces.ShortAccepted` | src/app/shared/helpers/no-consecutive-spaces.ts:15-18 | Strings shorter than two characters are accepted. |
| `NoConsecutiveSpaces.SingleSpacedWordsAccepted` | src/app/shared/helpers/no-consecutive-spaces.ts:15-18 | Words separated by single spaces are accepted. |
| `NoConsecutiveSpaces.RejectedInContext` | src/app/shared/helpers/no-consecutive-spaces.ts:15-16 | Any string containing a rejected string is rejected. |
| `JsText.IndexOf` | src/app/shared/helpers/nospace-allowed.ts:13 | `indexOf` is -1 exactly when the character is absent. Otherwise it is the first position of the character. |
| `NoSpaceAllowed.NoSpaceAllowed` | src/app/shared/helpers/nospace-allowed.ts:12-17 | The result is an error iff the value is non-null and contains U+0020. |
| `NoSpaceAllowed.NullAccepted` | src/app/shared/helpers/nospace-allowed.ts:13-16 | A null value is accepted. |
| `NoSpaceAllowed.OtherWhitespaceAccepted` | src/app/shared/helpers/nospace-allowed.ts:13 | Only U+0020 counts: a string with a tab but no space is accepted. |
| `NoSpaceAllowed.ConcatenationRejected` | src/app/shared/helpers/nospace-allowed.ts:13 | For non-null strings, `error(s + t)` holds iff `error(s)` or `error(t)` holds. |

## Left out

- Concurrency: the handlers are sequential methods. The interleaving of asynchronous responses is not modelled; each callback is one atomic call.
- SignalR transport: the connection, reconnects and callback registration are not modelled. Each hub event is a method call on the component.
- HTTP services: requests are returned as `Request` values and responses are passed in as parameters. Serialising the history cursor is not modelled; the cursor is the first message's timestamp.
- Responses with no error callback (history, send, edit) do nothing in the component on failure. No method models these failures.
- `scrollToBottom`, `formatDate`, `formatTime`, toasts and the confirmation dialog in `confirmDelete` are DOM or locale work and are left out. `OnDeleteMessageError` returns the dialog text instead of showing it.
- The unused `editForm`, `editedMessageContent` and `userName` of the conversation view are left out.
- Aliasing: messages and user records are JavaScript objects. The selected message and the parent's `users` array share them with the buffer and the table. The model treats them as values, so an in-place edit is not seen through those other references.
- Values of the wrong runtime type are not modelled: a string id where a number is expected, a `null` password, or a fractional `scrollTop` or colour index.
- `JsText.DecimalString`: models `${n}` only for counts below 10^21 that a double holds exactly, up to 2^53. From 10^21 up, JavaScript prints exponent form, such as "1e+21", and the model does not.
- `Initials.GetInitials`: `toUpperCase` is modelled for ASCII letters only. Full Unicode case mapping, including mappings that lengthen a string, is not modelled. Strings are sequences of Unicode scalar values, not UTF-16 code units.
- Routing, guards, authentication and tokens, the GIF picker, the request log, and the login and registration forms are outside the modelled core.

## Findings

| source | as written | input that shows it | evidently intended | confidence | as-written member | corrected member |
|---|---|---|---|---|---|---|
| src/app/pages/components/conversation-history/conversation-history.component.ts:437-442 | The edit response finds the message with the id, then assigns `content` on the array object itself, so no message changes. | A buffer holding message 7 with content "hi", and a successful edit of message 7 to "hello": message 7 still reads "hi". | Assign the new content to the found message, as the edited-message event does at line 147. | high, not executed | `ConversationHistory.ConversationHistoryComponent.OnMessageEdited` with `ConversationHistory.EditResponseMissesMessage` | `ConversationHistory.EditContent` |

Two further observations are not findings, because the server's response shape is not part of this model:

- The older-page handler reads `res.IsActive` (line 233), while the initial fetch reads `res.isActive` (line 205). `OnMoreConversationHistory` takes the property as optional, and an absent property reads as false.
- `getRandomColor` with a negative index gives `undefined`, except for multiples of 6: `-0` indexes the first colour.
