# Social-graph state of the chat-app server

This project models the in-memory state of a small social-networking demo
server. The server keeps three module-level lists: `profiles`, `friendships`
and `messages`. Its request handlers append to these lists and query them:

- registration (`/addprofile`), login (`/login`) and the profile-picture
  update (`/upload-profile-picture`) over the user directory;
- friend linking (`/api/add-friend`) and the friend listing
  (`/api/friends/:userEmail`) over the friend graph;
- friendship-gated sending (`/api/send-message`) and the conversation query
  (`/api/messages/:user1/:user2`) over the message store.

Layout:

- `directory.dfy` (module `Directory`): profiles, lookup by email, login.
- `friend_graph.dfy` (module `FriendGraph`): friendships, the add-friend
  decision, the friend listing.
- `conversation.dfy` (module `Conversation`): messages, the filter, and a
  stable insertion sort by timestamp.
- `social_state.dfy` (module `Server`): the class `SocialState`. Its three
  `seq` fields are updated in place by the mutating handlers.

Each mutating handler is a method with `modifies this`. Its `ensures` gives
the reply and the whole new state. For add-friend and send-message, the reply
is a pure function of the old state (`AddFriendReply`, `SendMessageReply`),
and the lemmas are stated about those functions. The class invariant `Valid()`
says four things:

- emails are unique and every stored field is present;
- no friendship links a user with themself;
- no unordered pair is stored twice, and both ends of every friendship are
  registered;
- every stored message went between friends.

Every handler preserves it. The read-only handlers (`Login`, `ListFriends`,
`GetConversation`) are functions over the lists.

Clock readings (`Date.now()`, `new Date()`) are integer parameters supplied by
the caller. The message handler reads the clock twice (the id and the
timestamp), so it takes two parameters. The name under which the upload
middleware stored a picture is also a parameter, `None` when no file came
with the request. A body field that is missing or empty is the empty string,
because JavaScript treats both as false.

Failures are replies carrying the handler's exact message string. A message
id is a clock reading, so two ids can collide. A successful send replies
`"Message sent"`. The friend listing is a sequence in friendship order.

## Model

| member | source | states |
|---|---|---|
| `Directory.FindIndexByEmail` | server.js:158 | Returns -1 exactly when no profile has the email; otherwise returns an index whose profile has the email, with no earlier profile having it. |
| `Directory.FindByEmail` | server.js:58 | Finds a profile exactly when the email is registered; the result is the first stored profile with that email. |
| `Directory.Login` | server.js:87-102 | Login succeeds iff some stored profile has both the given email and the given password; the result is the first such profile. It takes no state to change. |
| `Directory.LoginChecksStoredPassword` | server.js:87 | With unique emails, login succeeds iff the profile stored under the email has the given password. |
| `Directory.FindByEmailUnique` | server.js:58 | With unique emails, the lookup returns a profile iff it is stored and has that email. |
| `Directory.AppendKeepsDirectoryValid` | server.js:49-69 | Appending a complete profile under an unregistered email keeps emails pairwise distinct. Afterwards the registered emails are the old ones plus the new one. |
| `Directory.SetPictureKeepsDirectoryValid` | server.js:158-169 | Setting one profile's picture keeps the directory valid and leaves the set of registered emails unchanged. |
| `FriendGraph.AreFriends` | server.js:203-206 | The in-order scan finds a friendship exactly when some stored friendship joins the two users in either order. |
| `FriendGraph.AddFriendReply` | server.js:190-219 | The add-friend reply is a success iff both users are registered, differ and are not friends (in either order); it says "Friend added successfully" exactly when it succeeds. |
| `FriendGraph.AddFriendReplyCases` | server.js:190-219 | Add-friend succeeds iff both users exist, differ and are not yet friends. Each failure message corresponds exactly to the first check that fails. |
| `FriendGraph.AddSelfReply` | server.js:191-200 | Befriending oneself gives "User not found" for an unknown email and "Cannot add yourself as friend" for a known one, because the existence check comes first. |
| `FriendGraph.AreFriendsSymmetric` | server.js:242-245 | Friendship holds in one order iff it holds in the other. |
| `FriendGraph.AreFriendsGrows` | server.js:213-217 | Appending a friendship keeps every existing one. |
| `FriendGraph.FriendsAreDistinctUsers` | server.js:191-200 | In a valid graph, two friends are distinct registered users. |
| `FriendGraph.AddFriendKeepsGraphValid` | server.js:190-217 | A successful add keeps the graph valid (no self link, no duplicate unordered pair, registered ends). Afterwards the two users are friends in both orders. |
| `FriendGraph.AddFriendTwiceConflicts` | server.js:203-210 | After a successful add, adding the same pair again in either order replies "Already friends". |
| `FriendGraph.GraphValidUnderDirectoryChange` | server.js:191-196 | The graph stays valid as long as every registered email stays registered. |
| `FriendGraph.ListFriends` | server.js:226-232 | The listing has at most one profile per friendship, and every listed profile is a stored profile. |
| `FriendGraph.ListFriendsAppend` | server.js:226-232 | The listing follows friendship insertion order: a new friendship's profile comes after all earlier ones. |
| `FriendGraph.ListFriendsMembers` | server.js:226-232 | With unique emails, a profile is listed iff it is stored and its owner is a friend of the user. |
| `FriendGraph.ListFriendsComplete` | server.js:226-232 | In a valid graph no counterpart is dropped: the listing has one profile per friendship involving the user. |
| `FriendGraph.ListFriendsDistinct` | server.js:226-232 | In a valid graph over unique emails, no friend is listed twice. |
| `Conversation.Exchanged` | server.js:267-269 | The filter yields no more messages than are stored, and each one went between the two users in one direction or the other. |
| `Conversation.ExchangedMembers` | server.js:267-269 | The filter keeps exactly the stored messages sent between the two users, in either direction. |
| `Conversation.ExchangedSymmetric` | server.js:267-269 | The filter gives the same result for either order of the two users. |
| `Conversation.ExchangedAppend` | server.js:267-269 | The filter keeps stored order: a newly stored message of the pair comes last. |
| `Conversation.Insert` | server.js:270 | One insertion step of the sort adds exactly the inserted message and nothing else. |
| `Conversation.SortByTime` | server.js:270 | The sort returns a permutation of its input. |
| `Conversation.InsertSorted` | server.js:270 | Inserting into a timestamp-sorted sequence keeps it sorted. |
| `Conversation.SortByTimeSortsAndPermutes` | server.js:270 | The sort returns a timestamp-ascending permutation of its input. |
| `Conversation.InsertStable` | server.js:270 | For any input, an insertion puts the message after all messages already there with the same timestamp. |
| `Conversation.SortByTimeStable` | server.js:270 | The sort is stable: for every timestamp, the messages carrying it keep their input order. |
| `Conversation.SortByTimeKeepsSorted` | server.js:270 | An input that is already sorted by timestamp comes back unchanged. |
| `Conversation.GetConversation` | server.js:264-273 | The conversation query returns the pair's filtered messages, as a permutation sorted ascending by timestamp. |
| `Conversation.ConversationContents` | server.js:267-272 | The conversation is sorted by timestamp and is a permutation of the filtered messages. It holds exactly the messages between the two users, and it is empty (never an error) when there are none. |
| `Conversation.ConversationStable` | server.js:267-270 | Messages of the conversation with equal timestamps keep their stored order. |
| `Conversation.ConversationSymmetric` | server.js:264-270 | The conversation of a and b equals the conversation of b and a. |
| `Conversation.ConversationAppend` | server.js:251-270 | A message stored with a timestamp no earlier than any stored one comes last in its conversation, and other conversations do not change. |
| `Server.SendMessageReply` | server.js:242-249 | Sending is accepted iff the recipient and sender are friends (in either order); the reply says "Message sent" on success and "Can only message friends" otherwise. |
| `Server.SendMessageReplyCases` | server.js:242-249 | Sending succeeds iff the two users are friends, and the result is the same in both directions. A failure says "Can only message friends". |
| `Server.MessagesGatedGrows` | server.js:213 | A new friendship keeps every stored message between friends. |
| `Server.StoredMessagesBetweenUsers` | server.js:242-259 | In a valid state every stored message went between two distinct registered users. |
| `Server.SocialState.constructor` | server.js:39-42 | The server starts with three empty lists, which satisfy the invariant. |
| `Server.SocialState.AddProfile` | server.js:45-81 | A missing name, email or password gives FieldsRequired, then a registered email gives EmailExists; in both cases the profiles are unchanged. Otherwise exactly one profile without a picture is appended. Friendships and messages are untouched and the invariant holds. |
| `Server.SocialState.UploadProfilePicture` | server.js:146-169 | No file gives NoPictureUploaded, then an unknown email gives ProfileNotFound; in both cases nothing changes. Otherwise the first profile with the email gets the path under `/uploads/profile-pictures/`, and every other profile is untouched. |
| `Server.SocialState.AddFriend` | server.js:187-220 | The reply is the add-friend decision on the old state. On success exactly one `{user1, user2, createdAt}` friendship is appended; on failure the friendships are unchanged. Profiles and messages are untouched and the invariant holds. |
| `Server.SocialState.SendMessage` | server.js:238-261 | Between non-friends the reply is "Can only message friends" and the messages are unchanged. Otherwise exactly one message with the given from, to, text, id and timestamp is appended. The invariant holds. |

## Left out

- HTTP routing, body parsing, static file serving and server start-up (server.js:1-5, 31-36, 276-278) are framework I/O.
- The upload middleware's disk storage and file names (server.js:8-28) are not modelled, and neither is the file write itself. The stored file name is an input string.
- Video upload and the video listing (`/upload-video`, `/api/videos`, the `videos` list; server.js:106-143) are not part of this model. They only append metadata derived from the uploaded file.
- `/api/profiles` (server.js:182-184) returns the profile list as it is and has no logic to model.
- HTML response bodies and console logging are not modelled. Only the outcome and the exact JSON message strings are.
- Clock values are integer parameters. `ConversationAppend` assumes that the new message's timestamp is not earlier than any stored one. The handler does not guarantee this, because the clock is outside the model.
- Message ids are clock readings and are not claimed to be unique.
- Body fields that are not strings (numbers, arrays) are not modelled. A missing field is the empty string.
- Object identity is not modelled: the listing in the server returns the stored profile objects themselves, and the model returns profile values.
- Concurrency is not modelled, since the server runs its handlers one at a time.
