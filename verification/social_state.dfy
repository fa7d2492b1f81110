/** The server's in-memory state: the `profiles`, `friendships` and
    `messages` lists that the request handlers change in place. */
module Server {
  import opened Directory
  import opened FriendGraph
  import opened Conversation

  /** The outcome of `/addprofile`. */
  datatype AddProfileOutcome = FieldsRequired | EmailExists | ProfileCreated

  /** The outcome of `/upload-profile-picture`; `path` is the stored
      picture's public path. */
  datatype PictureOutcome = NoPictureUploaded | ProfileNotFound | PictureSaved(path: string)

  const ProfilePictureDir := "/uploads/profile-pictures/"
  const CanOnlyMessageFriends := "Can only message friends"
  const MessageSent := "Message sent"

  /** Every stored message was sent between friends. */
  ghost predicate MessagesGated(fs: seq<Friendship>, ms: seq<Message>)
  {
    forall i :: 0 <= i < |ms| ==> AreFriends(fs, ms[i].from, ms[i].to)
  }

  /** The reply of `/api/send-message`: only friends may message each other. */
  function SendMessageReply(fs: seq<Friendship>, fromEmail: string, toEmail: string): (r: Reply)
    ensures r.success <==> AreFriends(fs, toEmail, fromEmail)
    ensures r.message == if r.success then MessageSent else CanOnlyMessageFriends
  {
    if AreFriends(fs, fromEmail, toEmail) then Reply(true, MessageSent) else Reply(false, CanOnlyMessageFriends)
  }

  /** Sending succeeds exactly between friends, in either direction. */
  lemma SendMessageReplyCases(fs: seq<Friendship>, a: string, b: string)
    ensures SendMessageReply(fs, a, b).success <==> AreFriends(fs, a, b)
    ensures SendMessageReply(fs, a, b).success == SendMessageReply(fs, b, a).success
    ensures !SendMessageReply(fs, a, b).success ==> SendMessageReply(fs, a, b).message == CanOnlyMessageFriends
  {
  }

  /** A new friendship keeps every stored message gated. */
  lemma MessagesGatedGrows(fs: seq<Friendship>, f: Friendship, ms: seq<Message>)
    requires MessagesGated(fs, ms)
    ensures MessagesGated(fs + [f], ms)
  {
    forall i | 0 <= i < |ms| ensures AreFriends(fs + [f], ms[i].from, ms[i].to) {
      AreFriendsGrows(fs, f, ms[i].from, ms[i].to);
    }
  }

  /** In a valid state every stored message went between two distinct
      registered users. */
  lemma StoredMessagesBetweenUsers(ps: seq<Profile>, fs: seq<Friendship>, ms: seq<Message>)
    requires GraphValid(ps, fs) && MessagesGated(fs, ms)
    ensures forall i :: 0 <= i < |ms| ==>
              ms[i].from != ms[i].to && HasEmail(ps, ms[i].from) && HasEmail(ps, ms[i].to)
  {
  }

  class SocialState {
    var profiles: seq<Profile>
    var friendships: seq<Friendship>
    var messages: seq<Message>

    /** Emails are unique and complete, the friend graph has no self links,
        no repeated pair and only registered ends, and every message went
        between friends. */
    ghost predicate Valid()
      reads this
    {
      DirectoryValid(profiles) && GraphValid(profiles, friendships) && MessagesGated(friendships, messages)
    }

    /** The server starts with three empty lists. */
    constructor ()
      ensures Valid()
      ensures profiles == [] && friendships == [] && messages == []
    {
      profiles, friendships, messages := [], [], [];
    }

    /** `/addprofile`: rejects a missing field, then a taken email, and
        otherwise appends the new profile. */
    method AddProfile(name: string, email: string, password: string) returns (r: AddProfileOutcome)
      requires Valid()
      modifies this
      ensures Valid()
      ensures r == (if !Present(name) || !Present(email) || !Present(password) then FieldsRequired
                    else if HasEmail(old(profiles), email) then EmailExists
                    else ProfileCreated)
      ensures profiles == if r == ProfileCreated then old(profiles) + [Profile(name, email, password, None)]
                          else old(profiles)
      ensures friendships == old(friendships) && messages == old(messages)
    {
      if !Present(name) || !Present(email) || !Present(password) {
        return FieldsRequired;
      }
      var existing := FindByEmail(profiles, email);
      if existing.Some? {
        return EmailExists;
      }
      var created := Profile(name, email, password, None);
      AppendKeepsDirectoryValid(profiles, created);
      GraphValidUnderDirectoryChange(profiles, profiles + [created], friendships);
      profiles := profiles + [created];
      r := ProfileCreated;
    }

    /** `/upload-profile-picture`: rejects a request without a file, then an
        unknown email, and otherwise sets the picture path of the first
        profile with that email, leaving every other profile as it was.
        `uploaded` is the name under which the file was stored. */
    method UploadProfilePicture(email: string, uploaded: Option<string>) returns (r: PictureOutcome)
      requires Valid()
      modifies this
      ensures Valid()
      ensures uploaded.None? ==> r == NoPictureUploaded
      ensures uploaded.Some? && !HasEmail(old(profiles), email) ==> r == ProfileNotFound
      ensures uploaded.Some? && HasEmail(old(profiles), email) ==>
                r == PictureSaved(ProfilePictureDir + uploaded.value)
      ensures !r.PictureSaved? ==> profiles == old(profiles)
      ensures r.PictureSaved? ==>
                var i := FindIndexByEmail(old(profiles), email);
                0 <= i && profiles == old(profiles)[i := old(profiles)[i].(picture := Some(r.path))]
      ensures |profiles| == |old(profiles)|
      ensures forall k :: 0 <= k < |profiles| && old(profiles)[k].email != email ==> profiles[k] == old(profiles)[k]
      ensures friendships == old(friendships) && messages == old(messages)
    {
      if uploaded.None? {
        return NoPictureUploaded;
      }
      var i := FindIndexByEmail(profiles, email);
      if i == -1 {
        return ProfileNotFound;
      }
      var path := ProfilePictureDir + uploaded.value;
      var updated := profiles[i := profiles[i].(picture := Some(path))];
      SetPictureKeepsDirectoryValid(profiles, i, path);
      GraphValidUnderDirectoryChange(profiles, updated, friendships);
      profiles := updated;
      r := PictureSaved(path);
    }

    /** `/api/add-friend`: checks that both users exist, then that they
        differ, then that they are not friends already in either order, and
        otherwise appends one friendship created at `now`. */
    method AddFriend(userEmail: string, friendEmail: string, now: int) returns (r: Reply)
      requires Valid()
      modifies this
      ensures Valid()
      ensures r == AddFriendReply(old(profiles), old(friendships), userEmail, friendEmail)
      ensures friendships == if r.success then old(friendships) + [Friendship(userEmail, friendEmail, now)]
                             else old(friendships)
      ensures profiles == old(profiles) && messages == old(messages)
    {
      var user := FindByEmail(profiles, userEmail);
      var friend := FindByEmail(profiles, friendEmail);
      if user.None? || friend.None? {
        return Reply(false, UserNotFound);
      }
      if userEmail == friendEmail {
        return Reply(false, CannotAddSelf);
      }
      if AreFriends(friendships, userEmail, friendEmail) {
        return Reply(false, AlreadyFriends);
      }
      var f := Friendship(userEmail, friendEmail, now);
      AddFriendKeepsGraphValid(profiles, friendships, userEmail, friendEmail, now);
      MessagesGatedGrows(friendships, f, messages);
      friendships := friendships + [f];
      r := Reply(true, FriendAdded);
    }

    /** `/api/send-message`: refuses users who are not friends, and otherwise
        appends one message; `id` and `now` are the two clock readings the
        handler takes for the message's id and timestamp. */
    method SendMessage(fromEmail: string, toEmail: string, text: string, id: int, now: int) returns (r: Reply)
      requires Valid()
      modifies this
      ensures Valid()
      ensures r == SendMessageReply(old(friendships), fromEmail, toEmail)
      ensures messages == if r.success then old(messages) + [Message(id, fromEmail, toEmail, text, now)]
                          else old(messages)
      ensures profiles == old(profiles) && friendships == old(friendships)
    {
      if !AreFriends(friendships, fromEmail, toEmail) {
        return Reply(false, CanOnlyMessageFriends);
      }
      var sent := Message(id, fromEmail, toEmail, text, now);
      messages := messages + [sent];
      r := Reply(true, MessageSent);
    }
  }
}
