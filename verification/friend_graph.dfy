/** The friend graph: the `friendships` list of `{ user1, user2, createdAt }`
    records, the `/api/add-friend` decision and the `/api/friends/:userEmail`
    listing. */
module FriendGraph {
  import opened Directory

  /** A stored friendship; `createdAt` is the clock reading at creation. */
  datatype Friendship = Friendship(user1: string, user2: string, createdAt: int)

  /** The JSON body `{ success, message }` of the API handlers. */
  datatype Reply = Reply(success: bool, message: string)

  const UserNotFound := "User not found"
  const CannotAddSelf := "Cannot add yourself as friend"
  const AlreadyFriends := "Already friends"
  const FriendAdded := "Friend added successfully"

  /** The friendship joins `a` and `b`, in either order. */
  predicate Links(f: Friendship, a: string, b: string)
  {
    (f.user1 == a && f.user2 == b) || (f.user1 == b && f.user2 == a)
  }

  /** A scan of the stored friendships, in order, for one that joins `a`
      and `b` in either order. */
  function AreFriends(fs: seq<Friendship>, a: string, b: string): (r: bool)
    ensures r <==> exists i :: 0 <= i < |fs| && Links(fs[i], a, b)
  {
    if fs == [] then false
    else
      assert forall k :: 1 <= k < |fs| ==> fs[k] == fs[1..][k - 1];
      Links(fs[0], a, b) || AreFriends(fs[1..], a, b)
  }

  /** The friend-graph invariant: no friendship of a user with themself, no
      unordered pair stored twice, and both ends of every friendship are
      registered emails. */
  ghost predicate GraphValid(ps: seq<Profile>, fs: seq<Friendship>)
  {
    && (forall i :: 0 <= i < |fs| ==> fs[i].user1 != fs[i].user2)
    && (forall i, j :: 0 <= i < j < |fs| ==> !Links(fs[j], fs[i].user1, fs[i].user2))
    && (forall i :: 0 <= i < |fs| ==> HasEmail(ps, fs[i].user1) && HasEmail(ps, fs[i].user2))
  }

  /** The reply of `/api/add-friend` for `userEmail` and `friendEmail`, with
      its three checks in the handler's order: both users exist, then not
      self, then not already friends in either order. */
  function AddFriendReply(ps: seq<Profile>, fs: seq<Friendship>, userEmail: string, friendEmail: string): (r: Reply)
    ensures r.success <==>
              HasEmail(ps, userEmail) && HasEmail(ps, friendEmail) && userEmail != friendEmail &&
              !AreFriends(fs, friendEmail, userEmail)
    ensures r.success <==> r.message == FriendAdded
  {
    if FindByEmail(ps, userEmail).None? || FindByEmail(ps, friendEmail).None? then Reply(false, UserNotFound)
    else if userEmail == friendEmail then Reply(false, CannotAddSelf)
    else if AreFriends(fs, userEmail, friendEmail) then Reply(false, AlreadyFriends)
    else Reply(true, FriendAdded)
  }

  /** Adding friends succeeds exactly when both users exist, are distinct and
      are not yet friends; each failure carries its own message. */
  lemma AddFriendReplyCases(ps: seq<Profile>, fs: seq<Friendship>, a: string, b: string)
    ensures AddFriendReply(ps, fs, a, b).success <==>
            HasEmail(ps, a) && HasEmail(ps, b) && a != b && !AreFriends(fs, a, b)
    ensures AddFriendReply(ps, fs, a, b).message == UserNotFound <==> !HasEmail(ps, a) || !HasEmail(ps, b)
    ensures AddFriendReply(ps, fs, a, b).message == CannotAddSelf <==> HasEmail(ps, a) && HasEmail(ps, b) && a == b
    ensures AddFriendReply(ps, fs, a, b).message == AlreadyFriends <==>
            HasEmail(ps, a) && HasEmail(ps, b) && a != b && AreFriends(fs, a, b)
  {
  }

  /** The existence check comes before the self check: befriending oneself
      reports an unknown user as not found, and a known one as self. */
  lemma AddSelfReply(ps: seq<Profile>, fs: seq<Friendship>, x: string)
    ensures !HasEmail(ps, x) ==> AddFriendReply(ps, fs, x, x) == Reply(false, UserNotFound)
    ensures HasEmail(ps, x) ==> AddFriendReply(ps, fs, x, x) == Reply(false, CannotAddSelf)
  {
  }

  /** Friendship is symmetric. */
  lemma AreFriendsSymmetric(fs: seq<Friendship>, a: string, b: string)
    ensures AreFriends(fs, a, b) <==> AreFriends(fs, b, a)
  {
  }

  /** Appending a friendship keeps every existing one. */
  lemma AreFriendsGrows(fs: seq<Friendship>, f: Friendship, a: string, b: string)
    requires AreFriends(fs, a, b)
    ensures AreFriends(fs + [f], a, b)
  {
    var i :| 0 <= i < |fs| && Links(fs[i], a, b);
    assert (fs + [f])[i] == fs[i];
  }

  /** In a valid graph, friends are two distinct registered users. */
  lemma FriendsAreDistinctUsers(ps: seq<Profile>, fs: seq<Friendship>, a: string, b: string)
    requires GraphValid(ps, fs)
    requires AreFriends(fs, a, b)
    ensures a != b && HasEmail(ps, a) && HasEmail(ps, b)
  {
  }

  /** A successful add keeps the graph valid, and afterwards the two users
      are friends in both orders. */
  lemma AddFriendKeepsGraphValid(ps: seq<Profile>, fs: seq<Friendship>, a: string, b: string, now: int)
    requires GraphValid(ps, fs)
    requires AddFriendReply(ps, fs, a, b).success
    ensures GraphValid(ps, fs + [Friendship(a, b, now)])
    ensures AreFriends(fs + [Friendship(a, b, now)], a, b) && AreFriends(fs + [Friendship(a, b, now)], b, a)
  {
    var f := Friendship(a, b, now);
    var gs := fs + [f];
    assert gs[|fs|] == f;
    forall i, j | 0 <= i < j < |gs| ensures !Links(gs[j], gs[i].user1, gs[i].user2) {
      if j == |fs| {
        assert gs[i] == fs[i];
        assert !Links(fs[i], a, b);
      }
    }
  }

  /** Adding the same pair again, in either order, fails with "Already
      friends". */
  lemma AddFriendTwiceConflicts(ps: seq<Profile>, fs: seq<Friendship>, a: string, b: string, now: int)
    requires AddFriendReply(ps, fs, a, b).success
    ensures AddFriendReply(ps, fs + [Friendship(a, b, now)], a, b) == Reply(false, AlreadyFriends)
    ensures AddFriendReply(ps, fs + [Friendship(a, b, now)], b, a) == Reply(false, AlreadyFriends)
  {
    var gs := fs + [Friendship(a, b, now)];
    assert Links(gs[|fs|], a, b) && Links(gs[|fs|], b, a);
  }

  /** The graph invariant only needs its endpoints to stay registered. */
  lemma GraphValidUnderDirectoryChange(ps: seq<Profile>, qs: seq<Profile>, fs: seq<Friendship>)
    requires GraphValid(ps, fs)
    requires forall e :: HasEmail(ps, e) ==> HasEmail(qs, e)
    ensures GraphValid(qs, fs)
  {
  }

  /** The friendship involves the user. */
  predicate Involves(f: Friendship, u: string)
  {
    f.user1 == u || f.user2 == u
  }

  /** The other end of a friendship involving `u`. */
  function Counterpart(f: Friendship, u: string): string
  {
    if f.user1 == u then f.user2 else f.user1
  }

  /** `/api/friends/:userEmail`: for each friendship involving the user, in
      stored order, the profile found under the counterpart's email; a
      counterpart that no profile matches is dropped. */
  function ListFriends(ps: seq<Profile>, fs: seq<Friendship>, u: string): (r: seq<Profile>)
    ensures |r| <= |fs|
    ensures forall p :: p in r ==> p in ps
  {
    if fs == [] then []
    else
      var rest := ListFriends(ps, fs[1..], u);
      if Involves(fs[0], u) then
        match FindByEmail(ps, Counterpart(fs[0], u))
        case Some(p) => [p] + rest
        case None => rest
      else rest
  }

  /** The number of friendships involving the user. */
  function InvolvingCount(fs: seq<Friendship>, u: string): nat
  {
    if fs == [] then 0 else (if Involves(fs[0], u) then 1 else 0) + InvolvingCount(fs[1..], u)
  }

  /** The listing follows insertion order: a newer friendship's profile comes
      after all older ones. */
  lemma {:induction false} ListFriendsAppend(ps: seq<Profile>, fs: seq<Friendship>, f: Friendship, u: string)
    ensures ListFriends(ps, fs + [f], u) == ListFriends(ps, fs, u) + ListFriends(ps, [f], u)
  {
    if fs != [] {
      assert (fs + [f])[1..] == fs[1..] + [f];
      ListFriendsAppend(ps, fs[1..], f, u);
    }
  }

  /** With unique emails, the listing holds exactly the stored profiles of
      the user's friends. */
  lemma {:induction false} ListFriendsMembers(ps: seq<Profile>, fs: seq<Friendship>, u: string, p: Profile)
    requires UniqueEmails(ps)
    ensures p in ListFriends(ps, fs, u) <==> p in ps && AreFriends(fs, u, p.email)
  {
    if fs != [] {
      ListFriendsMembers(ps, fs[1..], u, p);
      FindByEmailUnique(ps, Counterpart(fs[0], u), p);
      if AreFriends(fs, u, p.email) && !Links(fs[0], u, p.email) {
        var i :| 0 <= i < |fs| && Links(fs[i], u, p.email);
        assert Links(fs[1..][i - 1], u, p.email);
      }
      if AreFriends(fs[1..], u, p.email) {
        var i :| 0 <= i < |fs[1..]| && Links(fs[1..][i], u, p.email);
        assert Links(fs[i + 1], u, p.email);
      }
    }
  }

  /** In a valid graph no counterpart is dropped: one profile per friendship
      involving the user. */
  lemma {:induction false} ListFriendsComplete(ps: seq<Profile>, fs: seq<Friendship>, u: string)
    requires GraphValid(ps, fs)
    ensures |ListFriends(ps, fs, u)| == InvolvingCount(fs, u)
  {
    if fs != [] {
      assert GraphValid(ps, fs[1..]) by {
        forall i | 0 <= i < |fs[1..]| ensures fs[1..][i] == fs[i + 1] { }
      }
      ListFriendsComplete(ps, fs[1..], u);
      assert HasEmail(ps, fs[0].user1) && HasEmail(ps, fs[0].user2);
    }
  }

  /** In a valid graph over unique emails, nobody is listed twice. */
  lemma {:induction false} ListFriendsDistinct(ps: seq<Profile>, fs: seq<Friendship>, u: string)
    requires UniqueEmails(ps) && GraphValid(ps, fs)
    ensures forall i, j :: 0 <= i < j < |ListFriends(ps, fs, u)| ==>
              ListFriends(ps, fs, u)[i].email != ListFriends(ps, fs, u)[j].email
  {
    if fs != [] {
      var tail := fs[1..];
      assert GraphValid(ps, tail) by {
        forall i | 0 <= i < |tail| ensures tail[i] == fs[i + 1] { }
      }
      ListFriendsDistinct(ps, tail, u);
      var rest := ListFriends(ps, tail, u);
      if Involves(fs[0], u) && FindByEmail(ps, Counterpart(fs[0], u)).Some? {
        var p := FindByEmail(ps, Counterpart(fs[0], u)).value;
        forall q | q in rest ensures q.email != p.email {
          ListFriendsMembers(ps, tail, u, q);
          var k :| 0 <= k < |tail| && Links(tail[k], u, q.email);
          assert tail[k] == fs[k + 1];
          assert !Links(fs[k + 1], fs[0].user1, fs[0].user2);
        }
      }
    }
  }
}
