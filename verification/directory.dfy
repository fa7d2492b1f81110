/** The user directory: the `profiles` list, keyed by email, and the
    read-only lookups the request handlers run over it. */
module Directory {

  datatype Option<T> = None | Some(value: T)

  /** A stored profile `{ name, email, password }`; `picture` is the
      `profilePicture` path, absent until a picture has been uploaded. */
  datatype Profile = Profile(name: string, email: string, password: string, picture: Option<string>)

  /** Some stored profile has this email. */
  predicate HasEmail(ps: seq<Profile>, email: string)
  {
    exists i :: 0 <= i < |ps| && ps[i].email == email
  }

  /** No two stored profiles share an email. */
  ghost predicate UniqueEmails(ps: seq<Profile>)
  {
    forall i, j :: 0 <= i < j < |ps| ==> ps[i].email != ps[j].email
  }

  /** A request field is present: JavaScript treats both a missing field and
      the empty string as false. */
  predicate Present(field: string)
  {
    field != ""
  }

  /** Every stored profile passed the registration presence checks. */
  ghost predicate Complete(ps: seq<Profile>)
  {
    forall i :: 0 <= i < |ps| ==> Present(ps[i].name) && Present(ps[i].email) && Present(ps[i].password)
  }

  /** The directory invariant kept by every handler. */
  ghost predicate DirectoryValid(ps: seq<Profile>)
  {
    UniqueEmails(ps) && Complete(ps)
  }

  /** The index of the first profile with this email, or -1 when there is
      none. */
  function FindIndexByEmail(ps: seq<Profile>, email: string): (r: int)
    ensures -1 <= r < |ps|
    ensures r == -1 <==> !HasEmail(ps, email)
    ensures 0 <= r ==> ps[r].email == email
    ensures 0 <= r ==> forall k :: 0 <= k < r ==> ps[k].email != email
  {
    if |ps| == 0 then -1
    else if ps[0].email == email then 0
    else
      var r := FindIndexByEmail(ps[1..], email);
      assert forall k :: 1 <= k < |ps| ==> ps[k] == ps[1..][k - 1];
      if r == -1 then -1 else r + 1
  }

  /** The first profile with this email, if any. */
  function FindByEmail(ps: seq<Profile>, email: string): (r: Option<Profile>)
    ensures r.Some? <==> HasEmail(ps, email)
    ensures r.Some? ==> r.value in ps && r.value.email == email
    ensures r.Some? ==> exists i :: 0 <= i < |ps| && ps[i] == r.value &&
                          forall k :: 0 <= k < i ==> ps[k].email != email
  {
    var i := FindIndexByEmail(ps, email);
    if i == -1 then None else Some(ps[i])
  }

  /** `/login`: the first stored profile holding both the email and the
      password, if any. */
  function Login(ps: seq<Profile>, email: string, password: string): (r: Option<Profile>)
    ensures r.Some? <==> exists i :: 0 <= i < |ps| && ps[i].email == email && ps[i].password == password
    ensures r.Some? ==> r.value in ps && r.value.email == email && r.value.password == password
    ensures r.Some? ==> exists i :: 0 <= i < |ps| && ps[i] == r.value &&
                          forall k :: 0 <= k < i ==> !(ps[k].email == email && ps[k].password == password)
  {
    if |ps| == 0 then None
    else if ps[0].email == email && ps[0].password == password then Some(ps[0])
    else
      var r := Login(ps[1..], email, password);
      assert forall k :: 1 <= k < |ps| ==> ps[k] == ps[1..][k - 1];
      r
  }

  /** With unique emails, a profile is found by email exactly when it is a
      stored profile with that email. */
  lemma FindByEmailUnique(ps: seq<Profile>, email: string, p: Profile)
    requires UniqueEmails(ps)
    ensures FindByEmail(ps, email) == Some(p) <==> p in ps && p.email == email
  {
  }

  /** With unique emails, login succeeds exactly when the profile stored
      under the email carries the given password. */
  lemma LoginChecksStoredPassword(ps: seq<Profile>, email: string, password: string)
    requires UniqueEmails(ps)
    ensures Login(ps, email, password).Some? <==>
            FindByEmail(ps, email).Some? && FindByEmail(ps, email).value.password == password
  {
  }

  /** A profile with a fresh, complete set of fields keeps the directory valid
      when appended. */
  lemma AppendKeepsDirectoryValid(ps: seq<Profile>, p: Profile)
    requires DirectoryValid(ps)
    requires Present(p.name) && Present(p.email) && Present(p.password)
    requires !HasEmail(ps, p.email)
    ensures DirectoryValid(ps + [p])
    ensures forall e :: HasEmail(ps + [p], e) <==> HasEmail(ps, e) || e == p.email
  {
    var qs := ps + [p];
    assert qs[|ps|] == p;
    forall e | HasEmail(ps, e) ensures HasEmail(qs, e) {
      var k :| 0 <= k < |ps| && ps[k].email == e;
      assert qs[k] == ps[k];
    }
    forall i, j | 0 <= i < j < |qs| ensures qs[i].email != qs[j].email {
      if j == |ps| { assert qs[i] == ps[i]; }
    }
  }

  /** Setting the picture of one profile changes no email, so the directory
      stays valid, and every other profile is untouched. */
  lemma SetPictureKeepsDirectoryValid(ps: seq<Profile>, i: nat, path: string)
    requires DirectoryValid(ps)
    requires i < |ps|
    ensures DirectoryValid(ps[i := ps[i].(picture := Some(path))])
    ensures forall e :: HasEmail(ps[i := ps[i].(picture := Some(path))], e) <==> HasEmail(ps, e)
  {
    var qs := ps[i := ps[i].(picture := Some(path))];
    assert forall k :: 0 <= k < |ps| ==> qs[k].email == ps[k].email;
  }
}
