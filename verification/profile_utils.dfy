/** `ensureUserProfile`: look the profile up, return it if it exists,
    otherwise insert one derived from the e-mail address. Both remote
    replies are parameters, in the shape the client library returns them:
    data and error side by side. */
module ProfileUtils {
  import opened Common
  import Text

  datatype Profile = Profile(id: string, username: string, fullName: string)

  /** A reply of the remote store: `{ data, error }`. */
  datatype Reply = Reply(data: Option<Profile>, error: Option<Fault>)

  /** The error code the store uses for "no row found". */
  const NotFoundCode := "PGRST116"
  const DefaultFullName := "Usuario"

  /** `email.split('@')[0]`. */
  function UsernameFor(email: string): (u: string)
    ensures forall i :: 0 <= i < |u| ==> u[i] != '@'
    ensures u <= email
    ensures u == email <==> Text.Count(email, '@') == 0
    ensures |u| < |email| ==> email[|u|] == '@'
  {
    SplitHeadStopsAtSep(email, '@');
    Text.SplitHeadIsPrefix(email, '@');
    Text.SplitHeadWhole(email, '@');
    Text.Split(email, '@')[0]
  }

  /** `fullName || email || 'Usuario'`. */
  function FullNameFor(email: string, fullName: Option<string>): (n: string)
    ensures |n| > 0
    ensures fullName.Some? && fullName.value != "" ==> n == fullName.value
    ensures (fullName.None? || fullName.value == "") && email != "" ==> n == email
    ensures (fullName.None? || fullName.value == "") && email == "" ==> n == DefaultFullName
  {
    if fullName.Some? && fullName.value != "" then fullName.value
    else if email != "" then email
    else DefaultFullName
  }

  /** The row inserted for a user without a profile. */
  function NewProfile(userId: string, email: string, fullName: Option<string>): (p: Profile)
    ensures p.id == userId
    ensures p.username == UsernameFor(email) && p.fullName == FullNameFor(email, fullName)
  {
    Profile(userId, UsernameFor(email), FullNameFor(email, fullName))
  }

  /** What the call returns or throws, and the row it inserted, if any. */
  datatype Ensured = Ensured(result: Outcome<Option<Profile>>, inserted: Option<Profile>)

  /** `ensureUserProfile`: `fetched` is the lookup's reply, `stored` the
      insert's, consulted only when an insert is made. */
  function EnsureUserProfile(userId: string, email: string, fullName: Option<string>, fetched: Reply, stored: Reply): (r: Ensured)
    ensures fetched.error.Some? && fetched.error.value.code != NotFoundCode ==>
      r == Ensured(Failure(fetched.error.value), None)
    ensures (fetched.error.None? || fetched.error.value.code == NotFoundCode) && fetched.data.Some? ==>
      r == Ensured(Success(fetched.data), None)
    ensures r.inserted.Some? <==>
      (fetched.error.None? || fetched.error.value.code == NotFoundCode) && fetched.data.None?
    ensures r.inserted.Some? ==> r.inserted.value == NewProfile(userId, email, fullName)
    ensures r.inserted.Some? && stored.error.Some? ==> r.result == Failure(stored.error.value)
    ensures r.inserted.Some? && stored.error.None? ==> r.result == Success(stored.data)
  {
    if fetched.error.Some? && fetched.error.value.code != NotFoundCode then
      Ensured(Failure(fetched.error.value), None)
    else if fetched.data.Some? then
      Ensured(Success(fetched.data), None)
    else
      var row := NewProfile(userId, email, fullName);
      match stored.error
      case Some(e) => Ensured(Failure(e), Some(row))
      case None => Ensured(Success(stored.data), Some(row))
  }

  /* ----- properties ----- */

  /** Whenever no insert is made, the insert's reply plays no part. */
  lemma NoInsertIgnoresStore(userId: string, email: string, fullName: Option<string>, fetched: Reply, a: Reply, b: Reply)
    requires EnsureUserProfile(userId, email, fullName, fetched, a).inserted.None?
    ensures EnsureUserProfile(userId, email, fullName, fetched, a) == EnsureUserProfile(userId, email, fullName, fetched, b)
  {
  }

  /** An existing profile comes back untouched, with nothing inserted,
      whether the lookup reported no error or only the not-found code. */
  lemma ExistingProfileReturned(userId: string, email: string, fullName: Option<string>, p: Profile, err: Option<Fault>, stored: Reply)
    requires err.None? || err.value.code == NotFoundCode
    ensures EnsureUserProfile(userId, email, fullName, Reply(Some(p), err), stored) == Ensured(Success(Some(p)), None)
  {
  }

  /** A user signing up as `name@host` gets the username `name`, and the
      e-mail as full name when none is given. */
  lemma UsernameOfAddress(name: string, host: string)
    requires forall i :: 0 <= i < |name| ==> name[i] != '@'
    ensures UsernameFor(name + "@" + host) == name
    ensures FullNameFor(name + "@" + host, None) == name + "@" + host
  {
    var email := name + "@" + host;
    var u := UsernameFor(email);
    SplitHeadStopsAtSep(email, '@');
    assert email[|name|] == '@';
    assert forall i :: 0 <= i < |name| ==> email[i] == name[i];
    assert |u| == |name|;
    assert email[..|name|] == name;
  }

  /** The first piece of a split ends right before a separator, unless it is
      the whole string. */
  lemma {:induction false} SplitHeadStopsAtSep(s: string, sep: char)
    ensures var h := Text.Split(s, sep)[0];
            |h| == |s| || (|h| < |s| && s[|h|] == sep)
  {
    if |s| > 0 {
      SplitHeadStopsAtSep(s[1..], sep);
    }
  }
}
