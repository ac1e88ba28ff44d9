/**
 * The server's demonstration accounts: the fixed user table, the password
 * check behind the login endpoint, and the way a bearer token of the form
 * `mock_token_<username>` is turned into the calling user, with a fallback to
 * `admin` of `foundation`.
 */
module Accounts {
  import opened Wrappers
  import opened Text

  datatype User = User(username: string, password: string, disabled: bool, organization: string)

  /** The caller as the endpoints see it: a user name and an organisation. */
  datatype CurrentUser = CurrentUser(username: string, organization: string)

  /** `users_db`: five organisations plus two older accounts of `foundation`. */
  const UsersDb: map<string, User> := map[
    "foundation" := User("foundation", "foundation123", false, "foundation"),
    "lyceum" := User("lyceum", "lyceum123", false, "lyceum"),
    "ft" := User("ft", "ft123", false, "ft"),
    "university" := User("university", "university123", false, "university"),
    "gymnasium" := User("gymnasium", "gymnasium123", false, "gymnasium"),
    "admin" := User("admin", "admin123", false, "foundation"),
    "user" := User("user", "user123", false, "foundation")]

  /** Every account is filed under its own user name, and none of the names holds `_`. */
  lemma UsersDbShape()
    ensures forall name :: name in UsersDb ==> UsersDb[name].username == name && '_' !in name
  {
  }

  /** `verify_user(username, password)`: the user record, or `None`. */
  function VerifyUser(db: map<string, User>, username: string, password: string): (r: Option<User>)
    ensures r.Some? ==> username in db && r.value == db[username]
  {
    if username !in db || db[username].password != password || db[username].disabled then None
    else Some(db[username])
  }

  /**
   * Login succeeds exactly for a known, enabled account whose password
   * matches, and yields that account.
   */
  lemma VerifyUserIff(username: string, password: string)
    ensures VerifyUser(UsersDb, username, password).Some? <==>
      username in UsersDb && UsersDb[username].password == password && !UsersDb[username].disabled
    ensures VerifyUser(UsersDb, username, password).Some? ==>
      var u := VerifyUser(UsersDb, username, password).value;
      u.username == username && u.password == password && !u.disabled
  {
    UsersDbShape();
  }

  const TokenPrefix: string := "mock_token_"

  /** The caller when the token names no known account. */
  const Fallback: CurrentUser := CurrentUser("admin", "foundation")

  /**
   * `get_current_user(token)`: a token starting with `mock_token_` names the
   * user left once every `mock_token_` is removed from it; an unknown name,
   * another token or none at all gives the fallback. A request without a
   * bearer token never reaches this function, because `OAuth2PasswordBearer`
   * refuses it with 401 first; the `None` case is kept for completeness but
   * no endpoint can produce it.
   */
  function GetCurrentUser(token: Option<string>): CurrentUser {
    if token.Some? && StartsWith(token.value, TokenPrefix) then
      var username := ReplaceAll(token.value, TokenPrefix, "");
      if username in UsersDb then CurrentUser(username, UsersDb[username].organization) else Fallback
    else Fallback
  }

  /** The caller is always a known account, with that account's organisation. */
  lemma CurrentUserIsKnown(token: Option<string>)
    ensures var c := GetCurrentUser(token);
      c.username in UsersDb && c.organization == UsersDb[c.username].organization
  {
    UsersDbShape();
  }

  /** Removing a pattern from the front of a text that does not otherwise contain it leaves the text. */
  lemma ReplacePrefixOnly(pat: string, name: string)
    requires |pat| > 0 && !Contains(name, pat)
    ensures StartsWith(pat + name, pat) && ReplaceAll(pat + name, pat, "") == name
  {
    var t := pat + name;
    assert t[..|pat|] == pat && t[|pat|..] == name;
  }

  /** `mock_token_<name>` identifies every account by its own name. */
  lemma TokenOfKnownUser(name: string)
    requires name in UsersDb
    ensures GetCurrentUser(Some(TokenPrefix + name)) == CurrentUser(name, UsersDb[name].organization)
  {
    UsersDbShape();
    assert TokenPrefix[4] == '_';
    NotContainsMissingChar(name, TokenPrefix, '_');
    ReplacePrefixOnly(TokenPrefix, name);
  }

  /** A token of another shape, or one naming no account, falls back to `admin` of `foundation`. */
  lemma UnknownTokenFallsBack(token: Option<string>)
    requires token.None? || !StartsWith(token.value, TokenPrefix) || ReplaceAll(token.value, TokenPrefix, "") !in UsersDb
    ensures GetCurrentUser(token) == Fallback
  {
  }

  /**
   * The organisation the event endpoints look up for a caller:
   * `users_db.get(username, {}).get("organization", "foundation")`.
   */
  function OrganizationOf(c: CurrentUser): string {
    if c.username in UsersDb then UsersDb[c.username].organization else "foundation"
  }

  /** For a caller that came from a token the lookup agrees with the caller's organisation. */
  lemma OrganizationOfCurrentUser(token: Option<string>)
    ensures OrganizationOf(GetCurrentUser(token)) == GetCurrentUser(token).organization
  {
    CurrentUserIsKnown(token);
  }
}
