/**
 * register.php and authenticate.php: the username → password-hash registry kept in
 * users.json. `password_hash` and `password_verify` are parameters; the only thing
 * assumed of them is that a password verifies against its own hash.
 */
module Users {
  import opened Wrappers
  import opened Text
  import opened Tree
  import opened Paths
  import opened Sessions
  import Storage
  import Explorer

  const IndexPage: string := "index.php"
  const ExplorerHome: string := "explorer.php?folder=Home"

  const Required: string := "Username and password are required."
  const AlreadyExists: string := "Username already exists."
  const SaveFailed: string := "Failed to save user data."
  const DirFailed: string := "Failed to create user directory."
  const Registered: string := "Registration successful! Please sign in."
  const NoUsers: string := "No users registered yet."
  const Invalid: string := "Invalid username or password."

  /** users.json: absent, something that does not decode to an array, or the registry. */
  datatype UsersFile = Missing | Garbage | Users(hashes: map<string, string>)

  /** `json_decode` as register.php uses it: a value that is not an array acts as an empty one. */
  function Decoded(f: UsersFile): map<string, string>
  {
    if f.Users? then f.hashes else map[]
  }

  /** register.php creates a missing users.json holding `[]` on every request. */
  function Initialized(f: UsersFile): (r: UsersFile)
    ensures r != Missing && Decoded(r) == Decoded(f)
    ensures f != Missing ==> r == f
  {
    if f.Missing? then Users(map[]) else f
  }

  function Field(v: Option<string>): string
  {
    if v.Some? then v.value else ""
  }

  /** The username as both scripts read it: the form field, trimmed. */
  function UserName(v: Option<string>): string
  {
    Trim(Field(v), Whitespace)
  }

  /** The login test of authenticate.php: non-empty fields, a decoded array holding the user, and a verified password. */
  predicate Accepts(f: UsersFile, userField: Option<string>, passField: Option<string>, verify: (string, string) -> bool)
  {
    var u, p := UserName(userField), Field(passField);
    !PhpEmpty(u) && !PhpEmpty(p) && f.Users? && u in f.hashes && verify(p, f.hashes[u])
  }

  /** The message a failed login leaves, in the order authenticate.php tests; None for a login. */
  function LoginError(f: UsersFile, userField: Option<string>, passField: Option<string>, verify: (string, string) -> bool)
    : (r: Option<string>)
    ensures r.None? <==> Accepts(f, userField, passField, verify)
    ensures PhpEmpty(UserName(userField)) || PhpEmpty(Field(passField)) ==> r == Some(Required)
    ensures !PhpEmpty(UserName(userField)) && !PhpEmpty(Field(passField)) && f.Missing? ==> r == Some(NoUsers)
    ensures !PhpEmpty(UserName(userField)) && !PhpEmpty(Field(passField)) && !f.Missing? && r.Some? ==> r == Some(Invalid)
  {
    var u, p := UserName(userField), Field(passField);
    if PhpEmpty(u) || PhpEmpty(p) then Some(Required)
    else if f.Missing? then Some(NoUsers)
    else if !f.Users? || u !in f.hashes || !verify(p, f.hashes[u]) then Some(Invalid)
    else None
  }

  /** An unknown user and a wrong password are told apart by nothing. */
  lemma UnknownAndWrongAlike(m: map<string, string>, userField: Option<string>, passField: Option<string>, verify: (string, string) -> bool)
    requires !PhpEmpty(UserName(userField)) && !PhpEmpty(Field(passField))
    requires UserName(userField) !in m || !verify(Field(passField), m[UserName(userField)])
    ensures LoginError(Users(m), userField, passField, verify) == Some(Invalid)
  {
  }

  /** Unsetting a key that was absent before it was set gives back the map it was set in. */
  lemma RollbackRestores(m: map<string, string>, u: string, h: string)
    requires u !in m
    ensures m[u := h] - {u} == m
  {
  }

  /** Once register.php has stored `hash(p)` for the trimmed name, authenticate.php accepts the same fields. */
  lemma RegisterThenAuthenticate(m: map<string, string>, userField: Option<string>, passField: Option<string>,
                                 hash: string -> string, verify: (string, string) -> bool)
    requires verify(Field(passField), hash(Field(passField)))
    requires !PhpEmpty(UserName(userField)) && !PhpEmpty(Field(passField))
    ensures Accepts(Users(m[UserName(userField) := hash(Field(passField))]), userField, passField, verify)
  {
  }

  /** Whether the trimmed name is new to the registry; None when a field is PHP-empty. */
  function Fresh(f: UsersFile, userField: Option<string>, passField: Option<string>): (r: Option<bool>)
    ensures r.None? <==> PhpEmpty(UserName(userField)) || PhpEmpty(Field(passField))
    ensures r.Some? ==> (r.value <==> UserName(userField) !in Decoded(f))
  {
    var u, p := UserName(userField), Field(passField);
    if PhpEmpty(u) || PhpEmpty(p) then None else Some(u !in Decoded(f))
  }

  class UserRegistry {
    var file: UsersFile

    constructor(file: UsersFile)
      ensures this.file == file
    {
      this.file := file;
    }

    /**
     * register.php. `saveOk` and `rollbackOk` say whether the two writes of users.json
     * succeed, `chownOk` whether chown and chgrp of a new Home directory succeed; the
     * directory itself is made with `mkdir -p` on `disk`.
     */
    method Register(post: bool, userField: Option<string>, passField: Option<string>, hash: string -> string,
                    saveOk: bool, chownOk: bool, rollbackOk: bool, session: Session, disk: Explorer.Explorer)
      returns (location: string)
      modifies this, session, disk
      ensures location == IndexPage
      ensures session.loggedin == old(session.loggedin) && session.username == old(session.username)
      ensures !post ==>
        file == Initialized(old(file)) && disk.fs == old(disk.fs) &&
        session.message == old(session.message) && session.error == old(session.error)
      ensures post && Fresh(old(file), userField, passField) == None ==>
        file == Initialized(old(file)) && disk.fs == old(disk.fs) &&
        session.message == old(session.message) && session.error == Some(Required)
      ensures post && Fresh(old(file), userField, passField) == Some(false) ==>
        file == Initialized(old(file)) && disk.fs == old(disk.fs) &&
        session.message == old(session.message) && session.error == Some(AlreadyExists)
      ensures post && Fresh(old(file), userField, passField) == Some(true) && !saveOk ==>
        file == Initialized(old(file)) && disk.fs == old(disk.fs) &&
        session.message == old(session.message) && session.error == Some(SaveFailed)
      ensures post && Fresh(old(file), userField, passField) == Some(true) && saveOk ==>
        var u, p := UserName(userField), Field(passField);
        var before := Decoded(old(file));
        var dir := Normalize(HomeDirPath(u));
        var made := Storage.MkdirAll(old(disk.fs), dir);
        var dirOk := IsDirAt(old(disk.fs), dir) || (made.Some? && chownOk);
        disk.fs == (if IsDirAt(old(disk.fs), dir) || made.None? then old(disk.fs) else made.value) &&
        (dirOk ==>
          file == Users(before[u := hash(p)]) &&
          session.message == Some(Registered) && session.error == old(session.error)) &&
        (!dirOk ==>
          file == Users(if rollbackOk then before else before[u := hash(p)]) &&
          session.message == old(session.message) && session.error == Some(DirFailed))
    {
      if file.Missing? {
        file := Users(map[]);
      }
      location := IndexPage;
      if !post {
        return;
      }
      var isNew := Fresh(file, userField, passField);
      if isNew.None? {
        session.error := Some(Required);
        return;
      }
      if !isNew.value {
        session.error := Some(AlreadyExists);
        return;
      }
      var username := UserName(userField);
      var password := Field(passField);
      var users := Decoded(file);
      ghost var before := users;
      users := users[username := hash(password)];
      if !saveOk {
        session.error := Some(SaveFailed);
        return;
      }
      file := Users(users);
      CreateHome(username, hash(password), before, chownOk, rollbackOk, session, disk);
    }

    /**
     * The second half of register.php: with the new entry saved, make the user's Home
     * directory if it is missing; when that fails, take the entry out again.
     */
    method CreateHome(username: string, hashed: string, ghost before: map<string, string>,
                      chownOk: bool, rollbackOk: bool, session: Session, disk: Explorer.Explorer)
      requires username !in before && file == Users(before[username := hashed])
      modifies this, session, disk
      ensures session.loggedin == old(session.loggedin) && session.username == old(session.username)
      ensures var dir := Normalize(HomeDirPath(username));
        var made := Storage.MkdirAll(old(disk.fs), dir);
        var dirOk := IsDirAt(old(disk.fs), dir) || (made.Some? && chownOk);
        disk.fs == (if IsDirAt(old(disk.fs), dir) || made.None? then old(disk.fs) else made.value) &&
        (dirOk ==>
          file == Users(before[username := hashed]) &&
          session.message == Some(Registered) && session.error == old(session.error)) &&
        (!dirOk ==>
          file == Users(if rollbackOk then before else before[username := hashed]) &&
          session.message == old(session.message) && session.error == Some(DirFailed))
    {
      var users := file.hashes;
      var userDir := Normalize(HomeDirPath(username));
      if !IsDirAt(disk.fs, userDir) {
        var made := Storage.MkdirAll(disk.fs, userDir);
        if made.Some? {
          disk.fs := made.value;
        }
        if made.None? || !chownOk {
          session.error := Some(DirFailed);
          users := users - {username};
          RollbackRestores(before, username, hashed);
          if rollbackOk {
            file := Users(users);
          }
          return;
        }
      }
      session.message := Some(Registered);
    }

    /** authenticate.php: a login sets the session fields; every failure records its message. */
    method Authenticate(post: bool, userField: Option<string>, passField: Option<string>,
                        verify: (string, string) -> bool, session: Session)
      returns (location: string)
      modifies session
      ensures session.message == old(session.message)
      ensures !post ==>
        location == IndexPage && session.loggedin == old(session.loggedin) &&
        session.username == old(session.username) && session.error == old(session.error)
      ensures post && Accepts(file, userField, passField, verify) ==>
        location == ExplorerHome && session.loggedin && session.username == Some(UserName(userField)) &&
        session.error == old(session.error)
      ensures post && !Accepts(file, userField, passField, verify) ==>
        location == IndexPage && session.loggedin == old(session.loggedin) &&
        session.username == old(session.username) && session.error == LoginError(file, userField, passField, verify)
    {
      location := IndexPage;
      if !post {
        return;
      }
      var error := LoginError(file, userField, passField, verify);
      if error.Some? {
        session.error := error;
        return;
      }
      session.loggedin := true;
      session.username := Some(UserName(userField));
      location := ExplorerHome;
    }
  }
}
