/** The file-backed credential store shared by the three auth handlers: one
    JSON document `{users, admins}`, each list holding plaintext
    `{name, password}` records. The file's path, the file system and JSON
    text are abstracted: the file is seen as absent, unreadable, or holding
    a parsed document. */
module CredentialStore {
  import opened Wrappers

  /** One `{name, password}` record. */
  datatype Cred = Cred(name: string, password: string)

  /** A parsed document. A list is `None` when the parsed value has no such
      field or the field is not an array, so that calling an array method
      on it throws. */
  datatype AuthData = AuthData(users: Option<seq<Cred>>, admins: Option<seq<Cred>>)

  /** The document used when the file cannot be used. */
  const Empty: AuthData := AuthData(Some([]), Some([]))

  /** What the backing file holds when a request reads it. `Unreadable`
      covers both a failed read and text that is not JSON. */
  datatype FileState = Absent | Unreadable | Holds(doc: AuthData)

  /** `getAuthData`: the parsed document, or the empty one when the file is
      missing or cannot be read or parsed. It never fails. */
  function GetAuthData(file: FileState): AuthData
  {
    if file.Holds? then file.doc else Empty
  }

  /** `saveAuthData`: the whole document is written, or the write throws
      (`None`), in which case the file is left as it was. */
  function SaveAuthData(data: AuthData, writable: bool): Option<AuthData>
  {
    if writable then Some(data) else None
  }

  /** The file after a request that wrote `written`, if it wrote anything. */
  function FileAfter(file: FileState, written: Option<AuthData>): FileState
  {
    if written.Some? then Holds(written.value) else file
  }

  /** Reading the file after a save: a successful write is read back as the
      document written; after a failed one the read sees what it saw before. */
  lemma LoadAfterSave(file: FileState, data: AuthData, writable: bool)
    ensures GetAuthData(FileAfter(file, SaveAuthData(data, writable)))
         == if writable then data else GetAuthData(file)
  {
  }

  /** `users.some(u => u.name === name)`: a front-to-back scan. */
  function NameTaken(users: seq<Cred>, name: string): (taken: bool)
    ensures taken <==> exists i :: 0 <= i < |users| && users[i].name == name
    decreases |users|
  {
    if |users| == 0 then false
    else if users[0].name == name then true
    else
      var rest := NameTaken(users[1..], name);
      assert forall i :: 1 <= i < |users| ==> users[i] == users[1..][i - 1];
      rest
  }

  /** `list.find(c => c.name === name && c.password === password)`: the first
      record matching both fields exactly, if any. */
  function FindMatch(list: seq<Cred>, name: string, password: string): (r: Option<Cred>)
    ensures r.Some? <==> Cred(name, password) in list
    ensures r.Some? ==> r.value == Cred(name, password)
    decreases |list|
  {
    if |list| == 0 then None
    else if list[0].name == name && list[0].password == password then Some(list[0])
    else FindMatch(list[1..], name, password)
  }

  /** Names are pairwise distinct. */
  predicate UniqueNames(users: seq<Cred>)
  {
    forall i, j :: 0 <= i < j < |users| ==> users[i].name != users[j].name
  }

  /** How many records carry `name`. */
  function CountName(users: seq<Cred>, name: string): (n: nat)
    ensures n == 0 <==> !NameTaken(users, name)
    ensures n <= |users|
    decreases |users|
  {
    if |users| == 0 then 0
    else (if users[0].name == name then 1 else 0) + CountName(users[1..], name)
  }

  /** Appending one record adds one to the count of its name and leaves every
      other name's count alone. */
  lemma {:induction false} CountNameAppend(users: seq<Cred>, c: Cred, name: string)
    ensures CountName(users + [c], name)
         == CountName(users, name) + (if c.name == name then 1 else 0)
    decreases |users|
  {
    if |users| == 0 {
      assert users + [c] == [c];
      assert [c][1..] == [];
    } else {
      assert (users + [c])[1..] == users[1..] + [c];
      CountNameAppend(users[1..], c, name);
    }
  }
}
