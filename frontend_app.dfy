/**
 * The first front-end revision: a single React component that keeps an
 * in-memory user registry and a shared note list. Each event handler is
 * one atomic transition of the component state; React's batching of the
 * setters is not modelled. An `alert(...)` dialog is returned as the
 * handler's Alert.
 */
module Frontend {
  import opened Wrappers
  import opened Text

  datatype User = User(username: string, password: string)

  /** A note; its owner is the `currentUser` at the time it was added, which may be null. */
  datatype Note = Note(text: string, owner: Option<string>)

  datatype Form = Form(username: string, password: string)

  datatype AuthMode = LoginMode | RegisterMode

  /** The alert dialogs the handlers raise; TypeErrorThrown is the uncaught TypeError of reading a missing note. */
  datatype Alert =
    | NoAlert
    | FillAllFields
    | UserAlreadyExists
    | RegisteredPleaseLogin
    | InvalidUsernameOrPassword
    | OnlyEditOwnNotes
    | OnlyDeleteOwnNotes
    | TypeErrorThrown

  const EmptyForm := Form("", "")

  /** `users.some((u) => u.username === name)`. */
  function UsernameTaken(users: seq<User>, name: string): (b: bool)
    ensures b <==> exists k :: 0 <= k < |users| && users[k].username == name
  {
    if users == [] then false
    else if users[0].username == name then true
    else
      var rest := UsernameTaken(users[1..], name);
      assert rest ==> exists k :: 1 <= k < |users| && users[k].username == name by {
        if rest {
          var k :| 0 <= k < |users[1..]| && users[1..][k].username == name;
          assert users[k + 1].username == name;
        }
      }
      rest
  }

  /** `users.find(...)` matching both username and password, as the index of the first match. */
  function FindAccount(users: seq<User>, name: string, password: string): (r: Option<nat>)
    ensures r.Some? ==> r.value < |users| && users[r.value] == User(name, password)
    ensures r.Some? ==> forall k :: 0 <= k < r.value ==> users[k] != User(name, password)
    ensures r.None? ==> forall k :: 0 <= k < |users| ==> users[k] != User(name, password)
  {
    if users == [] then None
    else if users[0].username == name && users[0].password == password then Some(0)
    else
      match FindAccount(users[1..], name, password)
      case None => None
      case Some(k) => Some(k + 1)
  }

  /** `notes.filter((_, idx) => idx !== i)` for an index i of the list. */
  function RemoveAt<T>(s: seq<T>, i: nat): (r: seq<T>)
    requires i < |s|
    ensures |r| == |s| - 1
    ensures forall k :: 0 <= k < i ==> r[k] == s[k]
    ensures forall k :: i <= k < |r| ==> r[k] == s[k + 1]
    ensures multiset(r) + multiset{s[i]} == multiset(s)
  {
    assert s == s[..i] + [s[i]] + s[i + 1..];
    s[..i] + s[i + 1..]
  }

  ghost predicate DistinctUsernames(users: seq<User>)
  {
    forall i, j :: 0 <= i < j < |users| ==> users[i].username != users[j].username
  }

  /** Appending a user whose name is not taken keeps the names distinct. */
  lemma {:induction false} AppendFreshKeepsDistinct(users: seq<User>, u: User)
    requires DistinctUsernames(users)
    requires !UsernameTaken(users, u.username)
    ensures DistinctUsernames(users + [u])
  {
    var s := users + [u];
    forall i, j | 0 <= i < j < |s| ensures s[i].username != s[j].username {
      if j == |users| {
        assert s[i] == users[i];
      } else {
        assert s[i] == users[i] && s[j] == users[j];
      }
    }
  }

  class App {
    var users: seq<User>
    var currentUser: Option<string>
    var notes: seq<Note>
    var form: Form
    var authMode: AuthMode
    var input: string
    var editIndex: Option<nat>

    /** The registry never holds two users with the same name. */
    ghost predicate Valid()
      reads this
    {
      DistinctUsernames(users)
    }

    /** `editIndex`, when set, names a note that exists. */
    ghost predicate EditTargetExists()
      reads this
    {
      editIndex.Some? ==> editIndex.value < |notes|
    }

    constructor ()
      ensures Valid() && EditTargetExists()
      ensures users == [] && currentUser == None && notes == []
      ensures form == EmptyForm && authMode == LoginMode && input == "" && editIndex == None
    {
      users, currentUser, notes := [], None, [];
      form, authMode, input, editIndex := EmptyForm, LoginMode, "", None;
    }

    /** `handleRegister`. */
    method HandleRegister() returns (alert: Alert)
      requires Valid()
      modifies this
      ensures Valid()
      ensures currentUser == old(currentUser) && notes == old(notes)
      ensures input == old(input) && editIndex == old(editIndex)
      ensures old(form.username) == "" || old(form.password) == "" ==>
        alert == FillAllFields && users == old(users) && form == old(form) && authMode == old(authMode)
      ensures old(form.username) != "" && old(form.password) != "" && UsernameTaken(old(users), old(form.username)) ==>
        alert == UserAlreadyExists && users == old(users) && form == old(form) && authMode == old(authMode)
      ensures old(form.username) != "" && old(form.password) != "" && !UsernameTaken(old(users), old(form.username)) ==>
        && alert == RegisteredPleaseLogin
        && users == old(users) + [User(old(form.username), old(form.password))]
        && form == EmptyForm && authMode == LoginMode
    {
      if form.username == "" || form.password == "" {
        return FillAllFields;
      }
      if UsernameTaken(users, form.username) {
        return UserAlreadyExists;
      }
      AppendFreshKeepsDistinct(users, User(form.username, form.password));
      users := users + [User(form.username, form.password)];
      alert := RegisteredPleaseLogin;
      form := EmptyForm;
      authMode := LoginMode;
    }

    /** `handleLogin`: signs in as the first user matching both fields. */
    method HandleLogin() returns (alert: Alert)
      requires Valid()
      modifies this
      ensures Valid()
      ensures users == old(users) && notes == old(notes) && authMode == old(authMode)
      ensures input == old(input) && editIndex == old(editIndex)
      ensures FindAccount(old(users), old(form.username), old(form.password)).None? ==>
        alert == InvalidUsernameOrPassword && currentUser == old(currentUser) && form == old(form)
      ensures FindAccount(old(users), old(form.username), old(form.password)).Some? ==>
        && alert == NoAlert
        && currentUser == Some(old(users)[FindAccount(old(users), old(form.username), old(form.password)).value].username)
        && currentUser == Some(old(form.username))
        && form == EmptyForm
    {
      var found := FindAccount(users, form.username, form.password);
      if found.None? {
        return InvalidUsernameOrPassword;
      }
      currentUser := Some(users[found.value].username);
      form := EmptyForm;
      alert := NoAlert;
    }

    /** `handleNote`: adds a note, or updates the note being edited. */
    method HandleNote() returns (alert: Alert)
      requires Valid()
      modifies this
      ensures Valid()
      ensures users == old(users) && currentUser == old(currentUser)
      ensures form == old(form) && authMode == old(authMode)
      // whitespace-only input: nothing happens
      ensures TrimsToEmpty(old(input)) ==>
        alert == NoAlert && notes == old(notes) && input == old(input) && editIndex == old(editIndex)
      // adding
      ensures !TrimsToEmpty(old(input)) && old(editIndex).None? ==>
        && alert == NoAlert
        && notes == old(notes) + [Note(old(input), old(currentUser))]
        && input == "" && editIndex == None
      // updating a note that no longer exists: reading its owner throws
      ensures !TrimsToEmpty(old(input)) && old(editIndex).Some? && old(editIndex).value >= |old(notes)| ==>
        alert == TypeErrorThrown && notes == old(notes) && input == old(input) && editIndex == old(editIndex)
      // updating someone else's note
      ensures !TrimsToEmpty(old(input)) && old(editIndex).Some? && old(editIndex).value < |old(notes)|
              && old(notes)[old(editIndex).value].owner != old(currentUser) ==>
        alert == OnlyEditOwnNotes && notes == old(notes) && input == old(input) && editIndex == old(editIndex)
      // updating one's own note: only its text changes
      ensures !TrimsToEmpty(old(input)) && old(editIndex).Some? && old(editIndex).value < |old(notes)|
              && old(notes)[old(editIndex).value].owner == old(currentUser) ==>
        && alert == NoAlert
        && notes == old(notes)[old(editIndex).value := old(notes)[old(editIndex).value].(text := old(input))]
        && input == "" && editIndex == None
    {
      if TrimsToEmpty(input) {
        return NoAlert;
      }
      if editIndex.Some? {
        var i := editIndex.value;
        if i >= |notes| {
          return TypeErrorThrown;
        }
        if notes[i].owner != currentUser {
          return OnlyEditOwnNotes;
        }
        notes := notes[i := notes[i].(text := input)];
        editIndex := None;
      } else {
        notes := notes + [Note(input, currentUser)];
      }
      input := "";
      alert := NoAlert;
    }

    /** `handleDelete(i)`, called from the i-th rendered note. */
    method HandleDelete(i: nat) returns (alert: Alert)
      requires Valid()
      requires i < |notes|
      modifies this
      ensures Valid()
      ensures users == old(users) && currentUser == old(currentUser) && form == old(form)
      ensures authMode == old(authMode) && input == old(input) && editIndex == old(editIndex)
      ensures old(notes)[i].owner != old(currentUser) ==> alert == OnlyDeleteOwnNotes && notes == old(notes)
      ensures old(notes)[i].owner == old(currentUser) ==> alert == NoAlert && notes == RemoveAt(old(notes), i)
    {
      if notes[i].owner != currentUser {
        return OnlyDeleteOwnNotes;
      }
      notes := RemoveAt(notes, i);
      alert := NoAlert;
    }

    /** `handleEdit(i)`: loads the i-th note's text into the input and remembers i. */
    method HandleEdit(i: nat) returns (alert: Alert)
      requires Valid()
      requires i < |notes|
      modifies this
      ensures Valid()
      ensures users == old(users) && currentUser == old(currentUser) && form == old(form)
      ensures authMode == old(authMode) && notes == old(notes)
      ensures old(notes)[i].owner != old(currentUser) ==>
        alert == OnlyEditOwnNotes && input == old(input) && editIndex == old(editIndex)
      ensures old(notes)[i].owner == old(currentUser) ==>
        alert == NoAlert && input == old(notes)[i].text && editIndex == Some(i) && EditTargetExists()
    {
      if notes[i].owner != currentUser {
        return OnlyEditOwnNotes;
      }
      input := notes[i].text;
      editIndex := Some(i);
      alert := NoAlert;
    }

    /** The logout button: clears `currentUser` and nothing else. */
    method Logout()
      requires Valid()
      modifies this
      ensures Valid()
      ensures currentUser == None
      ensures users == old(users) && notes == old(notes) && form == old(form)
      ensures authMode == old(authMode) && input == old(input) && editIndex == old(editIndex)
    {
      currentUser := None;
    }

    /** The username and password inputs' onChange handlers. */
    method SetForm(username: string, password: string)
      requires Valid()
      modifies this
      ensures Valid()
      ensures form == Form(username, password)
      ensures users == old(users) && currentUser == old(currentUser) && notes == old(notes)
      ensures authMode == old(authMode) && input == old(input) && editIndex == old(editIndex)
    {
      form := Form(username, password);
    }

    /** The note input's onChange handler. */
    method SetInput(text: string)
      requires Valid()
      modifies this
      ensures Valid()
      ensures input == text
      ensures users == old(users) && currentUser == old(currentUser) && notes == old(notes)
      ensures form == old(form) && authMode == old(authMode) && editIndex == old(editIndex)
    {
      input := text;
    }

    /** The "Register"/"Login" link that switches the form between its two modes. */
    method ToggleAuthMode()
      requires Valid()
      modifies this
      ensures Valid()
      ensures authMode == (if old(authMode) == LoginMode then RegisterMode else LoginMode)
      ensures users == old(users) && currentUser == old(currentUser) && notes == old(notes)
      ensures form == old(form) && input == old(input) && editIndex == old(editIndex)
    {
      authMode := if authMode == LoginMode then RegisterMode else LoginMode;
    }

    /**
     * A delete that keeps an edit in progress pointed at the same note:
     * deleting the edited note cancels the edit, and deleting an earlier
     * note shifts the index down by one.
     */
    method HandleDeleteKeepingEdit(i: nat) returns (alert: Alert)
      requires Valid()
      requires i < |notes|
      modifies this
      ensures Valid()
      ensures users == old(users) && currentUser == old(currentUser) && form == old(form)
      ensures authMode == old(authMode) && input == old(input)
      ensures old(notes)[i].owner != old(currentUser) ==>
        alert == OnlyDeleteOwnNotes && notes == old(notes) && editIndex == old(editIndex)
      ensures old(notes)[i].owner == old(currentUser) ==>
        alert == NoAlert && notes == RemoveAt(old(notes), i)
      ensures old(EditTargetExists()) ==> EditTargetExists()
      ensures old(editIndex) == Some(i) && old(notes)[i].owner == old(currentUser) ==> editIndex == None
      ensures old(editIndex).Some? && old(editIndex).value > i && old(notes)[i].owner == old(currentUser) ==>
        editIndex == Some(old(editIndex).value - 1)
      ensures (old(editIndex).None? || old(editIndex).value < i) ==> editIndex == old(editIndex)
      ensures old(EditTargetExists()) && old(editIndex).Some? && old(editIndex) != Some(i) ==>
        editIndex.Some? && notes[editIndex.value] == old(notes)[old(editIndex).value]
    {
      if notes[i].owner != currentUser {
        return OnlyDeleteOwnNotes;
      }
      notes := RemoveAt(notes, i);
      if editIndex == Some(i) {
        editIndex := None;
      } else if editIndex.Some? && editIndex.value > i {
        editIndex := Some(editIndex.value - 1);
      }
      alert := NoAlert;
    }
  }

  /** None of the sample note texts is whitespace only. */
  lemma SampleInputs()
    ensures !TrimsToEmpty("first") && !TrimsToEmpty("second") && !TrimsToEmpty("edited")
  {
    assert !IsJsWhitespace("first"[0]);
    assert !IsJsWhitespace("second"[0]);
    assert !IsJsWhitespace("edited"[0]);
  }

  /** The start of the replayed session: "ann" registers with password "pw" and logs in. */
  method SignedInSession() returns (app: App)
    ensures fresh(app) && app.Valid()
    ensures app.currentUser == Some("ann") && app.notes == [] && app.editIndex == None
  {
    app := new App();
    app.SetForm("ann", "pw");
    app.ToggleAuthMode();
    var a := app.HandleRegister();
    assert app.users == [User("ann", "pw")];
    app.SetForm("ann", "pw");
    a := app.HandleLogin();
  }

  /** The session goes on: "ann" adds the notes "first" and "second". */
  method SessionWithTwoNotes() returns (app: App)
    ensures fresh(app) && app.Valid()
    ensures app.currentUser == Some("ann") && app.editIndex == None
    ensures app.notes == [Note("first", Some("ann")), Note("second", Some("ann"))]
  {
    SampleInputs();
    app := SignedInSession();
    app.SetInput("first");
    var a := app.HandleNote();
    app.SetInput("second");
    a := app.HandleNote();
  }

  /**
   * Replays a session against the handlers as written: a user registers,
   * logs in, adds two notes, starts editing the first, deletes it, and
   * submits. The edit lands on the second note, which slid into the
   * deleted note's index.
   */
  method StaleEditAfterDelete() returns (before: seq<Note>, after: seq<Note>)
    ensures before == [Note("first", Some("ann")), Note("second", Some("ann"))]
    ensures after == [Note("edited", Some("ann"))]
  {
    SampleInputs();
    var app := SessionWithTwoNotes();
    before := app.notes;
    var a := app.HandleEdit(0);
    a := app.HandleDelete(0);
    app.SetInput("edited");
    a := app.HandleNote();
    after := app.notes;
  }
}
