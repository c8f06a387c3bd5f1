# Noter, modelled in Dafny

Noter is a note-taking application. This project models the note-ownership
logic in three of its parts, and two small pure helpers:

- the first front-end revision (`App.jsx`): one React component holding an
  in-memory user registry, the logged-in user and a shared note list. Users
  register and log in with a username and password. Notes are added, edited
  and deleted, and only their owner may edit or delete them. The model is the
  class `Frontend.App`, with one method per event handler;
- the back end's wallet-keyed note service (`NoteService.java`): create,
  list-by-wallet newest first, update-if-owner and delete-if-owner over the
  note repository. The model is the class `Notes.NoteService`;
- email registration and login (`AuthService.java`): emails are stored
  lower-cased, passwords go through a password encoder, and login looks the
  user up by the lower-cased email. The model is the class `Auth.AuthService`;
- the blockchain-note endpoints (`BlockchainController.java`): the request
  check before a note is created, the per-user filter and the
  transaction-hash lookup. These are pure functions in module `Blockchain`;
- the wallet widget's address shortener (`WalletConnection.jsx`), in module
  `Wallet`.

Module `Text` holds the string behaviour these rely on. It models Java's
`toLowerCase` and `equalsIgnoreCase` as ASCII case folding. It also writes out
the two whitespace classes: the characters JavaScript's `trim` strips and
Java's `Character.isWhitespace`, and the characters Java's `trim` strips
(every code point up to the space). Module `Wrappers` holds `Option` (null) and
`Result` (a thrown exception or error response).

Besides the React front end, the repository holds a Spring back end. Some
back-end files come from different revisions: the controllers call service
methods (`list`, `create`, `get`) that the `NoteService` in
`service/NoteService.java` does not have. The model does not reconcile them. The blockchain queries take the list of
notes as a parameter, and the create request carries an optional transaction
hash.

Environment inputs are parameters:
- the clock reading that becomes a note's `createdAt`;
- the password encoder, a pair of functions `encode` and `matches`;
- the note list the blockchain endpoints query.

Generated identifiers (UUIDs, database identities) come from a counter.

## Model

| member | source | states |
|---|---|---|
| `Frontend.UsernameTaken` | Frontend/Noter/src/App.jsx:19 | true exactly when some registered user has that username |
| `Frontend.FindAccount` | Frontend/Noter/src/App.jsx:32-34 | finds the first user whose username and password both match exactly; None exactly when no user matches |
| `Frontend.RemoveAt` | Frontend/Noter/src/App.jsx:64 | the filter drops exactly position i: one element shorter, elements before i unchanged, elements after i shifted down by one, and the removed element is the only one missing from the multiset |
| `Frontend.AppendFreshKeepsDistinct` | Frontend/Noter/src/App.jsx:19-23 | appending a user whose name is not taken keeps usernames pairwise distinct |
| `Frontend.App.constructor` | Frontend/Noter/src/App.jsx:5-12 | initial state: no users, no current user, no notes, empty form, login mode, empty input, no edit index |
| `Frontend.App.HandleRegister` | Frontend/Noter/src/App.jsx:15-27 | an empty username or password changes nothing and alerts "Fill all fields"; a taken username changes nothing and alerts "User already exists"; otherwise appends exactly one user equal to the form, clears the form and switches to login mode; usernames stay distinct; notes and the current user are never touched |
| `Frontend.App.HandleLogin` | Frontend/Noter/src/App.jsx:30-39 | with no exact username-and-password match, the current user and form are unchanged and "Invalid username or password" is alerted; otherwise the current user becomes the matching user's username and the form is cleared |
| `Frontend.App.HandleNote` | Frontend/Noter/src/App.jsx:42-58 | whitespace-only input changes nothing; with no edit index, appends {input, currentUser}, keeps earlier notes and clears the input; with an edit index, the owner's update changes only that note's text and resets the edit index and input, a non-owner changes nothing, and a stale index throws before any change |
| `Frontend.App.HandleDelete` | Frontend/Noter/src/App.jsx:61-65 | the owner removes exactly index i and the other notes keep their order; a non-owner changes nothing; the edit index is never touched |
| `Frontend.App.HandleEdit` | Frontend/Noter/src/App.jsx:68-73 | the owner loads the note's text into the input and sets the edit index to i; a non-owner changes nothing; notes are never changed |
| `Frontend.App.Logout` | Frontend/Noter/src/App.jsx:116 | clears the current user and nothing else |
| `Frontend.App.SetForm` | Frontend/Noter/src/App.jsx:85-91 | the username and password inputs set the form and nothing else |
| `Frontend.App.SetInput` | Frontend/Noter/src/App.jsx:126 | the note input sets the input and nothing else |
| `Frontend.App.ToggleAuthMode` | Frontend/Noter/src/App.jsx:102-104 | switches between login and register mode and changes nothing else |
| `Frontend.StaleEditAfterDelete` | Frontend/Noter/src/App.jsx:46-65 | a replayed session in which an edit started on the first note lands on the second note after the first is deleted |
| `Frontend.App.HandleDeleteKeepingEdit` | Frontend/Noter/src/App.jsx:61-65 | corrected delete: same effect on notes; the edit index becomes None when its note is deleted, drops by one when an earlier note is deleted, and is otherwise unchanged, so an edit in progress still targets the same note |
| `Wallet.JsSlice` | Frontend/Noter/src/components/WalletConnection.jsx:43 | definition of String.prototype.slice: a negative index counts from the end, both indices are clamped to the string, and a range that ends before it starts is empty |
| `Wallet.JsSliceEnds` | Frontend/Noter/src/components/WalletConnection.jsx:43 | slice(0, k) is the prefix of length min(k, len); for k > 0, slice(-k) is the suffix of length min(k, len); slice(-0) is the whole string |
| `Wallet.FormatAddress` | Frontend/Noter/src/components/WalletConnection.jsx:41-44 | null or empty yields ""; otherwise the first min(6,len) characters, then "...", then the last min(4,len) characters |
| `Wallet.FormatAddressLength` | Frontend/Noter/src/components/WalletConnection.jsx:43 | every address of length at least 6 displays as 13 characters |
| `Wallet.SameDisplayIffSameEnds` | Frontend/Noter/src/components/WalletConnection.jsx:43 | two addresses of length at least 6 display alike exactly when their first six and last four characters agree |
| `Text.LowerCharAlphabet` | Backend/Noter/src/main/java/com/Noter/Noter/user/AuthService.java:25 | folding maps the k-th letter of "A".."Z" to the k-th letter of "a".."z" and leaves every character outside "A".."Z" alone |
| `Text.ToLower` | Backend/Noter/src/main/java/com/Noter/Noter/user/AuthService.java:25 | same length, each character folded, no capital letter left |
| `Text.ToLowerIdempotent` | Backend/Noter/src/main/java/com/Noter/Noter/user/AuthService.java:32 | lower-casing twice is lower-casing once |
| `Text.EqualsIgnoreCase` | Backend/Noter/src/main/java/com/Noter/Noter/controller/BlockchainController.java:39 | definition of String.equalsIgnoreCase: both strings end together and the characters agree pairwise after folding |
| `Text.EqualsIgnoreCaseIsLowerEquality` | Backend/Noter/src/main/java/com/Noter/Noter/controller/BlockchainController.java:39 | two strings are equal ignoring case exactly when their lower-cased forms are equal |
| `Text.IsJsWhitespace` | Frontend/Noter/src/App.jsx:44 | definition of the characters JavaScript's trim strips: the WhiteSpace and LineTerminator code points, by value |
| `Text.TrimsToEmpty` | Frontend/Noter/src/App.jsx:44 | definition of `!input.trim()`: every character is one trim strips |
| `Text.IsJavaWhitespace` | Backend/Noter/src/main/java/com/Noter/Noter/controller/BlockchainController.java:28 | definition of Character.isWhitespace, by code point; it excludes the no-break spaces |
| `Text.IsBlank` | Backend/Noter/src/main/java/com/Noter/Noter/controller/BlockchainController.java:28 | definition of String.isBlank: every character is whitespace |
| `Text.IsJavaTrimmed` | Backend/Noter/src/main/java/com/Noter/Noter/dto/NoteCreateRequest.java:8-10 | definition of the characters Java's String.trim strips: code points up to U+0020 |
| `Text.JavaTrimsToEmpty` | Backend/Noter/src/main/java/com/Noter/Noter/dto/NoteCreateRequest.java:8-10 | definition of `s.trim().length() == 0`: every character is one trim strips |
| `Text.TrimStart` | Frontend/Noter/src/App.jsx:44 | reference trim: drops a prefix made only of stripped characters, and what remains starts with a kept character or is empty |
| `Text.TrimStartEmptyIffAllStripped` | Frontend/Noter/src/App.jsx:44 | a string trims to nothing exactly when every character is stripped |
| `Text.BlankTestsAreEmptyTrims` | Backend/Noter/src/main/java/com/Noter/Noter/controller/BlockchainController.java:28 | the JavaScript trim test, the Java trim test and isBlank each hold exactly when the matching trim leaves nothing |
| `Notes.ToResponse` | Backend/Noter/src/main/java/com/Noter/Noter/dto/NoteResponse.java:16-21 | definition: a response copies the note's id, wallet address, text and createdAt |
| `Notes.ToResponseInjective` | Backend/Noter/src/main/java/com/Noter/Noter/dto/NoteResponse.java:16-21 | two responses are equal exactly when their notes are equal |
| `Notes.IndexOfId` | Backend/Noter/src/main/java/com/Noter/Noter/service/NoteService.java:35-36 | finds a stored note with that id; None exactly when no stored note has it |
| `Notes.OwnedBy` | Backend/Noter/src/main/java/com/Noter/Noter/service/NoteService.java:28 | keeps exactly the stored notes with that wallet address, and never grows the list |
| `Notes.OwnedByCounts` | Backend/Noter/src/main/java/com/Noter/Noter/service/NoteService.java:28 | the listing holds each note of that wallet as often as the table does, and no note of any other wallet |
| `Notes.OwnedByAppend` | Backend/Noter/src/main/java/com/Noter/Noter/service/NoteService.java:28 | the listing of a concatenated table is the concatenation of the listings |
| `Notes.Responses` | Backend/Noter/src/main/java/com/Noter/Noter/service/NoteService.java:29-31 | maps each note, in order, to its response |
| `Notes.PrependNewestFirst` | Backend/Noter/src/main/java/com/Noter/Noter/service/NoteService.java:28 | putting in front of a newest-first list an element no older than its head keeps it newest-first |
| `Notes.InsertNewestFirst` | Backend/Noter/src/main/java/com/Noter/Noter/service/NoteService.java:28 | inserting into a newest-first list keeps it newest-first and adds exactly that element |
| `Notes.SortNewestFirst` | Backend/Noter/src/main/java/com/Noter/Noter/service/NoteService.java:28 | ordered by createdAt descending, and a permutation of the input |
| `Notes.CreateExtendsListing` | Backend/Noter/src/main/java/com/Noter/Noter/service/NoteService.java:21-28 | a saved note joins its own wallet's listing and no other |
| `Notes.UpdateKeepsOtherListings` | Backend/Noter/src/main/java/com/Noter/Noter/service/NoteService.java:42-43 | editing a note's text leaves every other wallet's listing unchanged |
| `Notes.UpdateReplacesInListing` | Backend/Noter/src/main/java/com/Noter/Noter/service/NoteService.java:42-43 | editing a note's text replaces exactly that note in its own wallet's listing |
| `Notes.RemoveFromListing` | Backend/Noter/src/main/java/com/Noter/Noter/service/NoteService.java:52 | deleting a note removes exactly that note from its wallet's listing and leaves other listings unchanged |
| `Notes.NoteService.constructor` | Backend/Noter/src/main/java/com/Noter/Noter/service/NoteService.java:18-19 | an empty repository |
| `Notes.NoteService.CreateNote` | Backend/Noter/src/main/java/com/Noter/Noter/service/NoteService.java:21-25 | adds exactly one note, with a new id, the given wallet and text, and the clock's timestamp; the response mirrors that note; ids stay distinct |
| `Notes.NoteService.NotesByWalletAddress` | Backend/Noter/src/main/java/com/Noter/Noter/service/NoteService.java:27-32 | exactly the responses of the notes with that wallet address, each as often as stored, ordered by createdAt descending |
| `Notes.NoteService.UpdateNote` | Backend/Noter/src/main/java/com/Noter/Noter/service/NoteService.java:34-45 | an unknown id fails with "Note not found" and another wallet fails with "You can only update your own notes" (exact, case-sensitive comparison); both leave the store unchanged; otherwise only that note's text changes, and its id, wallet and createdAt stay as they were |
| `Notes.NoteService.DeleteNote` | Backend/Noter/src/main/java/com/Noter/Noter/service/NoteService.java:47-53 | fails, leaving the store unchanged, unless a note has both that id and that wallet; otherwise removes exactly that note and keeps the others in order |
| `Auth.AuthService.constructor` | Backend/Noter/src/main/java/com/Noter/Noter/user/AuthService.java:15-17 | an empty user store with the given encoder |
| `Auth.AuthService.Register` | Backend/Noter/src/main/java/com/Noter/Noter/user/AuthService.java:19-29 | an email stored exactly as given fails with "Email is already registered" and stores nothing; a case variant of a stored email passes that check and fails on the unique email column; otherwise stores the name as given, the lower-cased email and encode(password), and returns that id, name and lower-cased email |
| `Auth.AuthService.Login` | Backend/Noter/src/main/java/com/Noter/Noter/user/AuthService.java:31-40 | succeeds exactly when a stored user's email equals the request email ignoring case and the password matches its hash; it then returns "Login successful" and that user's profile, and otherwise (false, "Invalid credentials", no user); it reads the store and never changes it |
| `Auth.LoginAfterRegister` | Backend/Noter/src/main/java/com/Noter/Noter/user/AuthService.java:25-34 | if matches(p, encode(p)) holds, a user stored by a successful registration logs in with the same password under any letter-case of the email |
| `Auth.MixedCaseEmailPassesDuplicateCheck` | Backend/Noter/src/main/java/com/Noter/Noter/user/AuthService.java:20-25 | since rows are stored under lower-case emails, an email with a capital letter never trips the duplicate check |
| `Auth.MixedCaseReRegistration` | Backend/Noter/src/main/java/com/Noter/Noter/user/AuthService.java:20-27 | registering "Ann@x.io" after "ann@x.io" fails on the unique email column, not with "Email is already registered" |
| `Auth.AuthService.RegisterLowercaseCheck` | Backend/Noter/src/main/java/com/Noter/Noter/user/AuthService.java:20 | corrected registration: it fails with "Email is already registered" exactly when a stored email equals the request email ignoring case |
| `Blockchain.SubsequenceTransitive` | Backend/Noter/src/main/java/com/Noter/Noter/controller/BlockchainController.java:38-41 | a subsequence of a subsequence is a subsequence, so the two filters in a row keep the list's order |
| `Blockchain.Filter` | Backend/Noter/src/main/java/com/Noter/Noter/controller/BlockchainController.java:38-41 | stream filter: an order-preserving subsequence that keeps every kept element as often as it occurs and drops every other |
| `Blockchain.NotBlank` | Backend/Noter/src/main/java/com/Noter/Noter/dto/NoteCreateRequest.java:8-10 | definition of @NotBlank: the field is present and Java's trim leaves something |
| `Blockchain.FieldsValid` | Backend/Noter/src/main/java/com/Noter/Noter/dto/NoteCreateRequest.java:7-12 | definition of the @Valid check: title, content and author email are @NotBlank, and the title has at most 200 characters |
| `Blockchain.HasTxHash` | Backend/Noter/src/main/java/com/Noter/Noter/controller/BlockchainController.java:28 | definition of the controller's hash test: present and not isBlank |
| `Blockchain.NotBlankIsNotIsBlank` | Backend/Noter/src/main/java/com/Noter/Noter/dto/NoteCreateRequest.java:8-10 | the two blank tests differ: U+0001 alone fails @NotBlank but is not isBlank; U+2003 alone passes @NotBlank but is isBlank |
| `Blockchain.StoreBlockchainNote` | Backend/Noter/src/main/java/com/Noter/Noter/controller/BlockchainController.java:26-33 | a null or blank (isBlank) transaction hash gives bad-request and nothing reaches the note service; a request that breaks its field constraints (trim-based @NotBlank, title length) is rejected before that check; every other request is handed on unchanged |
| `Blockchain.UserBlockchainNotes` | Backend/Noter/src/main/java/com/Noter/Noter/controller/BlockchainController.java:37-42 | exactly the listed notes whose author email equals the path email ignoring case and whose blockchain flag is TRUE, as an order-preserving subsequence; a null or false flag never passes |
| `Blockchain.FilterCountsHash` | Backend/Noter/src/main/java/com/Noter/Noter/controller/BlockchainController.java:48-59 | the number of notes the hash filter keeps is the number of listed notes carrying that hash |
| `Blockchain.VerifyTransaction` | Backend/Noter/src/main/java/com/Noter/Noter/controller/BlockchainController.java:45-64 | not-found exactly when no listed note's hash equals txHash (exact, case-sensitive); otherwise verified = true, txHash echoed, noteCount the number of matching notes, and the matching notes in list order |

## Findings

| source | as written | input that shows it | evidently intended | confidence | as-written member | corrected member |
|---|---|---|---|---|---|---|
| Frontend/Noter/src/App.jsx:61-65 | deleting a note leaves `editIndex` as it was, so a pending update goes to whichever note has moved into that index | as user ann, add "first" and "second", press Edit on "first", press Delete on "first", submit "edited": "second" is overwritten with "edited" | deleting the edited note cancels the edit, and deleting an earlier note shifts the index down | high; not executed | `Frontend.StaleEditAfterDelete` | `Frontend.App.HandleDeleteKeepingEdit` |
| Backend/Noter/src/main/java/com/Noter/Noter/user/AuthService.java:20 | the duplicate check looks up the email as typed, while the row is stored under the lower-cased email | "ann@x.io" is registered; register "Ann@x.io": the check passes and the save hits the unique email column, so no "Email is already registered" | the check uses the lower-cased email, so every case variant is rejected as already registered | medium (it assumes the database compares emails case-sensitively); not executed | `Auth.MixedCaseReRegistration` | `Auth.AuthService.RegisterLowercaseCheck` |

## Left out

- Rendering: the JSX of `App.jsx` and the widget markup and effects of `WalletConnection.jsx` are not modelled. The form and input change handlers and the mode toggle are kept as setters. React's batching of state setters is not modelled: each handler is one atomic transition, and its `alert` dialog is its return value.
- The in-place assignment of `updated[editIndex].text` also changes the note object shared with the previous array. The model keeps notes as values, so only the new list is described.
- `Frontend.App.HandleDelete`, `Frontend.App.HandleEdit`: they require an index of an existing note, because the component only calls them with the index of a rendered note.
- Wallet connection, the mocked transaction flow and the HTTP client (`blockchain.js`, `client.js`, `BlockchainNoteForm.jsx`) are calls into browser wallets, randomness, timers and the network. They are not part of this model.
- HTTP routing and error mapping (`NoteController.java`, `AuthController.java`, `GlobalExceptionHandler.java`) are not part of this model.
- The note service's `list` and `create` methods, which the controllers call, do not appear in `service/NoteService.java`. The blockchain endpoints therefore take the note list as a parameter, and `storeBlockchainNote` returns the request it would hand to `create`.
- Persistence-layer behaviour is abstracted:
  - generated UUIDs and database identities come from a counter, and a failed insert consumes no identity;
  - the Hibernate creation timestamp is a caller-supplied clock reading;
  - the `createdAt` of a user row is not stored;
  - bean validation of the `Note` entity and of the update request at save time is not modelled.
- `Notes.NoteService.NotesByWalletAddress`: the query leaves the order of notes with equal timestamps open. The model picks one such order, and its contract states only the ordering by createdAt.
- The password encoder's hashing is foreign cryptography. It is a pair of functions given to the service. The property `matches(p, encode(p))` is a hypothesis of `Auth.LoginAfterRegister`, not an assumption of the model.
- Java's `toLowerCase` and `equalsIgnoreCase` fold only ASCII letters here. Unicode and locale-specific case mappings are not modelled.
- `Blockchain.StoreBlockchainNote`: the `@Email` format check on the author email is not modelled. The 200-character title limit counts Unicode code points, whereas Java counts UTF-16 units.
- A null author email among the listed notes, which would throw in the author filter, is not modelled: author emails are plain strings.
- `Wallet.FormatAddress`: characters are Unicode code points, whereas JavaScript's `slice` counts UTF-16 code units. The two agree on text inside the Basic Multilingual Plane, which includes the hexadecimal wallet addresses the widget shows. For "😀😀😀" the model keeps all three emoji, while JavaScript splits surrogate pairs.
- `Auth.AuthService.Register`, `Auth.AuthService.Login`: request fields are plain strings. A null email makes `toLowerCase` throw at `AuthService.java` lines 25 and 32. `AuthController.java` catches only `IllegalArgumentException`, so the request ends in a server error. That path is not modelled.
- `Auth.AuthService.Register`: the repository's email lookup and the unique email column are modelled as exact, case-sensitive comparisons. Their real behaviour depends on the database collation: under a case-insensitive collation, the duplicate check in the second Findings row would already find the stored row.
