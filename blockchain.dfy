/**
 * The blockchain-note endpoints: a request check before a note is
 * created, and two queries over the service's list of all notes. The
 * list itself comes from the note service and is a parameter here.
 */
module Blockchain {
  import opened Wrappers
  import opened Text

  /** A listed note as the service returns it; the hash and the flag are nullable. */
  datatype NoteView = NoteView(
    id: nat,
    title: string,
    content: string,
    authorEmail: string,
    authorName: string,
    blockchainTxHash: Option<string>,
    isBlockchainNote: Option<bool>)

  /** The create request's JSON body; every field may be missing. */
  datatype NoteCreateRequest = NoteCreateRequest(
    title: Option<string>,
    content: Option<string>,
    authorEmail: Option<string>,
    authorName: Option<string>,
    blockchainTxHash: Option<string>)

  /** What the endpoint does with a request: reject it, or hand it to the note service. */
  datatype StoreDecision =
    | ValidationErrors   // the @Valid constraints failed; the body never runs
    | BadRequest         // no usable transaction hash
    | Create(request: NoteCreateRequest)

  datatype VerifyResponse =
    | NotFound
    | Verified(verified: bool, transactionHash: string, noteCount: nat, notes: seq<NoteView>)

  /** `r` keeps some of the elements of `s`, in their order in `s`. */
  ghost predicate IsSubsequence<T>(r: seq<T>, s: seq<T>)
    decreases |s|
  {
    if r == [] then true
    else if s == [] then false
    else (r[0] == s[0] && IsSubsequence(r[1..], s[1..])) || IsSubsequence(r, s[1..])
  }

  lemma {:induction false} SubsequenceTransitive<T>(a: seq<T>, b: seq<T>, c: seq<T>)
    requires IsSubsequence(a, b) && IsSubsequence(b, c)
    ensures IsSubsequence(a, c)
    decreases |c|
  {
    if a != [] {
      if b[0] == c[0] && IsSubsequence(b[1..], c[1..]) {
        if a[0] == b[0] && IsSubsequence(a[1..], b[1..]) {
          SubsequenceTransitive(a[1..], b[1..], c[1..]);
        } else {
          SubsequenceTransitive(a, b[1..], c[1..]);
        }
      } else {
        SubsequenceTransitive(a, b, c[1..]);
      }
    }
  }

  /** Java's `stream().filter(keep).toList()`. */
  function Filter<T(==,!new)>(s: seq<T>, keep: T -> bool): (r: seq<T>)
    ensures IsSubsequence(r, s)
    ensures forall x :: x in r ==> keep(x)
    ensures forall x :: multiset(r)[x] == if keep(x) then multiset(s)[x] else 0
  {
    if s == [] then []
    else
      var rest := Filter(s[1..], keep);
      assert s == [s[0]] + s[1..];
      if keep(s[0]) then
        assert ([s[0]] + rest)[1..] == rest;
        [s[0]] + rest
      else
        rest
  }

  /** The @NotBlank constraint: present, and not empty once Java's String.trim has run. */
  predicate NotBlank(field: Option<string>)
  {
    field.Some? && !JavaTrimsToEmpty(field.value)
  }

  /** The controller's own hash test: present, and not String.isBlank. */
  predicate HasTxHash(req: NoteCreateRequest)
  {
    req.blockchainTxHash.Some? && !IsBlank(req.blockchainTxHash.value)
  }

  /**
   * The two blank tests differ: a control character alone is trimmed away,
   * so @NotBlank refuses it, while an em space survives trim although
   * String.isBlank counts it as whitespace.
   */
  lemma NotBlankIsNotIsBlank()
    ensures !NotBlank(Some([0x01 as char])) && !IsBlank([0x01 as char])
    ensures NotBlank(Some([0x2003 as char])) && IsBlank([0x2003 as char])
  {
    assert !IsJavaWhitespace([0x01 as char][0]);
    assert !IsJavaTrimmed([0x2003 as char][0]);
  }

  /** The request's declared constraints (title, content and author email not blank; title at most 200 characters). */
  predicate FieldsValid(req: NoteCreateRequest)
  {
    NotBlank(req.title) && |req.title.value| <= 200 && NotBlank(req.content) && NotBlank(req.authorEmail)
  }

  /** `storeBlockchainNote`: only a request carrying a non-blank transaction hash reaches the note service. */
  function StoreBlockchainNote(req: NoteCreateRequest): (r: StoreDecision)
    ensures r.Create? <==> FieldsValid(req) && HasTxHash(req)
    ensures r.Create? ==> r.request == req
    ensures r == BadRequest <==> FieldsValid(req) && !HasTxHash(req)
  {
    if !FieldsValid(req) then ValidationErrors
    else if req.blockchainTxHash.None? || IsBlank(req.blockchainTxHash.value) then BadRequest
    else Create(req)
  }

  predicate ByAuthor(note: NoteView, email: string) { EqualsIgnoreCase(note.authorEmail, email) }

  /** `Boolean.TRUE.equals(note.isBlockchainNote())`: false for a null flag. */
  predicate OnChain(note: NoteView) { note.isBlockchainNote == Some(true) }

  /** `getUserBlockchainNotes`: the author filter, then the blockchain-flag filter. */
  function UserBlockchainNotes(notes: seq<NoteView>, email: string): (r: seq<NoteView>)
    ensures IsSubsequence(r, notes)
    ensures forall n :: n in r ==> ByAuthor(n, email) && n.isBlockchainNote == Some(true)
    ensures forall n :: multiset(r)[n] == if ByAuthor(n, email) && OnChain(n) then multiset(notes)[n] else 0
  {
    var byAuthor := Filter(notes, n => ByAuthor(n, email));
    var r := Filter(byAuthor, OnChain);
    SubsequenceTransitive(r, byAuthor, notes);
    r
  }

  /** `txHash.equals(note.blockchainTxHash())`: exact, case-sensitive, and false for a null hash. */
  predicate HasHash(note: NoteView, txHash: string) { note.blockchainTxHash == Some(txHash) }

  /** The first stage of `verifyTransaction`: the listed notes carrying the hash. */
  function WithHash(notes: seq<NoteView>, txHash: string): seq<NoteView>
  {
    Filter(notes, n => HasHash(n, txHash))
  }

  /** The number of listed notes carrying exactly this transaction hash. */
  function CountWithHash(notes: seq<NoteView>, txHash: string): nat
  {
    if notes == [] then 0
    else (if notes[0].blockchainTxHash == Some(txHash) then 1 else 0) + CountWithHash(notes[1..], txHash)
  }

  lemma {:induction false} FilterCountsHash(notes: seq<NoteView>, txHash: string)
    ensures |WithHash(notes, txHash)| == CountWithHash(notes, txHash)
  {
    if notes != [] {
      FilterCountsHash(notes[1..], txHash);
    }
  }

  /** `verifyTransaction`: the notes whose hash equals txHash exactly (case-sensitive), or not-found when there are none. */
  function VerifyTransaction(notes: seq<NoteView>, txHash: string): (r: VerifyResponse)
    ensures r == NotFound <==> forall i :: 0 <= i < |notes| ==> notes[i].blockchainTxHash != Some(txHash)
    ensures r.Verified? ==>
      && r.verified
      && r.transactionHash == txHash
      && r.noteCount == |r.notes| == CountWithHash(notes, txHash)
      && IsSubsequence(r.notes, notes)
      && (forall n :: n in r.notes ==> n.blockchainTxHash == Some(txHash))
  {
    var matching := WithHash(notes, txHash);
    FilterCountsHash(notes, txHash);
    if matching == [] then
      assert forall i :: 0 <= i < |notes| ==> notes[i].blockchainTxHash != Some(txHash) by {
        forall i | 0 <= i < |notes| ensures notes[i].blockchainTxHash != Some(txHash) {
          assert multiset(matching)[notes[i]] == 0;
        }
      }
      NotFound
    else
      Verified(true, txHash, |matching|, matching)
  }
}
